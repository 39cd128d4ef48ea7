/** Small vocabulary shared by the other modules. */
module Common {

  datatype Option<+T> = None | Some(value: T)

  datatype Result<+T, +E> = Ok(value: T) | Err(error: E)

  ghost predicate Distinct<T>(xs: seq<T>) {
    forall i, j :: 0 <= i < j < |xs| ==> xs[i] != xs[j]
  }

  ghost function Elements<T>(xs: seq<T>): set<T> {
    set x | x in xs
  }

  /** A list of n items names n different things exactly when it has no repetition. */
  lemma {:induction false} DistinctByCount<T>(xs: seq<T>)
    ensures |Elements(xs)| <= |xs|
    ensures |Elements(xs)| == |xs| <==> Distinct(xs)
  {
    if xs != [] {
      var last, rest := xs[|xs| - 1], xs[..|xs| - 1];
      DistinctByCount(rest);
      assert xs == rest + [last];
      assert Elements(xs) == Elements(rest) + {last};
      if last in rest {
        assert Elements(xs) == Elements(rest);
        var k :| 0 <= k < |rest| && rest[k] == last;
        assert xs[k] == xs[|xs| - 1];
      } else {
        assert last !in Elements(rest);
        if Distinct(rest) {
          forall i, j | 0 <= i < j < |xs| ensures xs[i] != xs[j] {
            assert xs[i] == rest[i] && rest[i] in rest;
            if j < |rest| { assert xs[j] == rest[j]; }
          }
        } else {
          var i, j :| 0 <= i < j < |rest| && rest[i] == rest[j];
          assert xs[i] == xs[j];
        }
      }
    }
  }

  lemma {:induction false} SubsetSize<T>(a: set<T>, b: set<T>)
    requires a <= b
    ensures |a| <= |b|
    ensures |a| == |b| ==> a == b
  {
    assert b == a + (b - a);
    assert |b| == |a| + |b - a|;
  }

  function One(b: bool): nat {
    if b then 1 else 0
  }

  function Below(n: nat): (r: set<nat>)
    ensures |r| == n && forall k: nat :: k in r <==> k < n
  {
    if n == 0 then {} else Below(n - 1) + {n - 1}
  }

  /** The value after a sequence of writes, of which some write nothing. */
  function LastWrite<T>(writes: seq<Option<T>>, start: T): T {
    if writes == [] then start
    else
      var last := writes[|writes| - 1];
      if last.Some? then last.value else LastWrite(writes[..|writes| - 1], start)
  }

  lemma {:induction false} LastWriteSnoc<T>(writes: seq<Option<T>>, w: Option<T>, start: T)
    ensures LastWrite(writes + [w], start) == if w.Some? then w.value else LastWrite(writes, start)
  {
    assert (writes + [w])[..|writes|] == writes;
  }
}
