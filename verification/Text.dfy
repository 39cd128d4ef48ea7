/** Splitting a string at slashes and joining the pieces again. */
module Text {

  predicate StartsWith(s: string, head: string) {
    |head| <= |s| && s[..|head|] == head
  }

  function Prepend(c: char, parts: seq<string>): seq<string>
    requires parts != []
  {
    if c == '/' then [""] + parts else [[c] + parts[0]] + parts[1..]
  }

  function Split(s: string): (r: seq<string>)
    ensures |r| >= 1
  {
    if s == "" then [""]
    else
      Prepend(s[0], Split(s[1..]))
  }

  function Join(parts: seq<string>): string {
    if parts == [] then "" else if |parts| == 1 then parts[0] else parts[0] + "/" + Join(parts[1..])
  }

  lemma {:induction false} SplitStep(c: char, a: seq<string>, b: seq<string>)
    requires a != []
    ensures Prepend(c, a + b) == Prepend(c, a) + b
  {}

  lemma {:induction false} SplitAtSlash(a: string, b: string)
    ensures Split(a + "/" + b) == Split(a) + Split(b)
  {
    var s := a + "/" + b;
    if a == "" {
      assert s[1..] == b;
    } else {
      SplitAtSlash(a[1..], b);
      assert s[0] == a[0] && s[1..] == a[1..] + "/" + b;
      SplitStep(a[0], Split(a[1..]), Split(b));
    }
  }

  lemma {:induction false} JoinOfSplit(s: string)
    ensures Join(Split(s)) == s
  {
    if s != "" {
      JoinOfSplit(s[1..]);
      var rest := Split(s[1..]);
      if s[0] != '/' && |rest| > 1 {
        assert Split(s)[1..] == rest[1..];
      }
    }
  }

  ghost predicate SlashFree(parts: seq<string>) {
    forall p :: p in parts ==> '/' !in p
  }

  lemma {:induction false} SplitOfPart(p: string)
    requires '/' !in p
    ensures Split(p) == [p]
  {
    if p != "" {
      assert p[0] in p && '/' !in p[1..];
      SplitOfPart(p[1..]);
      assert [p[0]] + p[1..] == p;
    }
  }

  lemma {:induction false} SplitOfJoin(parts: seq<string>)
    requires parts != [] && SlashFree(parts)
    ensures Split(Join(parts)) == parts
  {
    SplitOfPart(parts[0]);
    if |parts| > 1 {
      SplitOfJoin(parts[1..]);
      SplitAtSlash(parts[0], Join(parts[1..]));
    }
  }

  lemma {:induction false} FirstOfSplit(s: string)
    requires s != ""
    ensures s[0] == '/' ==> Split(s)[0] == ""
    ensures s[0] != '/' ==> Split(s)[0] != "" && Split(s)[0][0] == s[0]
  {}

  lemma {:induction false} PrependTail(c: char, r: seq<string>, tail: string)
    requires r != []
    ensures var a, b := Prepend(c, r), Prepend(c, r[..|r| - 1] + [r[|r| - 1] + tail]);
            b == a[..|a| - 1] + [a[|a| - 1] + tail]
  {
    var k := |r| - 1;
    var r' := r[..k] + [r[k] + tail];
    if c != '/' {
      if k == 0 {
        assert [c] + (r[0] + tail) == ([c] + r[0]) + tail;
      } else {
        assert r'[0] == r[0] && r'[1..] == r[1..][..k - 1] + [r[k] + tail];
      }
    }
  }

  lemma {:induction false} SplitWithTail(s: string, tail: string)
    requires '/' !in tail
    ensures var a := Split(s); Split(s + tail) == a[..|a| - 1] + [a[|a| - 1] + tail]
  {
    if s == "" {
      assert s + tail == tail;
      SplitOfPart(tail);
    } else {
      SplitWithTail(s[1..], tail);
      assert (s + tail)[0] == s[0] && (s + tail)[1..] == s[1..] + tail;
      PrependTail(s[0], Split(s[1..]), tail);
    }
  }

  lemma {:induction false} JoinAppend(a: seq<string>, b: seq<string>)
    requires a != [] && b != []
    ensures Join(a + b) == Join(a) + "/" + Join(b)
  {
    assert (a + b)[0] == a[0] && (a + b)[1..] == a[1..] + b;
    if |a| > 1 {
      JoinAppend(a[1..], b);
      assert a[0] + "/" + (Join(a[1..]) + "/" + Join(b)) == (a[0] + "/" + Join(a[1..])) + "/" + Join(b);
    }
  }
}
