/**
 * Session start: the memories a caller may read are listed newest first, up to a limit, and each is written
 * to the file of its scope and slug, over whatever is there.
 */
module Materialization {
  import opened Common
  import opened Artifacts
  import opened ArtifactStore
  import opened MemoryPaths
  import opened Slugs

  datatype Caller = Caller(user: Option<string>, agent: Option<string>)

  predicate Visible(c: Caller, row: Row) {
    match row.scope
    case Unscoped => false
    case Topic => true
    case User(u) => c.user == Some(u)
    case Agent(a) => c.agent == Some(a)
  }

  predicate Listed(t: Table, c: Caller, i: nat) {
    i < |t| && Active(t[i]) && t[i].kind == Memory && Visible(c, t[i])
  }

  /** What the listing returns: the newest rows the caller may read, newest first. */
  ghost predicate Fetched(t: Table, c: Caller, limit: nat, rows: seq<nat>) {
    && |rows| <= limit
    && (forall k :: 0 <= k < |rows| ==> Listed(t, c, rows[k]))
    && (forall j, k :: 0 <= j < k < |rows| ==> rows[j] > rows[k])
    && forall i: nat :: Listed(t, c, i) ==> i in rows || (|rows| == limit && forall r :: r in rows ==> r > i)
  }

  /** The file of a row, below the memory root. */
  function FileOf(row: Row): Option<string> {
    if row.slug.None? || ScopeColumn(row.scope).None? then None
    else SafeRelpath(ScopeColumn(row.scope).value, row.slug.value)
  }

  /** The row is written: it has a file, and neither reading nor writing it fails. */
  predicate IsWritten(t: Table, broken: set<nat>, i: nat) {
    i < |t| && FileOf(t[i]).Some? && i !in broken
  }

  /** The row whose content each file holds in the end. */
  function Written(t: Table, rows: seq<nat>, broken: set<nat>): map<string, nat> {
    if rows == [] then map[]
    else
      var before, last := Written(t, rows[..|rows| - 1], broken), rows[|rows| - 1];
      if IsWritten(t, broken, last) then before[FileOf(t[last]).value := last] else before
  }

  function CountWritten(t: Table, rows: seq<nat>, broken: set<nat>): nat {
    if rows == [] then 0
    else
      CountWritten(t, rows[..|rows| - 1], broken) + (if IsWritten(t, broken, rows[|rows| - 1]) then 1 else 0)
  }

  method MaterializeMemory(t: Table, rows: seq<nat>, broken: set<nat>) returns (files: map<string, nat>, written: nat)
    requires forall r :: r in rows ==> r < |t|
    ensures files == Written(t, rows, broken) && written == CountWritten(t, rows, broken)
  {
    files, written := map[], 0;
    for k := 0 to |rows|
      invariant files == Written(t, rows[..k], broken) && written == CountWritten(t, rows[..k], broken)
    {
      assert rows[..k + 1][..k] == rows[..k];
      var row := rows[k];
      assert row in rows;
      var file := FileOf(t[row]);
      if file.Some? && row !in broken {
        files := files[file.value := row];
        written := written + 1;
      }
    }
    assert rows[..|rows|] == rows;
  }

  ghost function RowsWritten(t: Table, rows: seq<nat>, broken: set<nat>): set<nat> {
    set r | r in rows && IsWritten(t, broken, r)
  }

  lemma {:induction false} OneMoreWritten(t: Table, front: seq<nat>, last: nat, rows: seq<nat>, broken: set<nat>)
    requires rows == front + [last] && last !in front
    ensures |RowsWritten(t, rows, broken)|
         == |RowsWritten(t, front, broken)| + if IsWritten(t, broken, last) then 1 else 0
  {
    var added := if IsWritten(t, broken, last) then {last} else {};
    assert RowsWritten(t, rows, broken) == RowsWritten(t, front, broken) + added;
  }

  /** The count is the number of rows written, when no row is listed twice. */
  lemma {:induction false} CountWrittenExactly(t: Table, rows: seq<nat>, broken: set<nat>)
    requires Distinct(rows)
    ensures CountWritten(t, rows, broken) == |RowsWritten(t, rows, broken)|
  {
    if rows != [] {
      var front, last := rows[..|rows| - 1], rows[|rows| - 1];
      CountWrittenExactly(t, front, broken);
      OneMoreWritten(t, front, last, rows, broken);
    }
  }

  /** Where a memory is written: below its scope's directory, under its slug; a row of another kind is not. */
  lemma {:induction false} MemoryFileExactly(row: Row)
    ensures FileOf(row) == match row.scope
                           case Unscoped => None
                           case Topic => FileIn("topic", row.slug)
                           case User(_) => FileIn("user", row.slug)
                           case Agent(_) => FileIn("agent", row.slug)
  {
    if row.slug.Some? && IsSafeSlug(row.slug.value) {
      assert (row.slug.value + ".md")[0] == row.slug.value[0];
    }
  }

  function FileIn(dir: string, slug: Option<string>): Option<string> {
    if slug.Some? && IsSafeSlug(slug.value) then Some(dir + "/" + (slug.value + ".md")) else None
  }

  predicate WritesTo(t: Table, broken: set<nat>, i: nat, file: string) {
    IsWritten(t, broken, i) && FileOf(t[i]) == Some(file)
  }

  /** The last row written to a file is what it holds. */
  lemma {:induction false} LastWriteWins(t: Table, rows: seq<nat>, broken: set<nat>, file: string)
    requires forall j, k :: 0 <= j < k < |rows| ==> rows[j] > rows[k]
    ensures var files := Written(t, rows, broken);
            && (file in files <==> exists r :: r in rows && WritesTo(t, broken, r, file))
            && (file in files ==> files[file] in rows && WritesTo(t, broken, files[file], file))
            && (file in files ==> forall r :: r in rows && WritesTo(t, broken, r, file) ==> files[file] <= r)
  {
    if rows != [] {
      var n := |rows| - 1;
      LastWriteWins(t, rows[..n], broken, file);
      var before := Written(t, rows[..n], broken);
      assert rows == rows[..n] + [rows[n]];
      forall r | r in rows[..n] ensures r > rows[n] {
        var j :| 0 <= j < n && rows[j] == r;
      }
      if WritesTo(t, broken, rows[n], file) {
        assert rows[n] in rows;
      } else {
        forall r ensures (r in rows && WritesTo(t, broken, r, file))
            <==> (r in rows[..n] && WritesTo(t, broken, r, file)) {}
        assert file in Written(t, rows, broken) <==> file in before;
      }
    }
  }

  /** Newest first means that each file ends up with the oldest of the rows fetched for it. */
  lemma {:induction false} OldestFetchedWins(t: Table, c: Caller, limit: nat, rows: seq<nat>, broken: set<nat>, i: nat)
    requires Fetched(t, c, limit, rows) && i in rows && IsWritten(t, broken, i)
    ensures var files, file := Written(t, rows, broken), FileOf(t[i]).value;
            && file in files && files[file] in rows
            && (files[file] == i <==> forall r :: r in rows && WritesTo(t, broken, r, file) ==> i <= r)
  {
    var files, file := Written(t, rows, broken), FileOf(t[i]).value;
    LastWriteWins(t, rows, broken, file);
    assert WritesTo(t, broken, i, file);
  }

  // ---------------------------------------------------------------- one file, one key

  lemma {:induction false} SameFileSameSlug(a: Row, b: Row)
    requires FileOf(a).Some? && FileOf(a) == FileOf(b)
    ensures a.slug == b.slug && ScopeColumn(a.scope) == ScopeColumn(b.scope)
  {
    DistinctMemoriesHaveDistinctFiles("", ScopeColumn(a.scope).value, a.slug.value, ScopeColumn(b.scope).value,
        b.slug.value);
  }

  /** For one caller a file belongs to one key: the scope column names the subject. */
  lemma {:induction false} SameFileSameKey(t: Table, c: Caller, i: nat, j: nat, key: Key)
    requires Listed(t, c, i) && Listed(t, c, j) && Matches(t[i], key) && FileOf(t[i]).Some?
    ensures FileOf(t[j]) == FileOf(t[i]) <==> Matches(t[j], key)
  {
    if FileOf(t[j]) == FileOf(t[i]) {
      SameFileSameSlug(t[i], t[j]);
    }
  }

  /** Later rows of a key have higher versions. */
  lemma {:induction false} VersionsIncrease(t: Table, key: Key, i: nat, j: nat)
    requires OneToN(Versions(t, key)) && i < j < |t|
    requires Matches(t[i], key) && Matches(t[j], key) && t[i].version.Some? && t[j].version.Some?
    ensures t[i].version.value < t[j].version.value
  {
    var rest := t[..|t| - 1];
    var vs := Versions(t, key);
    assert Versions(rest, key) == vs || Versions(rest, key) == vs[..|vs| - 1];
    if j == |t| - 1 {
      assert vs == Versions(rest, key) + [t[j].version.value];
      assert t[j].version.value == vs[|vs| - 1] == |vs|;
      assert rest[i] == t[i];
      ListedVersionsAreSmall(rest, key, i);
    } else {
      VersionsIncrease(rest, key, i, j);
    }
  }

  lemma {:induction false} LookupIsLastRow(es: seq<Event>, key: Key, i: nat, r: nat)
    requires IsLookup(Run(es)[|es|], key, Some(i))
    requires var t := Run(es)[|es|]; r < |t| && Matches(t[r], key) && Active(t[r])
    ensures r <= i
  {
    var t := Run(es)[|es|];
    VersionsOneToN(es, key);
    if i < r {
      VersionsIncrease(t, key, i, r);
      assert SortsBefore(t[r], t[i]);
    }
  }

  /** The session's file for the row i that the lookup finds: the file that i would be written to holds i. */
  predicate HoldsRow(t: Table, files: map<string, nat>, i: nat)
    requires i < |t|
  {
    FileOf(t[i]).Some? && FileOf(t[i]).value in files && files[FileOf(t[i]).value] == i
  }

  /** Exactly when a session starts with the latest version of a memory: it was fetched, its content could be
      read and written, and no other version of it was fetched and written. So every memory with two readable
      versions in the listing is materialised from an old one. */
  lemma {:induction false} FileHoldsLatestExactly(es: seq<Event>, c: Caller, limit: nat, rows: seq<nat>,
                                                  broken: set<nat>, key: Key, i: nat)
    requires var t := Run(es)[|es|]; Fetched(t, c, limit, rows) && IsLookup(t, key, Some(i))
    ensures var t := Run(es)[|es|];
            HoldsRow(t, Written(t, rows, broken), i) <==>
            && i in rows && IsWritten(t, broken, i)
            && forall r :: r in rows && Matches(t[r], key) && r !in broken ==> r == i
  {
    var t := Run(es)[|es|];
    if i in rows && IsWritten(t, broken, i) {
      var file := FileOf(t[i]).value;
      OldestFetchedWins(t, c, limit, rows, broken, i);
      forall r | r in rows
        ensures r < |t| && (WritesTo(t, broken, r, file) <==> Matches(t[r], key) && r !in broken)
        ensures Matches(t[r], key) ==> r <= i
      {
        SameFileSameKey(t, c, i, r, key);
        if Matches(t[r], key) {
          LookupIsLastRow(es, key, i, r);
        }
      }
    } else if FileOf(t[i]).Some? {
      LastWriteWins(t, rows, broken, FileOf(t[i]).value);
    }
  }

  /** A memory saved twice: the session sees its first version. */
  lemma {:induction false} SecondSaveIsNotSeen(c: Caller, limit: nat)
    requires limit >= 2
    ensures var es := [Create(SAMPLE, true, 0, 0), Create(SAMPLE, false, 1, 1)];
            var t := Run(es)[|es|];
            && IsLookup(t, SAMPLE, Some(1)) && t[1] == NewRow(SAMPLE, 2)
            && Fetched(t, c, limit, [1, 0])
            && FileOf(t[1]).Some? && FileOf(t[1]).value in Written(t, [1, 0], {})
            && Written(t, [1, 0], {})[FileOf(t[1]).value] == 0
  {
    var es := [Create(SAMPLE, true, 0, 0), Create(SAMPLE, false, 1, 1)];
    TwoSaves(es);
    var t := Run(es)[|es|];
    PatternIsSafe("a");
    OldestFetchedWins(t, c, limit, [1, 0], {}, 0);
  }

  lemma {:induction false} TwoSaves(es: seq<Event>)
    requires es == [Create(SAMPLE, true, 0, 0), Create(SAMPLE, false, 1, 1)]
    ensures Run(es)[|es|] == [NewRow(SAMPLE, 1), NewRow(SAMPLE, 2)]
  {
    assert es[..1] == [es[0]] && es[..1][..0] == [];
    var h0, h1 := Run([]), Run(es[..1]);
    assert h0 == [[]];
    FirstVersionSucceeds(h0);
    assert h1 == [[], [NewRow(SAMPLE, 1)]];
    SecondSaveSucceeds(h1);
  }

  lemma {:induction false} SecondSaveSucceeds(h: History)
    requires h == [[], [NewRow(SAMPLE, 1)]]
    ensures Commit(h, Create(SAMPLE, false, 1, 1)) == [NewRow(SAMPLE, 1), NewRow(SAMPLE, 2)]
  {
    var t := h[1];
    assert t[..0] == [];
    assert MaxVersion(t, SAMPLE) == Some(1);
    assert Attempt(h, Create(SAMPLE, false, 1, 1)) == Ok(2);
  }
}
