/** The command handler's "**" globbing over path components. */
module Globs {
  import opened Text

  const STARS := "**"

  /** filepath.Match on one component, which may also report a malformed pattern. */
  datatype Verdict = Verdict(matched: bool, malformed: bool)

  type ComponentMatch = (string, string) -> Verdict

  // ---------------------------------------------------------------- meaning

  function Flatten(runs: seq<seq<string>>): seq<string> {
    if runs == [] then [] else runs[0] + Flatten(runs[1..])
  }

  predicate PartMatches(m: ComponentMatch, part: string, run: seq<string>) {
    part == STARS || (|run| == 1 && m(part, run[0]).matched && !m(part, run[0]).malformed)
  }

  ghost predicate Covers(m: ComponentMatch, pat: seq<string>, runs: seq<seq<string>>, name: seq<string>) {
    && |runs| == |pat|
    && Flatten(runs) == name
    && forall i :: 0 <= i < |pat| ==> PartMatches(m, pat[i], runs[i])
  }

  /** The path components split into one run for each pattern part: any run for "**", and for every
      other part a single component that it matches. */
  ghost predicate Matches(m: ComponentMatch, pat: seq<string>, name: seq<string>) {
    exists runs :: Covers(m, pat, runs, name)
  }

  // ---------------------------------------------------------------- laws

  lemma {:induction false} FlattenConcat(a: seq<seq<string>>, b: seq<seq<string>>)
    ensures Flatten(a + b) == Flatten(a) + Flatten(b)
  {
    if a == [] {
      assert a + b == b;
    } else {
      FlattenConcat(a[1..], b);
      assert (a + b)[0] == a[0] && (a + b)[1..] == a[1..] + b;
    }
  }

  /** A concatenated pattern matches exactly when the path can be cut so that each half matches. */
  lemma {:induction false} ConcatenationSplitsPath(m: ComponentMatch, p: seq<string>, q: seq<string>, name: seq<string>)
    ensures Matches(m, p + q, name) <==>
            exists k :: 0 <= k <= |name| && Matches(m, p, name[..k]) && Matches(m, q, name[k..])
  {
    if Matches(m, p + q, name) {
      var runs :| Covers(m, p + q, runs, name);
      var a, b := runs[..|p|], runs[|p|..];
      FlattenConcat(a, b);
      assert runs == a + b;
      var k := |Flatten(a)|;
      assert name[..k] == Flatten(a) && name[k..] == Flatten(b);
      forall i | 0 <= i < |p| ensures PartMatches(m, p[i], a[i]) { assert (p + q)[i] == p[i]; }
      forall i | 0 <= i < |q| ensures PartMatches(m, q[i], b[i]) { assert (p + q)[|p| + i] == q[i]; }
      assert Covers(m, p, a, name[..k]) && Covers(m, q, b, name[k..]);
    }
    if k :| 0 <= k <= |name| && Matches(m, p, name[..k]) && Matches(m, q, name[k..]) {
      var a :| Covers(m, p, a, name[..k]);
      var b :| Covers(m, q, b, name[k..]);
      FlattenConcat(a, b);
      assert name == name[..k] + name[k..];
      assert Covers(m, p + q, a + b, name);
    }
  }

  lemma {:induction false} EmptyPattern(m: ComponentMatch, name: seq<string>)
    ensures Matches(m, [], name) <==> name == []
  {
    if name == [] { assert Covers(m, [], [], name); }
  }

  lemma {:induction false} OnePart(m: ComponentMatch, part: string, name: seq<string>)
    ensures Matches(m, [part], name) <==> PartMatches(m, part, name)
  {
    if runs :| Covers(m, [part], runs, name) {
      assert runs == [runs[0]] && Flatten(runs) == runs[0] + [] == runs[0];
      assert [part][0] == part;
    }
    if PartMatches(m, part, name) {
      assert Flatten([name]) == name + Flatten([name][1..]) == name + [] == name;
      assert Covers(m, [part], [name], name);
    }
  }

  /** The first part takes a run from the front of the path. */
  lemma {:induction false} FirstPart(m: ComponentMatch, pat: seq<string>, name: seq<string>)
    requires pat != []
    ensures Matches(m, pat, name) <==>
            exists k :: 0 <= k <= |name| && PartMatches(m, pat[0], name[..k]) && Matches(m, pat[1..], name[k..])
  {
    assert pat == [pat[0]] + pat[1..];
    ConcatenationSplitsPath(m, [pat[0]], pat[1..], name);
    forall k | 0 <= k <= |name| ensures Matches(m, [pat[0]], name[..k]) <==> PartMatches(m, pat[0], name[..k]) {
      OnePart(m, pat[0], name[..k]);
    }
  }

  lemma {:induction false} OrdinaryFirst(m: ComponentMatch, pat: seq<string>, name: seq<string>)
    requires pat != [] && pat[0] != STARS
    ensures Matches(m, pat, name) <==>
            name != [] && PartMatches(m, pat[0], [name[0]]) && Matches(m, pat[1..], name[1..])
  {
    FirstPart(m, pat, name);
    if name != [] {
      assert name[..1] == [name[0]];
    }
  }

  lemma {:induction false} StarsFirst(m: ComponentMatch, pat: seq<string>, name: seq<string>)
    requires pat != [] && pat[0] == STARS
    ensures Matches(m, pat, name) <==> exists k :: 0 <= k <= |name| && Matches(m, pat[1..], name[k..])
  {
    FirstPart(m, pat, name);
    if k :| 0 <= k <= |name| && Matches(m, pat[1..], name[k..]) {
      assert PartMatches(m, pat[0], name[..k]);
    }
  }

  /** The rule of a |pattern| by |path| table: each entry from its neighbours, with no search. */
  ghost predicate Table(m: ComponentMatch, pat: seq<string>, name: seq<string>)
    decreases |pat| + |name|
  {
    if pat == [] then name == []
    else if pat[0] == STARS then Table(m, pat[1..], name) || (name != [] && Table(m, pat, name[1..]))
    else name != [] && PartMatches(m, pat[0], [name[0]]) && Table(m, pat[1..], name[1..])
  }

  lemma {:induction false} TableAgrees(m: ComponentMatch, pat: seq<string>, name: seq<string>)
    ensures Table(m, pat, name) <==> Matches(m, pat, name)
    decreases |pat| + |name|
  {
    if pat == [] {
      EmptyPattern(m, name);
    } else if pat[0] == STARS {
      StarsFirst(m, pat, name);
      TableAgrees(m, pat[1..], name);
      assert name[0..] == name;
      if name != [] {
        TableAgrees(m, pat, name[1..]);
        StarsFirst(m, pat, name[1..]);
        forall k | 1 <= k <= |name| ensures name[1..][k - 1..] == name[k..] {}
        forall k | 0 <= k <= |name[1..]| ensures name[1..][k..] == name[k + 1..] {}
      }
    } else {
      OrdinaryFirst(m, pat, name);
      if name != [] { TableAgrees(m, pat[1..], name[1..]); }
    }
  }

  /** Row i of the table: what the pattern from part i on matches, for each suffix of the path. */
  ghost predicate IsRow(m: ComponentMatch, pat: seq<string>, name: seq<string>, row: seq<bool>) {
    |row| == |name| + 1 && forall j :: 0 <= j <= |name| ==> (row[j] <==> Table(m, pat, name[j..]))
  }

  /** Entry j from its right neighbour and the row below. */
  predicate Entry(m: ComponentMatch, part: string, name: seq<string>, below: seq<bool>, j: nat, right: bool)
    requires |below| == |name| + 1 && j <= |name|
  {
    if part == STARS then below[j] || (j < |name| && right)
    else j < |name| && PartMatches(m, part, [name[j]]) && below[j + 1]
  }

  lemma {:induction false} EntryIsTable(m: ComponentMatch, pat: seq<string>, name: seq<string>, below: seq<bool>,
                                        j: nat, right: bool)
    requires pat != [] && j <= |name| && IsRow(m, pat[1..], name, below)
    requires j < |name| ==> (right <==> Table(m, pat, name[j + 1..]))
    ensures Entry(m, pat[0], name, below, j, right) <==> Table(m, pat, name[j..])
  {
    assert below[j] <==> Table(m, pat[1..], name[j..]);
    if j < |name| {
      assert name[j..][1..] == name[j + 1..] && name[j..][0] == name[j];
      assert below[j + 1] <==> Table(m, pat[1..], name[j + 1..]);
    }
  }

  lemma {:induction false} LastRow(m: ComponentMatch, name: seq<string>)
    ensures IsRow(m, [], name, seq(|name|, i => false) + [true])
  {}

  /** One row from the row below, from right to left. */
  method FillRow(m: ComponentMatch, part: string, name: seq<string>, below: seq<bool>, ghost pat: seq<string>)
    returns (row: seq<bool>)
    requires pat != [] && part == pat[0] && IsRow(m, pat[1..], name, below)
    ensures IsRow(m, pat, name, row)
  {
    row := [];
    for j := |name| + 1 downto 0
      invariant |row| == |name| + 1 - j
      invariant forall k :: j <= k <= |name| ==> (row[k - j] <==> Table(m, pat, name[k..]))
    {
      var right := row != [] && row[0];
      EntryIsTable(m, pat, name, below, j, right);
      row := [Entry(m, part, name, below, j, right)] + row;
    }
  }

  /** The |pattern| by |path| table, filled row by row from the bottom: as many entries as parts times
      components, and no search. */
  method MatchByTable(m: ComponentMatch, pattern: seq<string>, path: seq<string>) returns (matched: bool)
    ensures matched <==> Matches(m, pattern, path)
  {
    var row := seq(|path|, i => false) + [true];
    LastRow(m, path);
    for i := |pattern| downto 0
      invariant IsRow(m, pattern[i..], path, row)
    {
      assert pattern[i..][1..] == pattern[i + 1..];
      row := FillRow(m, pattern[i], path, row, pattern[i..]);
    }
    assert pattern[0..] == pattern && path[0..] == path;
    TableAgrees(m, pattern, path);
    matched := row[0];
  }

  /** Repeating "**" changes nothing, wherever it stands. */
  lemma {:induction false} StarsAreIdempotent(m: ComponentMatch, p: seq<string>, q: seq<string>, name: seq<string>)
    ensures Matches(m, p + ([STARS, STARS] + q), name) <==> Matches(m, p + ([STARS] + q), name)
  {
    ConcatenationSplitsPath(m, p, [STARS, STARS] + q, name);
    ConcatenationSplitsPath(m, p, [STARS] + q, name);
    forall k | 0 <= k <= |name|
      ensures Matches(m, [STARS, STARS] + q, name[k..]) <==> Matches(m, [STARS] + q, name[k..])
    {
      TwoStars(m, q, name[k..]);
    }
  }

  lemma {:induction false} TwoStars(m: ComponentMatch, q: seq<string>, name: seq<string>)
    ensures Matches(m, [STARS, STARS] + q, name) <==> Matches(m, [STARS] + q, name)
  {
    var two, one := [STARS, STARS] + q, [STARS] + q;
    assert two[1..] == one && one[1..] == q;
    StarsFirst(m, two, name);
    StarsFirst(m, one, name);
    if k :| 0 <= k <= |name| && Matches(m, one, name[k..]) {
      StarsFirst(m, one, name[k..]);
      var j :| 0 <= j <= |name[k..]| && Matches(m, q, name[k..][j..]);
      assert name[k..][j..] == name[k + j..];
    }
    if Matches(m, one, name) { assert name[0..] == name; }
  }

  // ---------------------------------------------------------------- the matcher

  /** The loop consumes parts and components together; "**" tries every suffix and never returns to the loop. */
  method GlobMatch(m: ComponentMatch, pattern: seq<string>, path: seq<string>) returns (matched: bool)
    ensures matched <==> Matches(m, pattern, path)
    decreases |pattern|
  {
    var patParts, nameParts := pattern, path;
    while patParts != []
      invariant |patParts| <= |pattern|
      invariant Matches(m, pattern, path) <==> Matches(m, patParts, nameParts)
      decreases |patParts|
    {
      var pat := patParts[0];
      if pat == STARS {
        StarsFirst(m, patParts, nameParts);
        patParts := patParts[1..];
        if patParts == [] {
          EmptyPattern(m, nameParts[|nameParts|..]);
          return true;
        }
        for i := 0 to |nameParts| + 1
          invariant forall k :: 0 <= k < i ==> !Matches(m, patParts, nameParts[k..])
        {
          var found := GlobMatch(m, patParts, nameParts[i..]);
          if found {
            return true;
          }
        }
        return false;
      }
      OrdinaryFirst(m, patParts, nameParts);
      patParts := patParts[1..];
      if nameParts == [] {
        return false;
      }
      var v := m(pat, nameParts[0]);
      if v.malformed || !v.matched {
        return false;
      }
      nameParts := nameParts[1..];
    }
    EmptyPattern(m, nameParts);
    return nameParts == [];
  }

  method MatchDoubleStarGlob(m: ComponentMatch, pattern: string, path: string) returns (matched: bool)
    ensures matched <==> Matches(m, Split(pattern), Split(path))
  {
    matched := GlobMatch(m, Split(pattern), Split(path));
  }

  /** "**" in front of a pattern: it matches a path exactly when the pattern matches the path from some
      component on. */
  lemma {:induction false} AnyDepth(m: ComponentMatch, pattern: string, path: string)
    ensures Matches(m, Split(STARS + "/" + pattern), Split(path)) <==>
            exists k :: 0 <= k <= |Split(path)| && Matches(m, Split(pattern), Split(path)[k..])
  {
    SplitAtSlash(STARS, pattern);
    SplitOfPart(STARS);
    var pat := [STARS] + Split(pattern);
    assert pat[1..] == Split(pattern);
    StarsFirst(m, pat, Split(path));
  }
}
