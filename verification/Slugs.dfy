/**
 * Memory slugs: the normaliser's passes over a path, and exactly which strings it produces.
 *
 * Lower-casing is modelled on the characters that matter: ASCII letters, and the two others
 * whose lower-case form contains an ASCII letter (KELVIN SIGN and I WITH DOT ABOVE). Any other
 * character lower-cases to characters outside the allow-list, which the next pass turns into
 * a dash, so keeping it as it is changes no result.
 */
module Slugs {
  import opened Common
  import opened Text

  // ---------------------------------------------------------------- the passes

  function SlashChar(c: char): char {
    if c == '\\' then '/' else c
  }

  function ToSlash(s: string): (r: string)
    ensures |r| == |s|
  {
    seq(|s|, i requires 0 <= i < |s| => SlashChar(s[i]))
  }

  function LowerChar(c: char): string {
    if 'A' <= c <= 'Z' then [c - 'A' + 'a']
    else if c == '\U{212A}' then "k"
    else if c == '\U{0130}' then "i\U{0307}"
    else [c]
  }

  function Lower(s: string): string {
    if s == "" then "" else Lower(s[..|s| - 1]) + LowerChar(s[|s| - 1])
  }

  predicate EndsWith(s: string, tail: string) {
    |tail| <= |s| && s[|s| - |tail|..] == tail
  }

  predicate EndsMd(s: string) {
    EndsWith(Lower(s), ".md")
  }

  function StripMd(s: string): string {
    if EndsMd(s) && |s| >= 3 then s[..|s| - 3] else s
  }

  predicate Alnum(c: char) {
    'a' <= c <= 'z' || 'A' <= c <= 'Z' || '0' <= c <= '9'
  }

  predicate Allowed(c: char) {
    Alnum(c) || c == '_' || c == '.' || c == '/' || c == '-'
  }

  function Substitute(s: string): (r: string)
    ensures |r| == |s|
  {
    seq(|s|, i requires 0 <= i < |s| => if Allowed(s[i]) then s[i] else '-')
  }

  function Collapse(s: string, c: char): (r: string)
    ensures |r| <= |s|
  {
    if |s| < 2 then s
    else if s[0] == c && s[1] == c then Collapse(s[1..], c)
    else [s[0]] + Collapse(s[1..], c)
  }

  predicate Strippable(c: char) {
    c == '-' || c == '.'
  }

  function StripLeft(s: string): (r: string)
    ensures |r| <= |s|
  {
    if s != "" && Strippable(s[0]) then StripLeft(s[1..]) else s
  }

  function StripRight(s: string): (r: string)
    ensures |r| <= |s|
  {
    if s != "" && Strippable(s[|s| - 1]) then StripRight(s[..|s| - 1]) else s
  }

  function Strip(s: string): (r: string)
    ensures |r| <= |s|
  {
    StripRight(StripLeft(s))
  }

  function Kept(parts: seq<string>): seq<string> {
    if parts == [] then []
    else (if Strip(parts[0]) == "" then [] else [Strip(parts[0])]) + Kept(parts[1..])
  }

  /** All passes after the extension is gone. */
  function Segments(s: string): seq<string> {
    Kept(Split(Collapse(Collapse(Substitute(Lower(s)), '-'), '/')))
  }

  function NormalizedOne(raw: string): string {
    Join(Segments(StripMd(ToSlash(raw))))
  }

  /** Joined by a slash, unless one of them is empty. */
  function Glued(head: string, body: string): string {
    if head != "" && body != "" then head + "/" + body else if head != "" then head else body
  }

  function Normalized(path: string, prefix: Option<string>): string {
    var body := NormalizedOne(path);
    if prefix.None? || prefix.value == "" then body else Glued(NormalizedOne(prefix.value), body)
  }

  /** The passes as they are run, the last one a loop that appends to a list. */
  method NormalizeOne(raw: string) returns (slug: string)
    ensures slug == NormalizedOne(raw)
  {
    var s := ToSlash(raw);
    EndsMdExactly(s);
    if EndsMd(s) {
      s := s[..|s| - 3];
    }
    s := Lower(s);
    s := Substitute(s);
    s := Collapse(s, '-');
    s := Collapse(s, '/');
    var cleaned := CleanSegments(Split(s));
    slug := Join(cleaned);
  }

  method CleanSegments(parts: seq<string>) returns (cleaned: seq<string>)
    ensures cleaned == Kept(parts)
  {
    cleaned := [];
    for i := 0 to |parts|
      invariant Kept(parts) == cleaned + Kept(parts[i..])
    {
      var stripped := Strip(parts[i]);
      assert parts[i..][1..] == parts[i + 1..];
      if stripped != "" {
        cleaned := cleaned + [stripped];
      }
    }
  }

  method NormalizePathToSlug(path: string, prefix: Option<string>) returns (slug: string)
    ensures slug == Normalized(path, prefix)
  {
    var body := NormalizeOne(path);
    if prefix.None? || prefix.value == "" {
      return body;
    }
    var head := NormalizeOne(prefix.value);
    if head != "" && body != "" {
      return head + "/" + body;
    }
    return if head != "" then head else body;
  }

  predicate MatchesSlugRe(s: string) {
    1 <= |s| <= 255 && Alnum(s[0]) && forall i :: 0 <= i < |s| ==> Allowed(s[i])
  }

  predicate IsSafeSlug(s: string) {
    s != "" && MatchesSlugRe(s) && forall part :: part in Split(s) ==> part !in {"", ".", ".."}
  }

  // ---------------------------------------------------------------- characters

  lemma {:induction false} LowerSnoc(s: string, front: string, c: char)
    requires s == front + [c]
    ensures Lower(s) == Lower(front) + LowerChar(c)
  {
    assert s[..|s| - 1] == front;
  }

  lemma {:induction false} SeqAssociates(a: string, b: string, c: string)
    ensures (a + b) + c == a + (b + c)
  {}

  lemma {:induction false} LowerConcatSnoc(a: string, front: string, c: char, b: string, ab: string)
    requires b == front + [c] && ab == a + b && Lower(a + front) == Lower(a) + Lower(front)
    ensures Lower(ab) == Lower(a) + Lower(b)
  {
    SeqAssociates(a, front, [c]);
    LowerSnoc(ab, a + front, c);
    LowerSnoc(b, front, c);
    SeqAssociates(Lower(a), Lower(front), LowerChar(c));
  }

  lemma {:induction false} LowerConcat(a: string, b: string)
    ensures Lower(a + b) == Lower(a) + Lower(b)
  {
    if b == "" {
      assert a + b == a;
    } else {
      var front := b[..|b| - 1];
      LowerConcat(a, front);
      LowerConcatSnoc(a, front, b[|b| - 1], b, a + b);
    }
  }

  lemma {:induction false} EndsWithSnoc(s: string, tail: string, c: char)
    ensures EndsWith(s + [c], tail + [c]) <==> EndsWith(s, tail)
  {
    if |tail| <= |s| {
      assert (s + [c])[|s| - |tail|..] == s[|s| - |tail|..] + [c];
      assert (tail + [c])[..|tail|] == tail;
    }
  }

  lemma {:induction false} LastOfTail(s: string, tail: string, c: char)
    ensures EndsWith(s, tail + [c]) ==> s != "" && s[|s| - 1] == c
  {
    if EndsWith(s, tail + [c]) {
      assert s[|s| - |tail| - 1..][|tail|] == c;
    }
  }

  /** The three characters of ".md" come only from themselves or their ASCII capitals. */
  lemma {:induction false} LowerEndsWith(s: string, tail: string, c: char)
    requires c in {'.', 'm', 'd'}
    ensures EndsWith(Lower(s), tail + [c]) <==>
            s != "" && LowerChar(s[|s| - 1]) == [c] && EndsWith(Lower(s[..|s| - 1]), tail)
  {
    if s != "" {
      var low, more := Lower(s), LowerChar(s[|s| - 1]);
      if more == [c] {
        EndsWithSnoc(Lower(s[..|s| - 1]), tail, c);
      } else {
        assert low[|low| - 1] == more[|more| - 1] != c;
        LastOfTail(low, tail, c);
      }
    }
  }

  lemma {:induction false} LowerEndsWithOne(s: string, x: char)
    requires x in {'.', 'm', 'd'}
    ensures EndsWith(Lower(s), [x]) <==> s != "" && LowerChar(s[|s| - 1]) == [x]
  {
    assert [x] == [] + [x];
    LowerEndsWith(s, [], x);
  }

  lemma {:induction false} LowerEndsWithTwo(s: string, x: char, y: char)
    requires {x, y} <= {'.', 'm', 'd'}
    ensures var n := |s|;
            EndsWith(Lower(s), [x, y]) <==> n >= 2 && LowerChar(s[n - 2]) == [x] && LowerChar(s[n - 1]) == [y]
  {
    var n := |s|;
    assert [x, y] == [x] + [y];
    LowerEndsWith(s, [x], y);
    if n >= 1 {
      LowerEndsWithOne(s[..n - 1], x);
    }
  }

  lemma {:induction false} LowerEndsWithThree(s: string, x: char, y: char, z: char)
    requires {x, y, z} <= {'.', 'm', 'd'}
    ensures var n := |s|;
            EndsWith(Lower(s), [x, y, z]) <==>
            n >= 3 && LowerChar(s[n - 3]) == [x] && LowerChar(s[n - 2]) == [y] && LowerChar(s[n - 1]) == [z]
  {
    var xy := [x, y];
    assert [x, y, z] == xy + [z];
    LowerEndsWith(s, xy, z);
    if s != "" {
      var s1 := s[..|s| - 1];
      LowerEndsWithTwo(s1, x, y);
      assert EndsWith(Lower(s), xy + [z]) == (LowerChar(s[|s| - 1]) == [z] && EndsWith(Lower(s1), xy));
      assert |s| >= 3 ==> s1[|s1| - 2] == s[|s| - 3] && s1[|s1| - 1] == s[|s| - 2];
    }
  }

  /** Lower-casing first never makes another string end in ".md". */
  lemma {:induction false} EndsMdExactly(s: string)
    ensures var n := |s|;
            EndsMd(s) <==> n >= 3 && s[n - 3] == '.' && s[n - 2] in {'m', 'M'} && s[n - 1] in {'d', 'D'}
  {
    assert ".md" == ['.', 'm', 'd'];
    LowerEndsWithThree(s, '.', 'm', 'd');
  }

  lemma {:induction false} SubstituteConcat(a: string, b: string)
    ensures Substitute(a + b) == Substitute(a) + Substitute(b)
  {}

  /** The characters the passes leave alone. */
  predicate Plain(s: string) {
    forall i :: 0 <= i < |s| ==> PlainChar(s[i])
  }

  predicate PlainChar(c: char) {
    'a' <= c <= 'z' || '0' <= c <= '9' || c in {'_', '.', '/', '-'}
  }

  lemma {:induction false} LowerKeepsPlain(c: char)
    requires PlainChar(c)
    ensures LowerChar(c) == [c]
  {}

  lemma {:induction false} LowerFixesLast(rest: string, last: char, s: string)
    requires s == rest + [last] && PlainChar(last) && Lower(rest) == rest
    ensures Lower(s) == s
  {
    LowerKeepsPlain(last);
    LowerSnoc(s, rest, last);
  }

  lemma {:induction false} LowerFixesPlain(s: string)
    requires Plain(s)
    ensures Lower(s) == s
  {
    if s != "" {
      var rest, last := s[..|s| - 1], s[|s| - 1];
      LowerFixesPlain(rest);
      LowerFixesLast(rest, last, s);
    }
  }

  lemma {:induction false} SubstituteFixesPlain(s: string)
    requires Plain(s)
    ensures Substitute(s) == s
  {
    forall i | 0 <= i < |s| ensures Substitute(s)[i] == s[i] {
      assert Allowed(s[i]);
    }
  }

  lemma {:induction false} ToSlashFixesPlain(s: string)
    requires Plain(s)
    ensures ToSlash(s) == s
  {
    forall i | 0 <= i < |s| ensures ToSlash(s)[i] == s[i] {
      assert Allowed(s[i]);
    }
  }

  lemma {:induction false} LowerOfPlain(s: string)
    requires Plain(s)
    ensures Lower(s) == s && Substitute(s) == s && ToSlash(s) == s
  {
    LowerFixesPlain(s);
    SubstituteFixesPlain(s);
    ToSlashFixesPlain(s);
  }

  lemma {:induction false} LowerHasNoCapitals(s: string)
    ensures Plain(Substitute(Lower(s)))
  {
    if s != "" {
      LowerHasNoCapitals(s[..|s| - 1]);
      SubstituteConcat(Lower(s[..|s| - 1]), LowerChar(s[|s| - 1]));
    }
  }

  // ---------------------------------------------------------------- segments

  lemma {:induction false} SplitKeepsCharacters(s: string)
    requires Plain(s)
    ensures SlashFree(Split(s)) && forall p :: p in Split(s) ==> Plain(p)
  {
    if s != "" {
      SplitKeepsCharacters(s[1..]);
      var rest := Split(s[1..]);
      assert rest[0] in rest;
    }
  }

  function Dashed(parts: seq<string>): (r: seq<string>)
    ensures |r| == |parts|
  {
    seq(|parts|, i requires 0 <= i < |parts| => Collapse(parts[i], '-'))
  }

  lemma {:induction false} CollapseStep(c: char, s: string, run: char)
    ensures Collapse([c] + s, run) == if s != "" && c == run
        && s[0] == run then Collapse(s, run) else [c] + Collapse(s, run)
  {
    assert ([c] + s)[1..] == s;
    if s == "" {
      assert [c] + s == [c];
    }
  }

  /** A character in front of a text goes in front of its first segment. */
  lemma {:induction false} DashedStep(c: char, parts: seq<string>)
    requires parts != [] && c != '/'
    ensures Dashed(Prepend(c, parts)) == [Collapse([c] + parts[0], '-')] + Dashed(parts)[1..]
    ensures Dashed(parts)[0] == Collapse(parts[0], '-')
  {}

  /** Collapsing dashes works segment by segment. */
  lemma {:induction false} CollapseDashInSegments(s: string)
    ensures Split(Collapse(s, '-')) == Dashed(Split(s))
  {
    if s != "" {
      var c, rest := s[0], s[1..];
      var parts := Split(rest);
      CollapseDashInSegments(rest);
      if rest != "" {
        FirstOfSplit(rest);
      }
      assert s == [c] + rest;
      CollapseStep(c, rest, '-');
      if c != '/' {
        DashedStep(c, parts);
        CollapseStep(c, parts[0], '-');
      }
      if !(rest != "" && c == '-' && rest[0] == '-') {
        SplitCons(c, Collapse(rest, '-'));
      }
    }
  }

  lemma {:induction false} SplitCons(c: char, s: string)
    ensures Split([c] + s) == Prepend(c, Split(s))
  {
    assert ([c] + s)[1..] == s;
  }

  /** Collapsing slashes only removes empty segments. */
  lemma {:induction false} CollapseSlashDropsEmpties(s: string)
    ensures var a, b := Split(Collapse(s, '/')), Split(s);
            a[0] == b[0] && Kept(a[1..]) == Kept(b[1..])
  {
    if |s| >= 2 {
      var c, rest := Collapse(s[1..], '/'), Split(s[1..]);
      CollapseSlashDropsEmpties(s[1..]);
      FirstOfSplit(s[1..]);
      if s[0] == '/' && s[1] == '/' {
        assert Kept(rest) == Kept(rest[1..]);
        assert Split(s)[1..] == rest;
      } else {
        assert ([s[0]] + c)[1..] == c;
        assert Split(s)[1..] == if s[0] == '/' then rest else rest[1..];
        var d := Split(c);
        assert Split([s[0]] + c)[1..] == if s[0] == '/' then d else d[1..];
        assert Kept(d) == Kept(rest);
      }
    }
  }

  /** So all the passes amount to cleaning each segment on its own. */
  lemma {:induction false} SegmentsByPart(s: string)
    ensures Segments(s) == Kept(Dashed(Split(Substitute(Lower(s)))))
  {
    var t := Substitute(Lower(s));
    CollapseDashInSegments(t);
    CollapseSlashDropsEmpties(Collapse(t, '-'));
  }

  lemma {:induction false} KeptConcat(a: seq<string>, b: seq<string>)
    ensures Kept(a + b) == Kept(a) + Kept(b)
  {
    if a == [] {
      assert a + b == b;
    } else {
      KeptConcat(a[1..], b);
      assert (a + b)[0] == a[0] && (a + b)[1..] == a[1..] + b;
      var first := if Strip(a[0]) == "" then [] else [Strip(a[0])];
      assert first + (Kept(a[1..]) + Kept(b)) == (first + Kept(a[1..])) + Kept(b);
    }
  }

  // ---------------------------------------------------------------- canonical slugs

  predicate GoodSegment(p: string) {
    && p != "" && Plain(p) && '/' !in p
    && p[0] !in {'-', '.'} && p[|p| - 1] !in {'-', '.'}
    && forall i :: 0 <= i < |p| - 1 ==> !(p[i] == '-' && p[i + 1] == '-')
  }

  /** Lower-case segments of [a-z0-9_.-] joined by single slashes, none empty, none starting or ending
      with a dash or dot, none with two dashes in a row. */
  predicate Canonical(y: string) {
    y == "" || forall p :: p in Split(y) ==> GoodSegment(p)
  }

  lemma {:induction false} CollapseDashResult(p: string)
    requires Plain(p) && '/' !in p
    ensures var q := Collapse(p, '-');
            && Plain(q) && '/' !in q
            && (forall i :: 0 <= i < |q| - 1 ==> !(q[i] == '-' && q[i + 1] == '-'))
            && (p != "" ==> q != "" && q[0] == p[0])
  {
    if |p| >= 2 { CollapseDashResult(p[1..]); }
  }

  ghost predicate NoDashRun(q: string) {
    Plain(q) && '/' !in q && forall i :: 0 <= i < |q| - 1 ==> !(q[i] == '-' && q[i + 1] == '-')
  }

  lemma {:induction false} StripLeftResult(q: string)
    requires NoDashRun(q)
    ensures NoDashRun(StripLeft(q)) && (StripLeft(q) != "" ==> !Strippable(StripLeft(q)[0]))
  {
    if q != "" && Strippable(q[0]) { StripLeftResult(q[1..]); }
  }

  lemma {:induction false} StripRightResult(q: string)
    requires NoDashRun(q) && (q != "" ==> !Strippable(q[0]))
    ensures StripRight(q) == "" || GoodSegment(StripRight(q))
  {
    if q != "" && Strippable(q[|q| - 1]) { StripRightResult(q[..|q| - 1]); }
  }

  lemma {:induction false} KeptAreGood(parts: seq<string>)
    requires forall p :: p in parts ==> Plain(p) && '/' !in p
    ensures forall p :: p in Kept(Dashed(parts)) ==> GoodSegment(p)
  {
    if parts != [] {
      CollapseDashResult(parts[0]);
      var q := Collapse(parts[0], '-');
      StripLeftResult(q);
      StripRightResult(StripLeft(q));
      assert Dashed(parts)[1..] == Dashed(parts[1..]);
      KeptAreGood(parts[1..]);
    }
  }

  lemma {:induction false} SegmentsAreGood(s: string)
    ensures forall p :: p in Segments(s) ==> GoodSegment(p)
  {
    LowerHasNoCapitals(s);
    SplitKeepsCharacters(Substitute(Lower(s)));
    KeptAreGood(Split(Substitute(Lower(s))));
    SegmentsByPart(s);
  }

  lemma {:induction false} OutputIsCanonical(raw: string)
    ensures Canonical(NormalizedOne(raw))
  {
    var parts := Segments(StripMd(ToSlash(raw)));
    SegmentsAreGood(StripMd(ToSlash(raw)));
    if parts != [] { SplitOfJoin(parts); }
  }

  lemma {:induction false} CollapseOfGood(p: string)
    requires forall i :: 0 <= i < |p| - 1 ==> !(p[i] == '-' && p[i + 1] == '-')
    ensures Collapse(p, '-') == p
  {
    if |p| >= 2 { CollapseOfGood(p[1..]); }
  }

  lemma {:induction false} KeptOfGood(parts: seq<string>)
    requires forall p :: p in parts ==> GoodSegment(p)
    ensures Kept(Dashed(parts)) == parts
  {
    if parts != [] {
      assert parts[0] in parts;
      CollapseOfGood(parts[0]);
      assert Dashed(parts)[1..] == Dashed(parts[1..]);
      KeptOfGood(parts[1..]);
    }
  }

  lemma {:induction false} CanonicalIsPlain(y: string)
    requires Canonical(y)
    ensures Plain(y)
  {
    if y != "" {
      PlainParts(y);
    }
  }

  lemma {:induction false} PlainParts(y: string)
    requires forall p :: p in Split(y) ==> Plain(p)
    ensures Plain(y)
  {
    if y != "" {
      var rest := Split(y[1..]);
      forall p | p in rest ensures Plain(p) {
        if y[0] == '/' {
          assert p in Split(y);
        } else {
          var first := Split(y)[0];
          assert first in Split(y) && first[1..] == rest[0];
          if p != rest[0] {
            assert p in rest[1..] && p in Split(y);
          }
        }
      }
      PlainParts(y[1..]);
      if y[0] != '/' {
        assert Split(y)[0] in Split(y) && Split(y)[0][0] == y[0];
      }
    }
  }

  /** On a canonical slug without an extension to strip, the passes change nothing. */
  lemma {:induction false} CleaningCanonical(y: string)
    requires Canonical(y)
    ensures Join(Segments(y)) == y
  {
    CanonicalIsPlain(y);
    LowerOfPlain(y);
    SegmentsByPart(y);
    if y == "" {
      assert Dashed([""]) == [""];
    } else {
      KeptOfGood(Split(y));
      JoinOfSplit(y);
    }
  }

  lemma {:induction false} AddMd(y: string)
    requires Plain(y)
    ensures ToSlash(y + ".md") == y + ".md" && StripMd(y + ".md") == y
  {
    var s := y + ".md";
    LowerOfPlain(s);
    assert EndsWith(s, ".md");
  }

  /** Appending ".md" to a canonical slug and normalising gives the slug back. */
  lemma {:induction false} RoundTrip(y: string)
    requires Canonical(y)
    ensures NormalizedOne(y + ".md") == y
  {
    CanonicalIsPlain(y);
    AddMd(y);
    CleaningCanonical(y);
  }

  /** The normaliser's range: its outputs are exactly the canonical slugs. */
  lemma {:induction false} NormalizerRange(y: string)
    ensures (exists raw :: NormalizedOne(raw) == y) <==> Canonical(y)
  {
    if Canonical(y) {
      RoundTrip(y);
    }
    if raw :| NormalizedOne(raw) == y {
      OutputIsCanonical(raw);
    }
  }

  // ---------------------------------------------------------------- fixed points

  lemma {:induction false} KeptLength(parts: seq<string>)
    ensures Weight(Kept(parts)) <= Weight(parts)
  {
    if parts != [] {
      var rest := Kept(parts[1..]);
      KeptLength(parts[1..]);
      assert ([Strip(parts[0])] + rest)[1..] == rest && [] + rest == rest;
    }
  }

  /** Length of the joined segments, counting one separator after each. */
  function Weight(parts: seq<string>): nat {
    if parts == [] then 0 else |parts[0]| + 1 + Weight(parts[1..])
  }

  lemma {:induction false} JoinLength(parts: seq<string>)
    ensures |Join(parts)| == if parts == [] then 0 else Weight(parts) - 1
  {
    if |parts| > 1 { JoinLength(parts[1..]); }
  }

  lemma {:induction false} CleaningShortens(s: string)
    requires Plain(s)
    ensures |Join(Segments(s))| <= |s|
  {
    LowerOfPlain(s);
    var t := Collapse(Collapse(s, '-'), '/');
    KeptLength(Split(t));
    JoinLength(Kept(Split(t)));
    JoinLength(Split(t));
    JoinOfSplit(t);
  }

  /** A normaliser output is a fixed point exactly when it does not end in ".md"; so the normaliser
      is idempotent on an input exactly when its first result does not end so. */
  lemma {:induction false} IdempotentExactly(raw: string)
    ensures var y := NormalizedOne(raw);
            NormalizedOne(y) == y <==> !EndsWith(y, ".md")
  {
    var y := NormalizedOne(raw);
    OutputIsCanonical(raw);
    CanonicalIsPlain(y);
    LowerOfPlain(y);
    if EndsWith(y, ".md") {
      CleaningShortens(y[..|y| - 3]);
    } else {
      CleaningCanonical(y);
    }
  }

  // ---------------------------------------------------------------- prefixes

  lemma {:induction false} JoinConcat(a: seq<string>, b: seq<string>)
    requires forall p :: p in a || p in b ==> p != ""
    ensures Join(a + b) == Glued(Join(a), Join(b))
  {
    JoinLength(a);
    JoinLength(b);
    assert a != [] ==> a[0] in a;
    assert b != [] ==> b[0] in b;
    if a == [] {
      assert a + b == b;
    } else if b == [] {
      assert a + b == a;
    } else {
      JoinAppend(a, b);
    }
  }

  lemma {:induction false} SubstitutedConcat(a: string, b: string)
    ensures Substitute(Lower(a + b)) == Substitute(Lower(a)) + Substitute(Lower(b))
  {
    LowerConcat(a, b);
    SubstituteConcat(Lower(a), Lower(b));
  }

  lemma {:induction false} SubstitutedAtSlash(a: string, b: string)
    ensures Substitute(Lower(a + "/" + b)) == Substitute(Lower(a)) + "/" + Substitute(Lower(b))
  {
    var slash := "/";
    SubstitutedConcat(a + slash, b);
    SubstitutedConcat(a, slash);
    LowerOfPlain(slash);
  }

  lemma {:induction false} SegmentsAtSlash(a: string, b: string)
    ensures Segments(a + "/" + b) == Segments(a) + Segments(b)
  {
    SubstitutedAtSlash(a, b);
    CleanedAtSlash(Substitute(Lower(a)), Substitute(Lower(b)));
    SegmentsByPart(a + "/" + b);
    SegmentsByPart(a);
    SegmentsByPart(b);
  }

  lemma {:induction false} CleanedAtSlash(x: string, y: string)
    ensures Kept(Dashed(Split(x + "/" + y))) == Kept(Dashed(Split(x))) + Kept(Dashed(Split(y)))
  {
    SplitAtSlash(x, y);
    DashedConcat(Split(x), Split(y));
    KeptConcat(Dashed(Split(x)), Dashed(Split(y)));
  }

  lemma {:induction false} DashedConcat(a: seq<string>, b: seq<string>)
    ensures Dashed(a + b) == Dashed(a) + Dashed(b)
  {}

  lemma {:induction false} SegmentsAreNonempty(s: string)
    ensures forall p :: p in Segments(s) ==> p != ""
  {
    SegmentsAreGood(s);
  }

  /** Joining raw paths, with the extension of the second stripped, joins the cleaned segments. */
  lemma {:induction false} JoinedPath(prefix: string, path: string)
    ensures NormalizedOne(prefix + "/" + path) ==
            Join(Segments(ToSlash(prefix)) + Segments(StripMd(ToSlash(path))))
  {
    var a, b, s := ToSlash(prefix), ToSlash(path), ToSlash(prefix + "/" + path);
    assert s == a + "/" + b;
    EndsMdExactly(s);
    EndsMdExactly(b);
    assert StripMd(s) == a + "/" + StripMd(b);
    SegmentsAtSlash(a, StripMd(b));
  }

  lemma {:induction false} SegmentsGlued(p: string, q: string)
    ensures Join(Segments(p) + Segments(q)) == Glued(Join(Segments(p)), Join(Segments(q)))
  {
    SegmentsAreNonempty(p);
    SegmentsAreNonempty(q);
    JoinConcat(Segments(p), Segments(q));
  }

  lemma {:induction false} NormalizedIsJoin(path: string, prefix: string)
    requires prefix != ""
    ensures Normalized(path, Some(prefix))
        == Join(Segments(StripMd(ToSlash(prefix))) + Segments(StripMd(ToSlash(path))))
  {
    SegmentsGlued(StripMd(ToSlash(prefix)), StripMd(ToSlash(path)));
  }

  /** An extension is not lost from a segment: what remains is strictly longer than without it. */
  lemma {:induction false} ExtensionLengthens(q: string, tail: string)
    requires |tail| == 3 && EndsMd(tail)
    ensures Weight(Segments(q + tail)) > Weight(Segments(q))
  {
    EndsMdExactly(tail);
    LowerConcat(q, tail);
    LowerIsLong(tail);
    assert Lower(tail) == ".md";
    SubstituteConcat(Lower(q), ".md");
    LowerOfPlain(".md");
    SegmentsByPart(q);
    SegmentsByPart(q + tail);
    LongerLastSegment(Substitute(Lower(q)));
  }

  lemma {:induction false} LowerIsLong(s: string)
    requires |s| == 3 && LowerChar(s[0]) == "." && |LowerChar(s[1])| == 1 && |LowerChar(s[2])| == 1
    ensures Lower(s) == "." + LowerChar(s[1]) + LowerChar(s[2])
  {
    assert s[..2][..1] == [s[0]];
    assert Lower([s[0]]) == "." by { assert [s[0]][..0] == ""; }
    assert Lower(s[..2]) == "." + LowerChar(s[1]);
  }

  lemma {:induction false} LongerLastSegment(t: string)
    ensures Weight(Kept(Dashed(Split(t + ".md")))) > Weight(Kept(Dashed(Split(t))))
  {
    if '/' !in t {
      SplitOfPart(t);
      SplitOfPart(t + ".md");
      LongerSegment(t);
      assert Dashed([t]) == [Collapse(t, '-')] && Dashed([t + ".md"]) == [Collapse(t + ".md", '-')];
    } else {
      var k :| 0 <= k < |t| && t[k] == '/';
      var a, b := t[..k], t[k + 1..];
      assert t == a + "/" + b && t + ".md" == a + "/" + (b + ".md");
      SplitAtSlash(a, b);
      SplitAtSlash(a, b + ".md");
      LongerLastSegment(b);
      DashedKeptConcat(Split(a), Split(b));
      DashedKeptConcat(Split(a), Split(b + ".md"));
    }
  }

  lemma {:induction false} DashedKeptConcat(a: seq<string>, b: seq<string>)
    ensures Weight(Kept(Dashed(a + b))) == Weight(Kept(Dashed(a))) + Weight(Kept(Dashed(b)))
  {
    assert Dashed(a + b) == Dashed(a) + Dashed(b);
    KeptConcat(Dashed(a), Dashed(b));
    WeightConcat(Kept(Dashed(a)), Kept(Dashed(b)));
  }

  lemma {:induction false} WeightConcat(a: seq<string>, b: seq<string>)
    ensures Weight(a + b) == Weight(a) + Weight(b)
  {
    if a == [] {
      assert a + b == b;
    } else {
      WeightConcat(a[1..], b);
      assert (a + b)[1..] == a[1..] + b;
    }
  }

  lemma {:induction false} LongerSegment(z: string)
    ensures |Strip(Collapse(z + ".md", '-'))| > |Strip(Collapse(z, '-'))|
    ensures Strip(Collapse(z + ".md", '-')) != ""
  {
    CollapseOfGood(".md");
    CollapseThen(z, ".md", z + ".md");
    StripThenMd(Collapse(z, '-'));
  }

  lemma {:induction false} CollapseThen(z: string, tail: string, w: string)
    requires w == z + tail && tail != "" && tail[0] != '-' && Collapse(tail, '-') == tail
    ensures Collapse(w, '-') == Collapse(z, '-') + tail
  {
    if z == "" {
      assert w == tail;
    } else if |z| == 1 {
      assert w[1..] == tail && w == z + w[1..];
    } else {
      assert w[1..] == z[1..] + tail;
      CollapseThen(z[1..], tail, w[1..]);
      assert w[0] == z[0] && w[1] == z[1];
    }
  }

  lemma {:induction false} StripThenMd(w: string)
    ensures |Strip(w + ".md")| > |Strip(w)|
  {
    StripLeftThenMd(w);
    var v := StripLeft(w + ".md");
    assert StripRight(v) == v;
  }

  lemma {:induction false} StripLeftThenMd(w: string)
    ensures var v := StripLeft(w + ".md"); |v| >= 2 && v[|v| - 1] == 'd' && |v| > |StripLeft(w)|
  {
    if w != "" && Strippable(w[0]) {
      StripLeftThenMd(w[1..]);
      assert (w + ".md")[1..] == w[1..] + ".md";
    } else if w == "" {
      assert w + ".md" == ".md" && ".md"[1..] == "md";
    }
  }

  lemma {:induction false} LostExtensionShows(a: string, b: seq<string>)
    requires EndsMd(a)
    ensures Join(Segments(a) + b) != Join(Segments(StripMd(a)) + b)
  {
    EndsMdExactly(a);
    var q, tail := a[..|a| - 3], a[|a| - 3..];
    EndsMdExactly(tail);
    assert a == q + tail && StripMd(a) == q;
    ExtensionLengthens(q, tail);
    WeightConcat(Segments(a), b);
    WeightConcat(Segments(q), b);
    JoinLength(Segments(a) + b);
    JoinLength(Segments(q) + b);
    SegmentsAreNonempty(a);
    assert Segments(a)[0] in Segments(a);
  }

  lemma {:induction false} EmptyHasNoSegments()
    ensures Segments("") == []
  {
    SegmentsByPart("");
    assert Dashed([""]) == [""];
    assert Kept([""]) == [] + Kept([]);
  }

  /** Normalising under a prefix is normalising the joined path, exactly when the prefix does not
      itself end in an ".md" that would be stripped from it. */
  lemma {:induction false} PrefixIsJoinExactly(path: string, prefix: string)
    ensures Normalized(path, Some(prefix)) == NormalizedOne(prefix + "/" + path) <==> !EndsMd(ToSlash(prefix))
  {
    var a, b := ToSlash(prefix), Segments(StripMd(ToSlash(path)));
    JoinedPath(prefix, path);
    if prefix == "" {
      EmptyHasNoSegments();
      assert Segments(a) + b == b;
      EndsMdExactly(a);
    } else {
      NormalizedIsJoin(path, prefix);
      if EndsMd(a) {
        LostExtensionShows(a, b);
      }
    }
  }

  // ---------------------------------------------------------------- safety

  lemma {:induction false} FirstCharacter(y: string)
    requires Canonical(y) && y != ""
    ensures Split(y)[0] in Split(y) && Split(y)[0] != "" && Split(y)[0][0] == y[0] && Alnum(y[0]) == (y[0] != '_')
  {
    var first := Split(y)[0];
    assert first in Split(y);
    FirstOfSplit(y);
  }

  /** A normalised slug is safe exactly when it is non-empty, at most 255 long and does not start
      with an underscore; in particular no traversal segment survives normalisation. */
  lemma {:induction false} NormalizedSlugIsSafeExactly(raw: string)
    ensures var y := NormalizedOne(raw);
            IsSafeSlug(y) <==> y != "" && |y| <= 255 && y[0] != '_'
  {
    var y := NormalizedOne(raw);
    OutputIsCanonical(raw);
    CanonicalIsPlain(y);
    if y != "" {
      FirstCharacter(y);
      forall part | part in Split(y) ensures part !in {"", ".", ".."} {
        assert GoodSegment(part);
      }
    }
  }
}
