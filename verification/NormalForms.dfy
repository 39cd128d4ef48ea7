/**
 * What the normaliser computes, said without its passes: a slug is what is left of a path when no rewriting rule
 * applies any more. The rules replace a character outside the slug alphabet, shorten a run of dashes or slashes,
 * and drop a dash or dot at either end of a segment or a slash at either end of the path.
 */
module NormalForms {
  import opened Common
  import opened Text
  import opened Slugs

  // ---------------------------------------------------------------- the rules

  /** What one character becomes. KELVIN SIGN lower-cases to "k", I WITH DOT ABOVE to "i" and a combining dot. */
  function Becomes(c: char): string {
    if 'a' <= c <= 'z' || '0' <= c <= '9' || c in {'_', '.', '/', '-'} then [c]
    else if 'A' <= c <= 'Z' then [c - 'A' + 'a']
    else if c == '\\' then "/"
    else if c == '\U{212A}' then "k"
    else if c == '\U{0130}' then "i-"
    else "-"
  }

  const DOUBLE_SLASH: string := ['/', '/']

  predicate SegmentStarts(a: string) {
    a == "" || a[|a| - 1] == '/'
  }

  predicate SegmentEnds(b: string) {
    b == "" || b[0] == '/'
  }

  /** Between a and b, the text l may be replaced by r. */
  predicate Rule(a: string, l: string, r: string, b: string) {
    || (|l| == 1 && r == Becomes(l[0]))
    || (l == "--" && r == "-")
    || (l == DOUBLE_SLASH && r == "/")
    || (l in {"-", "."} && r == "" && (SegmentStarts(a) || SegmentEnds(b)))
    || (l == "/" && r == "" && (a == "" || b == ""))
  }

  ghost predicate RewritesAt(x: string, y: string, a: string, l: string, r: string, b: string) {
    x == a + l + b && y == a + r + b && Rule(a, l, r, b)
  }

  ghost predicate RewritesOnce(x: string, y: string) {
    exists a, l, r, b :: RewritesAt(x, y, a, l, r, b)
  }

  /** x becomes y in some number of steps. */
  ghost predicate Chain(p: seq<string>) {
    p != [] && forall i :: 0 <= i < |p| - 1 ==> RewritesOnce(p[i], p[i + 1])
  }

  ghost predicate Rewrites(x: string, y: string) {
    exists p :: Chain(p) && p[0] == x && p[|p| - 1] == y
  }

  /** The path without one ".md" extension, in any letter case. */
  function Stem(raw: string): string {
    var n := |raw|;
    if n >= 3 && raw[n - 3] == '.' && raw[n - 2] in {'m', 'M'} && raw[n - 1] in {'d', 'D'} then raw[..n - 3] else raw
  }

  /** The slug of a stem: all passes but the first two. */
  function Slug(stem: string): string {
    Join(Segments(ToSlash(stem)))
  }

  lemma {:induction false} StemDecides(raw: string)
    ensures NormalizedOne(raw) == Slug(Stem(raw))
  {
    StemSegments(raw);
  }

  // ---------------------------------------------------------------- each rule keeps the slug

  lemma {:induction false} ToSlashConcat(a: string, b: string)
    ensures ToSlash(a + b) == ToSlash(a) + ToSlash(b)
  {}

  lemma {:induction false} ToSlashThree(a: string, l: string, b: string)
    ensures ToSlash(a + l + b) == ToSlash(a) + ToSlash(l) + ToSlash(b)
  {
    ToSlashConcat(a + l, b);
    ToSlashConcat(a, l);
  }

  function Clean(s: string): string {
    Substitute(Lower(s))
  }

  lemma {:induction false} CleanThree(a: string, l: string, b: string)
    ensures Clean(a + l + b) == Clean(a) + Clean(l) + Clean(b)
  {
    SubstitutedConcat(a + l, b);
    SubstitutedConcat(a, l);
  }

  lemma {:induction false} CleanOfCharacter(c: char)
    ensures Clean([c]) == Substitute(LowerChar(c))
  {
    LowerSnoc([c], "", c);
  }

  lemma {:induction false} CleanOfPlain(s: string)
    requires Plain(s)
    ensures Clean(s) == s && ToSlash(s) == s
  {
    LowerOfPlain(s);
  }

  lemma {:induction false} BecomesPlain(c: char)
    ensures Plain(Becomes(c)) && (Becomes(c) == [c] <==> PlainChar(c))
  {}

  lemma {:induction false} CharacterIsCleaned(c: char)
    ensures Clean(ToSlash([c])) == Clean(ToSlash(Becomes(c)))
  {
    BecomesPlain(c);
    CleanOfPlain(Becomes(c));
    if c == '\\' {
      CleanOfPlain("/");
      assert ToSlash([c]) == "/";
    } else {
      assert ToSlash([c]) == [c];
      CleanOfCharacter(c);
      CharacterBecomes(c);
    }
  }

  lemma {:induction false} CharacterBecomes(c: char)
    requires SlashChar(c) == c
    ensures Substitute(LowerChar(c)) == Becomes(c)
  {
    if c == '\U{0130}' {
      assert Substitute("i\U{0307}") == "i-";
    }
  }

  lemma {:induction false} CleanDecides(x: string, y: string)
    requires Clean(ToSlash(x)) == Clean(ToSlash(y))
    ensures Slug(x) == Slug(y)
  {}

  lemma {:induction false} CharacterKeepsSlug(a: string, c: char, b: string)
    ensures Slug(a + [c] + b) == Slug(a + Becomes(c) + b)
  {
    var r := Becomes(c);
    ToSlashThree(a, [c], b);
    ToSlashThree(a, r, b);
    CleanThree(ToSlash(a), ToSlash([c]), ToSlash(b));
    CleanThree(ToSlash(a), ToSlash(r), ToSlash(b));
    CharacterIsCleaned(c);
    CleanDecides(a + [c] + b, a + r + b);
  }

  lemma {:induction false} CollapseRun(x: string, c: char, y: string, long: string, short: string)
    requires long == x + [c, c] + y && short == x + [c] + y
    ensures Collapse(long, c) == Collapse(short, c)
  {
    if x == "" {
      assert long == [c] + short && long[1..] == short;
    } else {
      CollapseRun(x[1..], c, y, long[1..], short[1..]);
      assert long == [x[0]] + long[1..] && short == [x[0]] + short[1..];
      assert long[1] == short[1] by {
        if |x| == 1 { assert long[1] == c == short[1]; } else { assert long[1] == x[1] == short[1]; }
      }
    }
  }

  lemma {:induction false} DashRunKeepsSlug(a: string, b: string)
    ensures Slug(a + "--" + b) == Slug(a + "-" + b)
  {
    var u, v := ToSlash(a), ToSlash(b);
    ToSlashThree(a, "--", b);
    ToSlashThree(a, "-", b);
    CleanOfPlain("--");
    CleanOfPlain("-");
    CleanThree(u, "--", v);
    CleanThree(u, "-", v);
    CollapseRun(Clean(u), '-', Clean(v), Clean(u + "--" + v), Clean(u + "-" + v));
  }

  lemma {:induction false} SlashAtStart(v: string)
    ensures Segments("/" + v) == Segments(v)
  {
    EmptyHasNoSegments();
    SegmentsAtSlash("", v);
    assert "" + "/" + v == "/" + v;
    assert [] + Segments(v) == Segments(v);
  }

  lemma {:induction false} SlashAtEnd(u: string)
    ensures Segments(u + "/") == Segments(u)
  {
    EmptyHasNoSegments();
    SegmentsAtSlash(u, "");
    assert u + "/" + "" == u + "/";
    assert Segments(u) + [] == Segments(u);
  }

  lemma {:induction false} SlashRun(u: string, v: string, rest: string)
    requires rest == "/" + v
    ensures Segments(u + "/" + rest) == Segments(u + "/" + v)
  {
    SlashAtStart(v);
    SegmentsAtSlash(u, rest);
    SegmentsAtSlash(u, v);
  }

  lemma {:induction false} SlashesKeepSegments(u: string, v: string)
    ensures Segments(u + DOUBLE_SLASH + v) == Segments(u + "/" + v)
  {
    var slash := "/";
    SlashRun(u, v, slash + v);
    assert DOUBLE_SLASH == slash + slash;
    SeqAssociates(u, slash, slash);
    SeqAssociates(u + slash, slash, v);
  }

  lemma {:induction false} SlashesKeepSlug(a: string, b: string)
    ensures Slug(a + DOUBLE_SLASH + b) == Slug(a + "/" + b)
    ensures Slug("/" + b) == Slug(b) && Slug(a + "/") == Slug(a)
  {
    ToSlashThree(a, DOUBLE_SLASH, b);
    ToSlashThree(a, "/", b);
    ToSlashConcat("/", b);
    ToSlashConcat(a, "/");
    assert ToSlash("/") == "/" && ToSlash(DOUBLE_SLASH) == DOUBLE_SLASH;
    SlashesKeepSegments(ToSlash(a), ToSlash(b));
    SlashAtStart(ToSlash(b));
    SlashAtEnd(ToSlash(a));
  }

  // ---------------------------------------------------------------- the ends of a segment

  lemma {:induction false} StripDropsFirst(c: char, q: string)
    requires c in {'-', '.'}
    ensures Strip([c] + q) == Strip(q)
  {
    assert ([c] + q)[1..] == q;
  }

  lemma {:induction false} CollapsedFirst(c: char, p: string)
    requires c in {'-', '.'}
    ensures Strip(Collapse([c] + p, '-')) == Strip(Collapse(p, '-'))
  {
    CollapseStep(c, p, '-');
    if !(p != "" && c == '-' && p[0] == '-') {
      StripDropsFirst(c, Collapse(p, '-'));
    }
  }

  lemma {:induction false} KeptFirst(x: string, y: string, rest: seq<string>)
    requires Strip(x) == Strip(y)
    ensures Kept([x] + rest) == Kept([y] + rest)
  {
    assert ([x] + rest)[1..] == rest && ([y] + rest)[1..] == rest;
  }

  lemma {:induction false} FirstMarkIsDropped(c: char, t: string)
    requires c in {'-', '.'}
    ensures Kept(Dashed(Split([c] + t))) == Kept(Dashed(Split(t)))
  {
    var parts := Split(t);
    SplitCons(c, t);
    DashedStep(c, parts);
    CollapsedFirst(c, parts[0]);
    var rest := Dashed(parts)[1..];
    assert Dashed(parts) == [Collapse(parts[0], '-')] + rest;
    KeptFirst(Collapse([c] + parts[0], '-'), Collapse(parts[0], '-'), rest);
  }

  lemma {:induction false} StripLeftAppend(q: string, c: char)
    requires c in {'-', '.'}
    ensures StripLeft(q + [c]) == if StripLeft(q) == "" then "" else StripLeft(q) + [c]
  {
    if q == "" {
      assert q + [c] == [c] && [c][1..] == "";
    } else if Strippable(q[0]) {
      assert (q + [c])[1..] == q[1..] + [c];
      StripLeftAppend(q[1..], c);
    }
  }

  lemma {:induction false} StripDropsLast(q: string, c: char)
    requires c in {'-', '.'}
    ensures Strip(q + [c]) == Strip(q)
  {
    StripLeftAppend(q, c);
    var l := StripLeft(q);
    if l != "" {
      assert (l + [c])[..|l|] == l;
    }
  }

  lemma {:induction false} CollapseSnoc(p: string, c: char)
    ensures Collapse(p + [c], '-') == Collapse(p, '-') + [c]
         || (c == '-' && Collapse(p + [c], '-') == Collapse(p, '-'))
  {
    if p == "" {
      assert p + [c] == [c];
    } else {
      var s := p + [c];
      assert s[1..] == p[1..] + [c];
      CollapseSnoc(p[1..], c);
      if |p| == 1 {
        assert s == [p[0], c] && p[1..] == "" && s[1..] == [c];
      } else {
        assert s[1] == p[1];
      }
    }
  }

  lemma {:induction false} CollapsedLast(p: string, c: char)
    requires c in {'-', '.'}
    ensures Strip(Collapse(p + [c], '-')) == Strip(Collapse(p, '-'))
  {
    CollapseSnoc(p, c);
    StripDropsLast(Collapse(p, '-'), c);
  }

  lemma {:induction false} LastMarkIsDropped(t: string, c: char)
    requires c in {'-', '.'}
    ensures Kept(Dashed(Split(t + [c]))) == Kept(Dashed(Split(t)))
  {
    var parts := Split(t);
    var front, last := parts[..|parts| - 1], parts[|parts| - 1];
    SplitWithTail(t, [c]);
    CollapsedLast(last, c);
    assert parts == front + [last];
    DashedConcat(front, [last]);
    DashedConcat(front, [last + [c]]);
    KeptConcat(Dashed(front), Dashed([last]));
    KeptConcat(Dashed(front), Dashed([last + [c]]));
    KeptFirst(Collapse(last + [c], '-'), Collapse(last, '-'), []);
    assert Dashed([last]) == [Collapse(last, '-')] + [] && Dashed([last + [c]]) == [Collapse(last + [c], '-')] + [];
  }

  lemma {:induction false} MarkKeepsSegments(c: char, v: string)
    requires c in {'-', '.'}
    ensures Segments([c] + v) == Segments(v) && Segments(v + [c]) == Segments(v)
  {
    CleanOfPlain([c]);
    SubstitutedConcat([c], v);
    SubstitutedConcat(v, [c]);
    SegmentsByPart([c] + v);
    SegmentsByPart(v + [c]);
    SegmentsByPart(v);
    FirstMarkIsDropped(c, Clean(v));
    LastMarkIsDropped(Clean(v), c);
  }

  lemma {:induction false} AfterSlash(w: string, u: string, v: string)
    requires u == w + "/"
    ensures Segments(u + v) == Segments(w) + Segments(v)
  {
    SegmentsAtSlash(w, v);
  }

  lemma {:induction false} BeforeSlash(u: string, v: string, w: string)
    requires v == "/" + w
    ensures Segments(u + v) == Segments(u) + Segments(w)
  {
    SegmentsAtSlash(u, w);
    SeqAssociates(u, "/", w);
  }

  lemma {:induction false} MarkAtStart(u: string, x: string, v: string)
    requires SegmentStarts(u) && Segments(x) == Segments(v)
    ensures Segments(u + x) == Segments(u + v)
  {
    if u == "" {
      assert u + x == x && u + v == v;
    } else {
      MarkAfterSlash(u[..|u| - 1], u, x, v);
    }
  }

  lemma {:induction false} MarkAfterSlash(w: string, u: string, x: string, v: string)
    requires u == w + "/" && Segments(x) == Segments(v)
    ensures Segments(u + x) == Segments(u + v)
  {
    AfterSlash(w, u, x);
    AfterSlash(w, u, v);
  }

  lemma {:induction false} MarkAtEnd(u: string, c: char, v: string)
    requires c in {'-', '.'} && SegmentEnds(v)
    ensures Segments(u + [c] + v) == Segments(u + v)
  {
    MarkKeepsSegments(c, u);
    if v == "" {
      assert u + [c] + v == u + [c] && u + v == u;
    } else {
      BeforeSlash(u + [c], v, v[1..]);
      BeforeSlash(u, v, v[1..]);
    }
  }

  lemma {:induction false} MarkKeepsSlug(a: string, c: char, b: string)
    requires c in {'-', '.'} && (SegmentStarts(a) || SegmentEnds(b))
    ensures Slug(a + [c] + b) == Slug(a + b)
  {
    ToSlashThree(a, [c], b);
    ToSlashConcat(a, b);
    CleanOfPlain([c]);
    if SegmentStarts(a) {
      MarkKeepsSegments(c, ToSlash(b));
      SeqAssociates(ToSlash(a), [c], ToSlash(b));
      MarkAtStart(ToSlash(a), [c] + ToSlash(b), ToSlash(b));
    } else {
      MarkAtEnd(ToSlash(a), c, ToSlash(b));
    }
  }

  lemma {:induction false} RuleKeepsSlug(a: string, l: string, r: string, b: string)
    requires Rule(a, l, r, b)
    ensures Slug(a + l + b) == Slug(a + r + b)
  {
    if |l| == 1 && r == Becomes(l[0]) {
      assert l == [l[0]];
      CharacterKeepsSlug(a, l[0], b);
    } else if l == "--" && r == "-" {
      DashRunKeepsSlug(a, b);
    } else if l == DOUBLE_SLASH && r == "/" {
      SlashesKeepSlug(a, b);
    } else {
      assert a + r + b == a + b;
      DropKeepsSlug(a, l, b);
    }
  }

  lemma {:induction false} DropKeepsSlug(a: string, l: string, b: string)
    requires (l in {"-", "."} && (SegmentStarts(a) || SegmentEnds(b))) || (l == "/" && (a == "" || b == ""))
    ensures Slug(a + l + b) == Slug(a + b)
  {
    if l == "/" {
      EndSlashKeepsSlug(a, l, b);
    } else {
      assert l == [l[0]];
      MarkKeepsSlug(a, l[0], b);
    }
  }

  lemma {:induction false} EndSlashKeepsSlug(a: string, slash: string, b: string)
    requires slash == "/" && (a == "" || b == "")
    ensures Slug(a + slash + b) == Slug(a + b)
  {
    SlashesKeepSlug(a, b);
    if a == "" {
      assert a + slash == slash && a + b == b;
    } else {
      assert a + slash + b == a + slash && a + b == a;
    }
  }

  lemma {:induction false} ChainKeepsSlug(p: seq<string>)
    requires Chain(p)
    ensures Slug(p[0]) == Slug(p[|p| - 1])
  {
    if |p| > 1 {
      var front := p[..|p| - 1];
      assert Chain(front);
      ChainKeepsSlug(front);
      assert RewritesOnce(p[|p| - 2], p[|p| - 2 + 1]);
      var a, l, r, b :| RewritesAt(p[|p| - 2], p[|p| - 1], a, l, r, b);
      RuleKeepsSlug(a, l, r, b);
    }
  }

  // ---------------------------------------------------------------- and they lead to it

  lemma {:induction false} RewritesNot(x: string)
    ensures Rewrites(x, x)
  {
    assert Chain([x]);
  }

  lemma {:induction false} RewritesFirst(x: string, y: string, z: string)
    requires RewritesOnce(x, y) && Rewrites(y, z)
    ensures Rewrites(x, z)
  {
    var p :| Chain(p) && p[0] == y && p[|p| - 1] == z;
    var q := [x] + p;
    forall i | 0 <= i < |q| - 1 ensures RewritesOnce(q[i], q[i + 1]) {
      if i > 0 {
        assert q[i] == p[i - 1] && q[i + 1] == p[i];
      }
    }
    assert Chain(q);
  }

  lemma {:induction false} RewritesThrough(x: string, y: string, z: string)
    requires Rewrites(x, y) && Rewrites(y, z)
    ensures Rewrites(x, z)
  {
    var p :| Chain(p) && p[0] == x && p[|p| - 1] == y;
    Prepended(p, z);
  }

  lemma {:induction false} Prepended(p: seq<string>, z: string)
    requires Chain(p) && Rewrites(p[|p| - 1], z)
    ensures Rewrites(p[0], z)
  {
    if |p| > 1 {
      assert Chain(p[1..]);
      Prepended(p[1..], z);
      assert RewritesOnce(p[0], p[0 + 1]);
      RewritesFirst(p[0], p[1], z);
    }
  }

  /** First every character is replaced, from the left. */
  lemma {:induction false} Translates(done: string, rest: string) returns (t: string)
    requires Plain(done)
    ensures Plain(t) && Rewrites(done + rest, t)
    decreases |rest|
  {
    if rest == "" {
      assert done + rest == done;
      t := done;
      RewritesNot(done);
    } else {
      var c, tail := rest[0], rest[1..];
      var next := done + Becomes(c);
      BecomesPlain(c);
      t := Translates(next, tail);
      assert done + rest == done + [c] + tail;
      assert RewritesAt(done + rest, next + tail, done, [c], Becomes(c), tail);
      RewritesFirst(done + rest, next + tail, t);
    }
  }

  /** Segment i of a path stands between slashes or ends. */
  lemma {:induction false} SegmentAt(x: string, i: nat) returns (a: string, b: string)
    requires i < |Split(x)|
    ensures x == a + Split(x)[i] + b && SegmentStarts(a) && SegmentEnds(b)
  {
    var parts := Split(x);
    var before, p, after := parts[..i], parts[i], parts[i + 1..];
    JoinOfSplit(x);
    assert parts == before + ([p] + after);
    a := if before == [] then "" else Join(before) + "/";
    b := if after == [] then "" else "/" + Join(after);
    if after != [] {
      JoinAppend([p], after);
    } else {
      assert [p] + after == [p];
    }
    if before != [] {
      JoinAppend(before, [p] + after);
    } else {
      assert before + ([p] + after) == [p] + after;
    }
  }

  /** A segment that is not good shows where a rule shortens the path. */
  lemma {:induction false} BadSegmentShortens(a: string, p: string, b: string) returns (y: string)
    requires Plain(a) && Plain(p) && Plain(b) && '/' !in p && !GoodSegment(p)
    requires SegmentStarts(a) && SegmentEnds(b) && a + p + b != ""
    ensures RewritesOnce(a + p + b, y) && |y| < |a + p + b| && Plain(y)
  {
    if p == "" {
      y := EmptySegmentShortens(a, b);
      assert a + p == a;
    } else if p[0] in {'-', '.'} {
      y := MarkShortens(a, p[0], p[1..] + b);
      Regroup(a, [p[0]], p[1..], p, b);
    } else if p[|p| - 1] in {'-', '.'} {
      y := MarkShortens(a + p[..|p| - 1], p[|p| - 1], b);
      Regroup(a, p[..|p| - 1], [p[|p| - 1]], p, b);
    } else {
      var i :| 0 <= i < |p| - 1 && p[i] == '-' && p[i + 1] == '-';
      y := RunShortens(a, p, i, b);
    }
  }

  lemma {:induction false} Regroup(a: string, head: string, tail: string, p: string, b: string)
    requires p == head + tail
    ensures a + p + b == a + head + (tail + b) && a + p + b == a + head + tail + b
  {
    SeqAssociates(a, head, tail);
    SeqAssociates(a + head, tail, b);
  }

  lemma {:induction false} MarkShortens(a: string, c: char, b: string) returns (y: string)
    requires c in {'-', '.'} && Plain(a) && Plain(b) && (SegmentStarts(a) || SegmentEnds(b))
    ensures RewritesOnce(a + [c] + b, y) && |y| < |a + [c] + b| && Plain(y)
  {
    y := a + "" + b;
    assert RewritesAt(a + [c] + b, y, a, [c], "", b);
  }

  lemma {:induction false} RunShortens(a: string, p: string, i: nat, b: string) returns (y: string)
    requires Plain(a) && Plain(p) && Plain(b) && i + 1 < |p| && p[i] == '-' && p[i + 1] == '-'
    ensures RewritesOnce(a + p + b, y) && |y| < |a + p + b| && Plain(y)
  {
    y := DashesShorten(a + p[..i], p[i + 2..] + b);
    assert p == p[..i] + "--" + p[i + 2..];
    assert a + p + b == a + p[..i] + "--" + (p[i + 2..] + b);
  }

  lemma {:induction false} DashesShorten(a: string, b: string) returns (y: string)
    requires Plain(a) && Plain(b)
    ensures RewritesOnce(a + "--" + b, y) && |y| < |a + "--" + b| && Plain(y)
  {
    y := a + "-" + b;
    assert RewritesAt(a + "--" + b, y, a, "--", "-", b);
  }

  lemma {:induction false} EmptySegmentShortens(a: string, b: string) returns (y: string)
    requires Plain(a) && Plain(b) && SegmentStarts(a) && SegmentEnds(b) && a + b != ""
    ensures RewritesOnce(a + b, y) && |y| < |a + b| && Plain(y)
  {
    if a == "" {
      y := "" + "" + b[1..];
      assert a + b == "" + "/" + b[1..];
      assert RewritesAt(a + b, y, "", "/", "", b[1..]);
    } else {
      var head := a[..|a| - 1];
      if b == "" {
        y := head + "" + "";
        assert a + b == head + "/" + "";
        assert RewritesAt(a + b, y, head, "/", "", "");
      } else {
        y := head + "/" + b[1..];
        assert a + b == head + DOUBLE_SLASH + b[1..];
        assert RewritesAt(a + b, y, head, DOUBLE_SLASH, "/", b[1..]);
      }
    }
  }

  lemma {:induction false} PlainShortens(x: string) returns (y: string)
    requires Plain(x) && !Canonical(x)
    ensures RewritesOnce(x, y) && |y| < |x| && Plain(y)
  {
    var p :| p in Split(x) && !GoodSegment(p);
    var i :| 0 <= i < |Split(x)| && Split(x)[i] == p;
    var a, b := SegmentAt(x, i);
    SplitKeepsCharacters(x);
    assert Plain(a) by { forall k | 0 <= k < |a| ensures PlainChar(a[k]) { assert a[k] == x[k]; } }
    assert Plain(b) by {
      forall k | 0 <= k < |b| ensures PlainChar(b[k]) { assert b[k] == x[|a| + |p| + k]; }
    }
    y := BadSegmentShortens(a, p, b);
  }

  /** Then the shorter path is shortened until it is canonical. */
  lemma {:induction false} Shortens(x: string) returns (y: string)
    requires Plain(x)
    ensures Canonical(y) && Rewrites(x, y)
    decreases |x|
  {
    if Canonical(x) {
      y := x;
      RewritesNot(x);
    } else {
      var next := PlainShortens(x);
      y := Shortens(next);
      RewritesFirst(x, next, y);
    }
  }

  lemma {:induction false} CanonicalIsItsSlug(y: string)
    requires Canonical(y)
    ensures Slug(y) == y
  {
    CanonicalIsPlain(y);
    CleanOfPlain(y);
    CleaningCanonical(y);
  }

  /** The slug of a path is the one canonical text that its stem rewrites to, whatever the order of the steps:
      every rewriting that ends in a canonical text ends in the slug, and some rewriting does. */
  lemma {:induction false} SlugIsNormalFormExactly(raw: string, y: string)
    ensures NormalizedOne(raw) == y <==> Canonical(y) && Rewrites(Stem(raw), y)
  {
    var stem := Stem(raw);
    StemDecides(raw);
    if Canonical(y) && Rewrites(stem, y) {
      NormalFormIsSlug(stem, y);
    }
    var z := NormalForm(stem);
    NormalFormIsSlug(stem, z);
  }

  lemma {:induction false} NormalForm(stem: string) returns (z: string)
    ensures Canonical(z) && Rewrites(stem, z)
  {
    assert "" + stem == stem;
    var t := Translates("", stem);
    z := Shortens(t);
    RewritesThrough(stem, t, z);
  }

  lemma {:induction false} NormalFormIsSlug(stem: string, y: string)
    requires Canonical(y) && Rewrites(stem, y)
    ensures Slug(stem) == y
  {
    var p :| Chain(p) && p[0] == stem && p[|p| - 1] == y;
    ChainKeepsSlug(p);
    CanonicalIsItsSlug(y);
  }

  /** With any prefix, the slug is that of the prefix without its extension, a slash and the path. */
  lemma {:induction false} PrefixIsJoined(path: string, prefix: Option<string>)
    ensures Normalized(path, prefix) ==
            if prefix.None? then NormalizedOne(path) else NormalizedOne(Stem(prefix.value) + "/" + path)
  {
    if prefix.Some? {
      var stem := Stem(prefix.value);
      JoinedPath(stem, path);
      StemSegments(prefix.value);
      if prefix.value == "" {
        EmptyHasNoSegments();
        assert Segments(ToSlash(stem)) + Segments(StripMd(ToSlash(path))) == Segments(StripMd(ToSlash(path)));
      } else {
        NormalizedIsJoin(path, prefix.value);
      }
    }
  }

  /** The first two passes take the extension off. */
  lemma {:induction false} StemSegments(raw: string)
    ensures StripMd(ToSlash(raw)) == ToSlash(Stem(raw))
  {
    var s := ToSlash(raw);
    EndsMdExactly(s);
    if EndsMd(s) {
      assert s[..|s| - 3] == ToSlash(raw[..|raw| - 3]);
    }
  }
}
