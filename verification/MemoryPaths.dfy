/** Where a memory lands on disk: one file per (scope, slug), inside its scope directory. */
module MemoryPaths {
  import opened Common
  import opened Slugs
  import opened Text
  import Artifacts

  const MEMORY_ROOT := "agent_memories"
  const SCOPE_SUBDIRS: set<string> := {"topic", "user", "agent"}

  /** os.path.join of two arguments on POSIX. */
  function PathJoin(a: string, b: string): string {
    if b != "" && b[0] == '/' then b
    else if a == "" || a[|a| - 1] == '/' then a + b
    else a + "/" + b
  }

  function SafeRelpath(scope: string, slug: string): Option<string> {
    if scope !in SCOPE_SUBDIRS || !IsSafeSlug(slug) then None
    else Some(PathJoin(scope, slug + ".md"))
  }

  function MemoryFilePath(workspace: string, scope: string, slug: string): Option<string> {
    var rel := SafeRelpath(scope, slug);
    if rel.None? then None
    else Some(PathJoin(PathJoin(workspace, MEMORY_ROOT), rel.value))
  }

  // ---------------------------------------------------------------- lexical resolution

  /** Walk the components: "" and "." stay, ".." goes up (and stays put at the top), others go down. */
  function Enter(at: seq<string>, p: string): seq<string> {
    if p == "" || p == "." then at
    else if p == ".." then (if at == [] then [] else at[..|at| - 1])
    else at + [p]
  }

  function Walk(at: seq<string>, parts: seq<string>): seq<string>
    decreases |parts|
  {
    if parts == [] then at else Walk(Enter(at, parts[0]), parts[1..])
  }

  function Resolve(path: string): seq<string> {
    Walk([], Split(path))
  }

  lemma {:induction false} WalkConcat(at: seq<string>, a: seq<string>, b: seq<string>)
    ensures Walk(at, a + b) == Walk(Walk(at, a), b)
    decreases |a|
  {
    if a == [] {
      assert a + b == b;
    } else {
      assert (a + b)[0] == a[0] && (a + b)[1..] == a[1..] + b;
      WalkConcat(Enter(at, a[0]), a[1..], b);
    }
  }

  ghost predicate Ordinary(parts: seq<string>) {
    forall p :: p in parts ==> p !in {"", ".", ".."}
  }

  lemma {:induction false} WalkOrdinary(at: seq<string>, parts: seq<string>)
    requires Ordinary(parts)
    ensures Walk(at, parts) == at + parts
    decreases |parts|
  {
    if parts == [] {
      assert at + parts == at;
    } else {
      assert parts[0] in parts && forall p :: p in parts[1..] ==> p in parts;
      WalkOrdinary(at + [parts[0]], parts[1..]);
      assert at + [parts[0]] + parts[1..] == at + parts;
    }
  }

  lemma {:induction false} ResolveJoin(a: string, b: string)
    requires b != "" && b[0] != '/'
    ensures Resolve(PathJoin(a, b)) == Walk(Resolve(a), Split(b))
  {
    if a == "" {
      assert a + b == b;
      assert Walk([], [""]) == [];
    } else if a[|a| - 1] == '/' {
      var c := a[..|a| - 1];
      assert a == c + "/" + "" && a + b == c + "/" + b;
      SplitAtSlash(c, "");
      SplitAtSlash(c, b);
      WalkConcat([], Split(c), [""]);
      WalkConcat([], Split(c), Split(b));
    } else {
      SplitAtSlash(a, b);
      WalkConcat([], Split(a), Split(b));
    }
  }

  // ---------------------------------------------------------------- safe slugs

  function FileParts(slug: string): seq<string> {
    Split(slug + ".md")
  }

  lemma {:induction false} FilePartsAreOrdinary(slug: string)
    requires IsSafeSlug(slug)
    ensures Ordinary(FileParts(slug)) && slug + ".md" != "" && (slug + ".md")[0] != '/'
  {
    var a := Split(slug);
    SplitWithTail(slug, ".md");
    var last := a[|a| - 1] + ".md";
    assert last !in {"", ".", ".."} by { assert |last| >= 3; }
    forall p | p in FileParts(slug) ensures p !in {"", ".", ".."} {
      if p != last {
        assert p in a[..|a| - 1] && p in a;
      }
    }
  }

  /** A valid (scope, slug) has a path, and however the workspace is written it resolves to a file
      strictly below {workspace}/agent_memories/{scope}, named by the slug's own segments. */
  lemma {:induction false} MemoryStaysInsideScope(workspace: string, scope: string, slug: string)
    ensures MemoryFilePath(workspace, scope, slug).Some? <==> scope in {"topic", "user", "agent"} && IsSafeSlug(slug)
    ensures var path := MemoryFilePath(workspace, scope, slug);
            path.Some? ==>
              Resolve(path.value) == Resolve(workspace) + ["agent_memories"] + ([scope] + Split(slug + ".md"))
  {
    if scope in SCOPE_SUBDIRS && IsSafeSlug(slug) {
      FilePartsAreOrdinary(slug);
      ScopeIsOnePart(scope);
      var rel := scope + "/" + (slug + ".md");
      assert SafeRelpath(scope, slug) == Some(rel) && rel[0] == scope[0];
      SplitAtSlash(scope, slug + ".md");
      assert Ordinary([scope] + FileParts(slug));
      ResolveBelowRoot(workspace, MEMORY_ROOT, rel);
    }
  }

  lemma {:induction false} ResolveBelow(a: string, b: string)
    requires b != "" && b[0] != '/' && Ordinary(Split(b))
    ensures Resolve(PathJoin(a, b)) == Resolve(a) + Split(b)
  {
    ResolveJoin(a, b);
    WalkOrdinary(Resolve(a), Split(b));
  }

  lemma {:induction false} ResolveBelowRoot(workspace: string, root: string, rel: string)
    requires root != "" && '/' !in root && root !in {".", ".."}
    requires rel != "" && rel[0] != '/' && Ordinary(Split(rel))
    ensures Resolve(PathJoin(PathJoin(workspace, root), rel)) == Resolve(workspace) + [root] + Split(rel)
  {
    SplitOfPart(root);
    assert root[0] in root;
    ResolveBelow(workspace, root);
    ResolveBelow(PathJoin(workspace, root), rel);
  }

  lemma {:induction false} ScopeIsOnePart(scope: string)
    requires scope in SCOPE_SUBDIRS
    ensures Split(scope) == [scope] && scope != "" && scope[0] != '/' && scope[|scope| - 1] != '/'
        && scope !in {"", ".", ".."}
  {
    SplitOfPart(scope);
  }

  lemma {:induction false} FilePartsNameSlug(a: string, b: string)
    requires FileParts(a) == FileParts(b)
    ensures a == b
  {
    JoinOfSplit(a + ".md");
    JoinOfSplit(b + ".md");
    assert a == (a + ".md")[..|a + ".md"| - 3] && b == (b + ".md")[..|b + ".md"| - 3];
  }

  /** Distinct (scope, slug) pairs resolve to distinct files. */
  lemma {:induction false} DistinctMemoriesHaveDistinctFiles(workspace: string, scope1: string, slug1: string,
                                                             scope2: string, slug2: string)
    requires MemoryFilePath(workspace, scope1, slug1).Some? && MemoryFilePath(workspace, scope2, slug2).Some?
    requires Resolve(MemoryFilePath(workspace, scope1, slug1).value)
        == Resolve(MemoryFilePath(workspace, scope2, slug2).value)
    ensures scope1 == scope2 && slug1 == slug2
  {
    MemoryStaysInsideScope(workspace, scope1, slug1);
    MemoryStaysInsideScope(workspace, scope2, slug2);
    var n := |Resolve(workspace)|;
    var p1 := Resolve(workspace) + [MEMORY_ROOT] + ([scope1] + FileParts(slug1));
    var p2 := Resolve(workspace) + [MEMORY_ROOT] + ([scope2] + FileParts(slug2));
    assert p1[n + 1] == scope1 && p2[n + 1] == scope2;
    assert p1[n + 2..] == FileParts(slug1) && p2[n + 2..] == FileParts(slug2);
    FilePartsNameSlug(slug1, slug2);
  }

  // ---------------------------------------------------------------- a file where a directory is needed

  /** a is a proper ancestor of b in the directory tree. */
  predicate Above(a: seq<string>, b: seq<string>) {
    |a| < |b| && a == b[..|a|]
  }

  lemma {:induction false} FilePartsAboveExactly(a: string, b: string)
    ensures Above(FileParts(a), FileParts(b)) <==> StartsWith(b, a + ".md/")
  {
    var x, head := a + ".md", a + ".md/";
    assert head == x + "/";
    if Above(FileParts(a), FileParts(b)) {
      var rest := FileParts(b)[|FileParts(a)|..];
      assert FileParts(b) == FileParts(a) + rest;
      JoinAppend(FileParts(a), rest);
      JoinOfSplit(x);
      JoinOfSplit(b + ".md");
      HeadComesBeforeExtension(b, x, Join(rest));
    }
    if StartsWith(b, head) {
      var t := b[|head|..];
      assert b + ".md" == x + "/" + (t + ".md");
      SplitAtSlash(x, t + ".md");
    }
  }

  lemma {:induction false} HeadComesBeforeExtension(b: string, x: string, rest: string)
    requires b + ".md" == x + "/" + rest
    ensures StartsWith(b, x + "/")
  {
    var y, head := b + ".md", x + "/";
    assert y[|x|] == '/';
    assert y[|b|] == '.' && y[|b| + 1] == 'm' && y[|b| + 2] == 'd';
    assert |x| < |b|;
    assert b[..|head|] == y[..|head|] == head;
  }

  /** Two memories of one workspace cannot both be files exactly when one slug continues the other's
      file name: "a" is the file a.md, which "a.md/b" needs as a directory. */
  lemma {:induction false} MemoryShadowsExactly(workspace: string, scope1: string, slug1: string, scope2: string,
                                                slug2: string)
    requires MemoryFilePath(workspace, scope1, slug1).Some? && MemoryFilePath(workspace, scope2, slug2).Some?
    ensures Above(Resolve(MemoryFilePath(workspace, scope1, slug1).value), Resolve(MemoryFilePath(workspace,
        scope2, slug2).value))
            <==> scope1 == scope2 && StartsWith(slug2, slug1 + ".md/")
  {
    MemoryStaysInsideScope(workspace, scope1, slug1);
    MemoryStaysInsideScope(workspace, scope2, slug2);
    FilePartsAboveExactly(slug1, slug2);
    AboveUnderScope(Resolve(workspace) + [MEMORY_ROOT], scope1, FileParts(slug1), scope2, FileParts(slug2));
  }

  lemma {:induction false} AboveUnderScope(root: seq<string>, s1: string, a: seq<string>, s2: string, b: seq<string>)
    ensures Above(root + ([s1] + a), root + ([s2] + b)) <==> s1 == s2 && Above(a, b)
  {
    var x, y, n := root + ([s1] + a), root + ([s2] + b), |root|;
    if Above(x, y) {
      assert x[n] == s1 && y[n] == s2 && y[..|x|][n] == s2;
      assert a == x[n + 1..] && b[..|a|] == y[..|x|][n + 1..];
    }
    if s1 == s2 && Above(a, b) {
      assert y[..|x|] == root + ([s2] + b[..|a|]);
    }
  }

  // ---------------------------------------------------------------- storing what the normaliser produces

  /** The artifact store's slug rule is narrower than the safety rule: a normalised slug can be stored
      exactly when it is one segment without dots, at most 63 long, not starting with an underscore. */
  lemma {:induction false} NormalizedSlugIsStorableExactly(raw: string)
    ensures var y := NormalizedOne(raw);
            Artifacts.ValidNamedSlug(y) <==> 1 <= |y| <= 63 && y[0] != '_' && '/' !in y && '.' !in y
  {
    OutputIsCanonical(raw);
    CanonicalIsStorableExactly(NormalizedOne(raw));
  }

  lemma {:induction false} CanonicalIsStorableExactly(y: string)
    requires Canonical(y)
    ensures Artifacts.ValidNamedSlug(y) <==> 1 <= |y| <= 63 && y[0] != '_' && '/' !in y && '.' !in y
  {
    CanonicalIsPlain(y);
    if y != "" {
      FirstCharacter(y);
      assert !Strippable(y[0]) by { assert GoodSegment(Split(y)[0]); }
      assert Allowed(y[|y| - 1]);
      assert Artifacts.ValidNamedSlug(y) == Artifacts.SlugPattern(y);
      forall i | 0 <= i < |y| ensures Artifacts.SlugChar(y[i]) == (y[i] != '/' && y[i] != '.') {
        assert Allowed(y[i]);
      }
      if '/' !in y && '.' !in y {
        forall i | 0 <= i < |y| ensures Artifacts.SlugChar(y[i]) {
          assert y[i] in y;
        }
      }
    }
  }

  lemma {:induction false} PatternHasNoSlash(s: string)
    requires Artifacts.SlugPattern(s)
    ensures '/' !in s && Split(s) == [s]
  {
    forall i | 0 <= i < |s| ensures s[i] != '/' {
      assert Artifacts.SlugChar(s[i]);
    }
    SplitOfPart(s);
  }

  lemma {:induction false} PatternIsSafe(s: string)
    requires Artifacts.SlugPattern(s)
    ensures IsSafeSlug(s)
  {
    PatternHasNoSlash(s);
    forall i | 0 <= i < |s| ensures Allowed(s[i]) {
      assert Artifacts.SlugChar(s[i]);
    }
  }

  /** Of the slugs the store accepts, exactly those without a final newline can be materialised: its pattern
      lets one through, and the safety rule does not. */
  lemma {:induction false} StoredSlugIsSafeExactly(s: string)
    requires Artifacts.ValidNamedSlug(s)
    ensures IsSafeSlug(s) <==> Artifacts.SlugPattern(s)
    ensures IsSafeSlug(s) <==> s[|s| - 1] != '\n'
  {
    if Artifacts.SlugPattern(s) {
      PatternIsSafe(s);
      assert Artifacts.SlugChar(s[|s| - 1]);
    } else {
      assert !Allowed(s[|s| - 1]);
    }
  }

  /** The store's pattern is the safety rule for a single segment without dots, at most 63 characters long. */
  lemma {:induction false} PatternIsSafeExactly(s: string)
    ensures Artifacts.SlugPattern(s) <==> IsSafeSlug(s) && |s| <= 63 && '/' !in s && '.' !in s
  {
    if Artifacts.SlugPattern(s) {
      PatternIsSafe(s);
      PatternHasNoSlash(s);
    }
    forall i | 0 <= i < |s| ensures s[i] in s && (Artifacts.SlugChar(s[i]) <==> Allowed(s[i]) && s[i] !in {'/', '.'}) {}
  }

  /** What the store accepts with a final newline: exactly what it accepts by its pattern, and none of it is safe. */
  lemma {:induction false} NewlineIsStoredExactly(s: string)
    ensures Artifacts.ValidNamedSlug(s + "\n") <==> Artifacts.SlugPattern(s)
    ensures Artifacts.ValidNamedSlug(s) && !Artifacts.SlugPattern(s) ==> s != "" && s[|s| - 1] == '\n'
    ensures !IsSafeSlug(s + "\n")
  {
    var t := s + "\n";
    assert t[..|t| - 1] == s && t[|t| - 1] == '\n';
    assert !Artifacts.SlugChar(t[|t| - 1]) && !Allowed(t[|t| - 1]);
  }

  /** So no stored memory's file is ever needed as a directory by another stored memory. */
  lemma {:induction false} StoredMemoriesNeverShadow(workspace: string, scope1: string, slug1: string,
                                                     scope2: string, slug2: string)
    requires Artifacts.ValidNamedSlug(slug1) && Artifacts.ValidNamedSlug(slug2)
    requires MemoryFilePath(workspace, scope1, slug1).Some? && MemoryFilePath(workspace, scope2, slug2).Some?
    ensures !Above(Resolve(MemoryFilePath(workspace, scope1, slug1).value),
                   Resolve(MemoryFilePath(workspace, scope2, slug2).value))
  {
    MemoryStaysInsideScope(workspace, scope2, slug2);
    MemoryShadowsExactly(workspace, scope1, slug1, scope2, slug2);
    StoredSlugIsSafeExactly(slug2);
    PatternHasNoSlash(slug2);
    assert (slug1 + ".md/")[|slug1| + 3] == '/';
    PrefixCharacters(slug2, slug1 + ".md/", '/');
  }

  lemma {:induction false} PrefixCharacters(s: string, head: string, c: char)
    requires c !in s && c in head
    ensures !StartsWith(s, head)
  {
    var i :| 0 <= i < |head| && head[i] == c;
    assert i < |s| ==> s[i] != head[i];
  }
}
