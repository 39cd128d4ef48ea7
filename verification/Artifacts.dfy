/**
 * Versioned artifacts: a version is computed from two reads of a replica that may lag, and
 * only the unique indexes on agent_artifacts arbitrate between concurrent creates.
 */
module Artifacts {
  import opened Common

  datatype ArtifactType = Text | CodeReview | Other | Memory | Skill

  /** memory_scope with memory_scope_subject, as the check constraints allow them together. */
  datatype Scope = Unscoped | Topic | User(subject: string) | Agent(subject: string)

  datatype Row = Row(
    kind: ArtifactType,
    scope: Scope,
    slug: Option<string>,
    version: Option<int>,
    archived: bool,
    deleted: bool)

  type Table = seq<Row>

  /** What a lookup names: the (type, scope, subject, slug) of _scope_slug_filter. */
  datatype Key = Key(kind: ArtifactType, scope: Scope, slug: string)

  predicate ScopedInline(kind: ArtifactType) {
    kind in {Memory, Skill}
  }

  /** Scope columns are set exactly for the scoped-inline types, and a subject is never empty. */
  predicate WellShaped(key: Key) {
    && (ScopedInline(key.kind) <==> key.scope != Unscoped)
    && (key.scope.User? || key.scope.Agent? ==> key.scope.subject != "")
  }

  predicate Matches(row: Row, key: Key) {
    row.slug == Some(key.slug) && row.kind == key.kind && row.scope == key.scope
  }

  predicate Active(row: Row) {
    !row.deleted && !row.archived
  }

  // ---------------------------------------------------------------- version allocation

  /** MAX(version) over the key, archived and deleted rows included; NULL on an empty set. */
  function MaxVersion(t: Table, key: Key): Option<int> {
    if t == [] then None
    else
      var rest, last := MaxVersion(t[..|t| - 1], key), t[|t| - 1];
      if !Matches(last, key) || last.version.None? then rest
      else if rest.None? || rest.value < last.version.value then last.version
      else rest
  }

  predicate HasActive(t: Table, key: Key) {
    exists i :: 0 <= i < |t| && Matches(t[i], key) && Active(t[i])
  }

  predicate SlugChar(c: char) {
    'a' <= c <= 'z' || 'A' <= c <= 'Z' || '0' <= c <= '9' || c in {'_', '-'}
  }

  predicate SlugPattern(s: string) {
    && 1 <= |s| <= 63
    && SlugChar(s[0]) && s[0] !in {'_', '-'}
    && forall i :: 0 <= i < |s| ==> SlugChar(s[i])
  }

  /** The source's pattern ends in "$", which also matches just before a final newline. */
  predicate ValidNamedSlug(s: string) {
    SlugPattern(s) || (s != "" && s[|s| - 1] == '\n' && SlugPattern(s[..|s| - 1]))
  }

  datatype CreateError = BadScope | SlugRequired | BadSlug | AlreadyActive | UnknownSlug | Collision

  /** The version for a new row, from the maximum read first and the activity read second. */
  function NextVersion(key: Key, createNew: bool, existingMax: Option<int>, hasActive: bool): Result<int, CreateError> {
    if !WellShaped(key) then Err(BadScope)
    else if !ValidNamedSlug(key.slug) then Err(BadSlug)
    else if createNew then
      if hasActive then Err(AlreadyActive)
      else Ok((if existingMax.Some? then existingMax.value else 0) + 1)
    else if existingMax.None? then Err(UnknownSlug)
    else Ok(existingMax.value + 1)
  }

  /** The partial unique indexes: per scope for MEMORY and for SKILL, across all other types together. */
  predicate Collides(row: Row, key: Key, version: int) {
    && row.slug == Some(key.slug)
    && row.version == Some(version)
    && (if ScopedInline(key.kind) then row.kind == key.kind && row.scope == key.scope
        else !ScopedInline(row.kind))
  }

  predicate IndexAdmits(t: Table, key: Key, version: int) {
    forall i :: 0 <= i < |t| ==> !Collides(t[i], key, version)
  }

  function NewRow(key: Key, version: int): Row {
    Row(key.kind, key.scope, Some(key.slug), Some(version), false, false)
  }

  // ---------------------------------------------------------------- histories

  /** Every committed state so far, oldest first; a replica read may return any of them. */
  type History = seq<Table>

  datatype Event =
    | Create(key: Key, createNew: bool, maxSeen: nat, activeSeen: nat)   // which states the two reads saw
    | CreateUnnamed(kind: ArtifactType, scope: Scope)
    | Archive(row: nat)
    | ArchiveSlug(key: Key)
    | SoftDelete(row: nat)

  function ArchivedBySlug(t: Table, key: Key): (r: Table)
    ensures |r| == |t|
  {
    seq(|t|, i requires 0 <= i < |t| =>
      if Matches(t[i], key) && Active(t[i]) then t[i].(archived := true) else t[i])
  }

  function Attempt(h: History, e: Event): Result<int, CreateError>
    requires e.Create? && e.maxSeen < |h| && e.activeSeen < |h|
  {
    var v := NextVersion(e.key, e.createNew, MaxVersion(h[e.maxSeen], e.key), HasActive(h[e.activeSeen], e.key));
    if v.Ok? && !IndexAdmits(h[|h| - 1], e.key, v.value) then Err(Collision) else v
  }

  predicate Succeeds(h: History, e: Event) {
    e.Create? && e.maxSeen < |h| && e.activeSeen < |h| && Attempt(h, e).Ok?
  }

  function Commit(h: History, e: Event): Table
    requires h != []
  {
    var t := h[|h| - 1];
    match e
    case Create(key, createNew, maxSeen, activeSeen) =>
      if Succeeds(h, e) then t + [NewRow(key, Attempt(h, e).value)] else t
    case CreateUnnamed(kind, scope) => t + [Row(kind, scope, None, None, false, false)]
    case Archive(row) => if row < |t| && !t[row].deleted then t[row := t[row].(archived := true)] else t
    case ArchiveSlug(key) => ArchivedBySlug(t, key)
    case SoftDelete(row) => if row < |t| then t[row := t[row].(deleted := true)] else t
  }

  /** All committed states of a run that starts from an empty table. */
  function Run(es: seq<Event>): (h: History)
    ensures |h| == |es| + 1
  {
    if es == [] then [[]]
    else
      var h := Run(es[..|es| - 1]);
      h + [Commit(h, es[|es| - 1])]
  }

  // ---------------------------------------------------------------- version histories

  /** The versions stored for a key, in commit order. */
  function Versions(t: Table, key: Key): seq<int> {
    if t == [] then []
    else
      var rest, last := Versions(t[..|t| - 1], key), t[|t| - 1];
      if Matches(last, key) && last.version.Some? then rest + [last.version.value] else rest
  }

  ghost predicate OneToN(vs: seq<int>) {
    forall i :: 0 <= i < |vs| ==> vs[i] == i + 1
  }

  /** Rows are only ever added, and archiving and deleting are one-way. */
  ghost predicate Grows(older: Table, newer: Table) {
    && |older| <= |newer|
    && forall i :: 0 <= i < |older| ==>
         && newer[i].kind == older[i].kind && newer[i].scope == older[i].scope
         && newer[i].slug == older[i].slug && newer[i].version == older[i].version
         && (older[i].archived ==> newer[i].archived) && (older[i].deleted ==> newer[i].deleted)
  }

  ghost predicate Contiguous(t: Table) {
    (forall key: Key :: OneToN(Versions(t, key))) && RowsWellShaped(t)
  }

  /** Exactly the named rows carry a version, and named rows obey the scope check constraint. */
  ghost predicate RowsWellShaped(t: Table) {
    forall i :: 0 <= i < |t| ==>
      && (t[i].slug.Some? <==> t[i].version.Some?)
      && (t[i].slug.Some? ==> (ScopedInline(t[i].kind) <==> t[i].scope != Unscoped))
  }

  lemma {:induction false} MaxOfOneToN(t: Table, key: Key)
    requires OneToN(Versions(t, key))
    ensures MaxVersion(t, key) == if Versions(t, key) == [] then None else Some(|Versions(t, key)|)
  {
    if t != [] {
      var vs, rest := Versions(t, key), Versions(t[..|t| - 1], key);
      assert rest == vs || (rest == vs[..|vs| - 1] && vs[|vs| - 1] == |vs|);
      MaxOfOneToN(t[..|t| - 1], key);
    }
  }

  lemma {:induction false} SameVersions(a: Table, b: Table, key: Key)
    requires Grows(a, b) && |a| == |b|
    ensures Versions(a, key) == Versions(b, key)
  {
    if a != [] { SameVersions(a[..|a| - 1], b[..|b| - 1], key); }
  }

  /** Versions depend only on what never changes, and an older table holds a prefix of them. */
  lemma {:induction false} VersionsGrow(older: Table, newer: Table, key: Key)
    requires Grows(older, newer)
    ensures Versions(older, key) <= Versions(newer, key)
    decreases |newer|
  {
    if |older| < |newer| {
      VersionsGrow(older, newer[..|newer| - 1], key);
    } else {
      SameVersions(older, newer, key);
    }
  }

  lemma {:induction false} VersionIsStored(t: Table, key: Key, v: int)
    requires v in Versions(t, key)
    ensures exists i :: 0 <= i < |t| && Matches(t[i], key) && t[i].version == Some(v)
  {
    var rest, last := Versions(t[..|t| - 1], key), t[|t| - 1];
    if v in rest {
      VersionIsStored(t[..|t| - 1], key, v);
      var i :| 0 <= i < |t| - 1 && Matches(t[..|t| - 1][i], key) && t[..|t| - 1][i].version == Some(v);
      assert Matches(t[i], key);
    } else {
      assert Matches(last, key) && last.version == Some(v);
    }
  }

  /** Keys whose versions share one unique index. */
  predicate SameIndex(a: Key, b: Key) {
    a == b || (a.slug == b.slug && !ScopedInline(a.kind) && !ScopedInline(b.kind))
  }

  lemma {:induction false} StoredVersionBlocks(t: Table, owner: Key, newcomer: Key, v: int)
    requires v in Versions(t, owner) && SameIndex(owner, newcomer)
    ensures !IndexAdmits(t, newcomer, v)
  {
    VersionIsStored(t, owner, v);
    var i :| 0 <= i < |t| && Matches(t[i], owner) && t[i].version == Some(v);
    assert Collides(t[i], newcomer, v);
  }

  lemma {:induction false} RunGrows(es: seq<Event>, i: nat, j: nat)
    requires i <= j <= |es|
    ensures Grows(Run(es)[i], Run(es)[j])
  {
    if es != [] && j == |es| {
      var before := es[..|es| - 1];
      if i < |es| {
        RunGrows(before, i, |before|);
      }
    } else if es != [] {
      RunGrows(es[..|es| - 1], i, j);
    }
  }

  /** A stale maximum proposes a version that is already stored, which the unique index refuses;
      so a create that commits has read the true maximum. */
  lemma {:induction false} StaleMaximumCollides(seen: Table, now: Table, key: Key)
    requires WellShaped(key) && Grows(seen, now) && OneToN(Versions(now, key))
    requires IndexAdmits(now, key, |Versions(seen, key)| + 1)
    ensures Versions(seen, key) == Versions(now, key)
  {
    VersionsGrow(seen, now, key);
    var n := |Versions(seen, key)|;
    if n < |Versions(now, key)| {
      assert Versions(now, key)[n] == n + 1;
      StoredVersionBlocks(now, key, key, n + 1);
    }
  }

  lemma {:induction false} SuccessfulCreateAppends(es: seq<Event>, e: Event)
    requires var h := Run(es); Succeeds(h, e) && Contiguous(h[|es|])
    ensures var h := Run(es); Attempt(h, e).value == |Versions(h[|es|], e.key)| + 1
    ensures var h := Run(es); Versions(h[e.maxSeen], e.key) == Versions(h[|es|], e.key)
  {
    var h := Run(es);
    var seen, now := h[e.maxSeen], h[|es|];
    RunGrows(es, e.maxSeen, |es|);
    VersionsGrow(seen, now, e.key);
    assert OneToN(Versions(now, e.key));
    MaxOfOneToN(seen, e.key);
    StaleMaximumCollides(seen, now, e.key);
  }

  lemma {:induction false} AppendVersions(t: Table, row: Row, key: Key)
    ensures Versions(t + [row], key) ==
            Versions(t, key) + (if Matches(row, key) && row.version.Some? then [row.version.value] else [])
  {
    assert (t + [row])[..|t|] == t;
  }

  lemma {:induction false} CommitExtendsVersions(es: seq<Event>, e: Event, key: Key)
    requires Contiguous(Run(es)[|es|])
    ensures var h := Run(es);
            Versions(Commit(h, e), key) ==
            Versions(h[|es|], key) + (if Succeeds(h, e) && e.key == key then [|Versions(h[|es|], key)| + 1] else [])
  {
    var h := Run(es);
    var now := h[|es|];
    if Succeeds(h, e) {
      SuccessfulCreateAppends(es, e);
      AppendVersions(now, NewRow(e.key, Attempt(h, e).value), key);
    } else if e.CreateUnnamed? {
      AppendVersions(now, Row(e.kind, e.scope, None, None, false, false), key);
    } else {
      SameVersions(now, Commit(h, e), key);
    }
  }

  lemma {:induction false} CommitKeepsShape(h: History, e: Event)
    requires h != [] && RowsWellShaped(h[|h| - 1])
    ensures RowsWellShaped(Commit(h, e))
  {}

  lemma {:induction false} CommitKeepsOneToN(es: seq<Event>, e: Event, key: Key)
    requires Contiguous(Run(es)[|es|])
    ensures OneToN(Versions(Commit(Run(es), e), key))
  {
    assert OneToN(Versions(Run(es)[|es|], key));
    CommitExtendsVersions(es, e, key);
  }

  /** Under any interleaving, whatever earlier committed state each read returns, the versions stored
      for every (type, scope, subject, slug) are exactly 1, 2, ..., n in commit order. */
  lemma {:induction false} VersionsAreContiguous(es: seq<Event>)
    ensures Contiguous(Run(es)[|es|])
  {
    if es == [] {
      assert Run(es) == [[]];
    } else {
      var before, e := es[..|es| - 1], es[|es| - 1];
      VersionsAreContiguous(before);
      CommitKeepsShape(Run(before), e);
      forall key: Key ensures OneToN(Versions(Run(es)[|es|], key)) {
        CommitKeepsOneToN(before, e, key);
      }
    }
  }

  lemma {:induction false} VersionsOneToN(es: seq<Event>, key: Key)
    ensures OneToN(Versions(Run(es)[|es|], key)) && RowsWellShaped(Run(es)[|es|])
  {
    VersionsAreContiguous(es);
  }

  /** A create that commits was given one more than the number of versions stored, and its possibly
      stale read of the maximum had missed none of them. */
  lemma {:induction false} CommittedCreateReadTrueMaximum(es: seq<Event>, e: Event)
    requires Succeeds(Run(es), e)
    ensures var h := Run(es);
            && Attempt(h, e).value == |Versions(h[|es|], e.key)| + 1
            && Versions(h[e.maxSeen], e.key) == Versions(h[|es|], e.key)
  {
    VersionsAreContiguous(es);
    SuccessfulCreateAppends(es, e);
  }

  // ---------------------------------------------------------------- who may own a slug

  /** Two unscoped types never both hold versions of one slug. */
  lemma {:induction false} OneUnscopedOwner(es: seq<Event>, a: Key, b: Key)
    requires a.slug == b.slug && a.kind != b.kind && !ScopedInline(a.kind) && !ScopedInline(b.kind)
    ensures var t := Run(es)[|es|]; Versions(t, a) == [] || Versions(t, b) == []
  {
    if es != [] {
      var before, e := es[..|es| - 1], es[|es| - 1];
      OneUnscopedOwner(before, a, b);
      VersionsAreContiguous(before);
      CommitExtendsVersions(before, e, a);
      CommitExtendsVersions(before, e, b);
      if Succeeds(Run(before), e) {
        SuccessfulCreateAppends(before, e);
        if e.key == a { FirstVersionBlocksOthers(Run(before)[|before|], b, a); }
        if e.key == b { FirstVersionBlocksOthers(Run(before)[|before|], a, b); }
      }
    }
  }

  lemma {:induction false} FirstVersionBlocksOthers(t: Table, owner: Key, newcomer: Key)
    requires SameIndex(owner, newcomer) && OneToN(Versions(t, owner))
    ensures Versions(t, owner) != [] ==> !IndexAdmits(t, newcomer, 1)
  {
    if Versions(t, owner) != [] {
      assert Versions(t, owner)[0] == 1;
      StoredVersionBlocks(t, owner, newcomer, 1);
    }
  }

  lemma {:induction false} StoredVersionIsListed(t: Table, key: Key, i: nat)
    requires i < |t| && Matches(t[i], key) && t[i].version.Some?
    ensures t[i].version.value in Versions(t, key)
  {
    if i < |t| - 1 { StoredVersionIsListed(t[..|t| - 1], key, i); }
  }

  /** Outside the scoped types the maximum is read per type but the index spans types, so the first
      type to take a slug keeps it for ever: no other unscoped type ever stores a version of it. */
  lemma {:induction false} UnscopedSlugBelongsToOneType(es: seq<Event>, i: nat, j: nat)
    requires var t := Run(es)[|es|]; i < |t| && j < |t| && t[i].slug.Some? && t[i].slug == t[j].slug
    requires var t := Run(es)[|es|]; !ScopedInline(t[i].kind) && !ScopedInline(t[j].kind)
    ensures var t := Run(es)[|es|]; t[i].kind == t[j].kind
  {
    var t := Run(es)[|es|];
    VersionsAreContiguous(es);
    var a, b := Key(t[i].kind, t[i].scope, t[i].slug.value), Key(t[j].kind, t[j].scope, t[j].slug.value);
    StoredVersionIsListed(t, a, i);
    StoredVersionIsListed(t, b, j);
    if a.kind != b.kind {
      OneUnscopedOwner(es, a, b);
    }
  }
}
