/**
 * What the version histories guarantee to readers and writers: the new-slug guard, the
 * three forms of "latest", archiving, and the store's transactions.
 */
module ArtifactStore {
  import opened Common
  import opened Artifacts

  // ---------------------------------------------------------------- create_new_slug

  lemma {:induction false} EqualVersionsMeanNoNewRows(older: Table, newer: Table, key: Key)
    requires Grows(older, newer) && RowsWellShaped(newer)
    requires Versions(older, key) == Versions(newer, key)
    ensures forall i :: |older| <= i < |newer| ==> !Matches(newer[i], key)
    decreases |newer|
  {
    if |older| < |newer| {
      VersionsGrow(older, newer[..|newer| - 1], key);
      EqualVersionsMeanNoNewRows(older, newer[..|newer| - 1], key);
    }
  }

  /** If the versions did not grow between two tables, no row of the key was added. */
  lemma {:induction false} InactiveStaysInactive(first: Table, seen: Table, now: Table, key: Key)
    requires Grows(first, seen) && Grows(seen, now) && Versions(first, key) == Versions(now, key)
    requires RowsWellShaped(now) && !HasActive(seen, key)
    ensures !HasActive(now, key)
  {
    VersionsGrow(first, seen, key);
    VersionsGrow(seen, now, key);
    assert Versions(seen, key) == Versions(now, key);
    EqualVersionsMeanNoNewRows(seen, now, key);
    forall i | 0 <= i < |now| && Matches(now[i], key) ensures !Active(now[i]) {
      assert Matches(seen[i], key);
    }
  }

  /** A successful create with create_new_slug=True commits only when no version of the key is active
      at that moment, provided the activity read is no older than the maximum read. */
  lemma {:induction false} NewSlugIsInactiveAtInsert(es: seq<Event>, key: Key, maxSeen: nat, activeSeen: nat)
    requires maxSeen <= activeSeen && Succeeds(Run(es), Create(key, true, maxSeen, activeSeen))
    ensures !HasActive(Run(es)[|es|], key)
  {
    var h := Run(es);
    VersionsOneToN(es, key);
    CommittedCreateReadTrueMaximum(es, Create(key, true, maxSeen, activeSeen));
    RunGrows(es, maxSeen, activeSeen);
    RunGrows(es, activeSeen, |es|);
    InactiveStaysInactive(h[maxSeen], h[activeSeen], h[|es|], key);
  }

  /** The proviso is exact: for reads in the other order some run ends with a "new" slug that
      has two active versions. */
  lemma {:induction false} NewSlugGuardNeedsReadOrder(maxSeen: nat, activeSeen: nat)
    ensures (forall es: seq<Event>, key: Key :: Succeeds(Run(es), Create(key, true, maxSeen, activeSeen)) ==>
               !HasActive(Run(es)[|es|], key))
            <==> maxSeen <= activeSeen
  {
    if maxSeen <= activeSeen {
      forall es: seq<Event>, key: Key | Succeeds(Run(es), Create(key, true, maxSeen, activeSeen))
        ensures !HasActive(Run(es)[|es|], key)
      {
        NewSlugIsInactiveAtInsert(es, key, maxSeen, activeSeen);
      }
    } else {
      var es := StaleReadRun(maxSeen, activeSeen);
    }
  }

  const SAMPLE: Key := Key(Memory, Topic, "a")

  /** Nothing until activeSeen, then a first version, then nothing until maxSeen. */
  lemma {:induction false} StaleReadRun(maxSeen: nat, activeSeen: nat) returns (es: seq<Event>)
    requires activeSeen < maxSeen
    ensures |es| == maxSeen
    ensures Run(es)[activeSeen] == [] && Run(es)[maxSeen] == [NewRow(SAMPLE, 1)]
    ensures Succeeds(Run(es), Create(SAMPLE, true, maxSeen, activeSeen)) && HasActive(Run(es)[maxSeen], SAMPLE)
    decreases maxSeen
  {
    if activeSeen + 1 == maxSeen {
      var idle := IdleRun(activeSeen);
      es := idle + [Create(SAMPLE, true, 0, 0)];
      assert es[..|es| - 1] == idle;
      FirstVersionSucceeds(Run(idle));
    } else {
      var before := StaleReadRun(maxSeen - 1, activeSeen);
      es := before + [Archive(1)];
      assert es[..|es| - 1] == before;
    }
    SecondVersionSucceeds(Run(es), maxSeen, activeSeen);
  }

  lemma {:induction false} SecondVersionSucceeds(h: History, maxSeen: nat, activeSeen: nat)
    requires activeSeen < maxSeen == |h| - 1 && h[activeSeen] == [] && h[maxSeen] == [NewRow(SAMPLE, 1)]
    ensures Succeeds(h, Create(SAMPLE, true, maxSeen, activeSeen)) && HasActive(h[maxSeen], SAMPLE)
  {
    var t := h[maxSeen];
    assert t[..0] == [];
    assert MaxVersion(t, SAMPLE) == Some(1);
    assert Matches(t[0], SAMPLE) && Active(t[0]);
    assert Attempt(h, Create(SAMPLE, true, maxSeen, activeSeen)) == Ok(2);
  }

  lemma {:induction false} FirstVersionSucceeds(h: History)
    requires h != [] && h[0] == [] && h[|h| - 1] == []
    ensures Commit(h, Create(SAMPLE, true, 0, 0)) == [NewRow(SAMPLE, 1)]
  {
    assert Attempt(h, Create(SAMPLE, true, 0, 0)) == Ok(1);
  }

  lemma {:induction false} IdleRun(n: nat) returns (es: seq<Event>)
    ensures |es| == n && forall i :: 0 <= i <= n ==> Run(es)[i] == []
  {
    if n == 0 {
      es := [];
    } else {
      var before := IdleRun(n - 1);
      es := before + [Archive(0)];
      assert es[..n - 1] == before;
    }
  }

  // ---------------------------------------------------------------- creating from fresh reads

  /** Another unscoped type already stores this slug. */
  ghost predicate OwnedByOtherType(t: Table, key: Key) {
    key.kind !in {Memory, Skill} &&
    exists i :: 0 <= i < |t| && t[i].slug == Some(key.slug) && t[i].kind !in {Memory, Skill} && t[i].kind != key.kind
  }

  lemma {:induction false} ListedVersionsAreSmall(t: Table, key: Key, i: nat)
    requires OneToN(Versions(t, key)) && i < |t| && Matches(t[i], key) && t[i].version.Some?
    ensures t[i].version.value <= |Versions(t, key)|
  {
    StoredVersionIsListed(t, key, i);
    var k :| 0 <= k < |Versions(t, key)| && Versions(t, key)[k] == t[i].version.value;
  }

  /** Only memories and skills have a scope, and a user's or an agent's names its subject. */
  predicate ScopeFits(kind: ArtifactType, scope: Scope) {
    match scope
    case Unscoped => kind !in {Memory, Skill}
    case Topic => kind in {Memory, Skill}
    case User(subject) => kind in {Memory, Skill} && subject != ""
    case Agent(subject) => kind in {Memory, Skill} && subject != ""
  }

  /** With both reads fresh, what a create answers is decided by the slug, the active versions, the
      versions ever stored and the slug's owner; a success is always one more than all of them. */
  lemma {:induction false} FreshCreateExactly(es: seq<Event>, key: Key, createNew: bool)
    ensures var h := Run(es);
            var t := h[|es|];
            Attempt(h, Create(key, createNew, |es|, |es|)) ==
              if !ScopeFits(key.kind, key.scope) then Err(BadScope)
              else if !ValidNamedSlug(key.slug) then Err(BadSlug)
              else if createNew && HasActive(t, key) then Err(AlreadyActive)
              else if !createNew && Versions(t, key) == [] then Err(UnknownSlug)
              else if OwnedByOtherType(t, key) then Err(Collision)
              else Ok(|Versions(t, key)| + 1)
  {
    var h := Run(es);
    var t := h[|es|];
    VersionsOneToN(es, key);
    MaxOfOneToN(t, key);
    var v := |Versions(t, key)| + 1;
    if !WellShaped(key) {
      // refused before anything is read
    } else if OwnedByOtherType(t, key) {
      OwnerBlocksFirstVersion(es, key);
    } else if i :| 0 <= i < |t| && Collides(t[i], key, v) {
      assert Matches(t[i], key);
      ListedVersionsAreSmall(t, key, i);
    }
  }

  lemma {:induction false} OwnerBlocksFirstVersion(es: seq<Event>, key: Key)
    requires WellShaped(key) && OwnedByOtherType(Run(es)[|es|], key)
    ensures Versions(Run(es)[|es|], key) == [] && !IndexAdmits(Run(es)[|es|], key, 1)
  {
    var t := Run(es)[|es|];
    var i :| 0 <= i < |t| && t[i].slug == Some(key.slug) && t[i].kind !in {Memory, Skill} && t[i].kind != key.kind;
    OwnerRowBlocks(es, t, i, key);
  }

  lemma {:induction false} OwnerRowBlocks(es: seq<Event>, t: Table, i: nat, key: Key)
    requires t == Run(es)[|es|] && i < |t| && t[i].slug == Some(key.slug)
    requires !ScopedInline(t[i].kind) && !ScopedInline(key.kind) && t[i].kind != key.kind
    ensures Versions(t, key) == [] && !IndexAdmits(t, key, 1)
  {
    var owner := Key(t[i].kind, t[i].scope, key.slug);
    VersionsOneToN(es, owner);
    OneUnscopedOwner(es, owner, key);
    RowBlocksFirstVersion(t, i, owner, key);
  }

  lemma {:induction false} RowBlocksFirstVersion(t: Table, i: nat, owner: Key, newcomer: Key)
    requires OneToN(Versions(t, owner)) && RowsWellShaped(t)
    requires SameIndex(owner, newcomer) && i < |t| && Matches(t[i], owner)
    ensures Versions(t, owner) != [] && !IndexAdmits(t, newcomer, 1)
  {
    StoredVersionIsListed(t, owner, i);
    FirstVersionBlocksOthers(t, owner, newcomer);
  }

  // ---------------------------------------------------------------- three forms of "latest"

  function ScopeColumn(s: Scope): Option<string> {
    match s
    case Unscoped => None
    case Topic => Some("topic")
    case User(_) => Some("user")
    case Agent(_) => Some("agent")
  }

  function SubjectColumn(s: Scope): Option<string> {
    if s.User? || s.Agent? then Some(s.subject) else None
  }

  function Coalesce<T>(o: Option<T>, default: T): T {
    if o.Some? then o.value else default
  }

  /** The NOT EXISTS filter of list_artifacts(latest_per_slug), archived rows excluded. */
  ghost predicate NoNewer(t: Table, i: nat)
    requires i < |t|
  {
    Active(t[i]) && (t[i].slug.None? || !exists j :: 0 <= j < |t| && Newer(t[j], t[i]))
  }

  predicate Newer(newer: Row, row: Row) {
    && !newer.deleted && newer.slug.Some? && newer.slug == row.slug && newer.kind == row.kind
    && Coalesce(ScopeColumn(newer.scope), "") == Coalesce(ScopeColumn(row.scope), "")
    && Coalesce(SubjectColumn(newer.scope), "") == Coalesce(SubjectColumn(row.scope), "")
    && !newer.archived
    && Coalesce(newer.version, 0) > Coalesce(row.version, 0)
  }

  /** DISTINCT ON (scope, subject, slug) ... ORDER BY ..., version DESC over the active rows of one
      type: one row for each group, and none of the group sorts before it. */
  ghost predicate IsDistinctOn(t: Table, kind: ArtifactType, picked: set<nat>) {
    && (forall i :: i in picked ==> Candidate(t, kind, i))
    && (forall i: nat, j: nat :: i in picked && SameGroup(t, kind, i, j) ==> !SortsBefore(t[j], t[i]))
    && (forall i: nat :: Candidate(t, kind, i) ==> exists j :: j in picked && SameGroup(t, kind, i, j))
    && (forall i, j :: i in picked && j in picked && SameGroup(t, kind, i, j) ==> i == j)
  }

  predicate Candidate(t: Table, kind: ArtifactType, i: nat) {
    i < |t| && Active(t[i]) && t[i].kind == kind
  }

  predicate SameGroup(t: Table, kind: ArtifactType, i: nat, j: nat) {
    && Candidate(t, kind, i) && Candidate(t, kind, j)
    && ScopeColumn(t[i].scope) == ScopeColumn(t[j].scope)
    && SubjectColumn(t[i].scope) == SubjectColumn(t[j].scope)
    && t[i].slug == t[j].slug
  }

  /** version DESC puts NULL first. */
  predicate SortsBefore(a: Row, b: Row) {
    b.version.Some? && (a.version.None? || a.version.value > b.version.value)
  }

  /** get_artifact_by_slug without a version: active rows of the key, version DESC, LIMIT 1. */
  ghost predicate IsLookup(t: Table, key: Key, result: Option<nat>) {
    match result
    case None => !HasActive(t, key)
    case Some(i) =>
      && i < |t| && Matches(t[i], key) && Active(t[i])
      && forall j :: 0 <= j < |t| && Matches(t[j], key) && Active(t[j]) ==> !SortsBefore(t[j], t[i])
  }

  lemma {:induction false} VersionNamesRow(t: Table, key: Key, i: nat, j: nat)
    requires OneToN(Versions(t, key)) && i < j < |t|
    requires Matches(t[i], key) && Matches(t[j], key) && t[i].version.Some? && t[j].version.Some?
    ensures t[i].version != t[j].version
  {
    var rest := t[..|t| - 1];
    var vs := Versions(t, key);
    assert Versions(rest, key) == vs || Versions(rest, key) == vs[..|vs| - 1];
    if j == |t| - 1 {
      assert vs == Versions(rest, key) + [t[j].version.value];
      assert t[j].version.value == vs[|vs| - 1] == |vs|;
      assert rest[i] == t[i];
      ListedVersionsAreSmall(rest, key, i);
    } else {
      VersionNamesRow(rest, key, i, j);
    }
  }

  /** On every reachable table, for one scoped type and every named key, the NOT EXISTS filter, the
      DISTINCT ON query and the descending LIMIT 1 lookup select the same row. */
  lemma {:induction false} LatestFormsAgree(es: seq<Event>, kind: ArtifactType, picked: set<nat>, key: Key,
                                            result: Option<nat>, i: nat)
    requires var t := Run(es)[|es|];
             ScopedInline(kind) && IsDistinctOn(t, kind, picked) && key.kind == kind && IsLookup(t, key, result)
    requires var t := Run(es)[|es|]; i < |t| && Matches(t[i], key)
    ensures var t := Run(es)[|es|]; NoNewer(t, i) <==> result == Some(i)
    ensures i in picked <==> result == Some(i)
  {
    var t := Run(es)[|es|];
    VersionsOneToN(es, key);
    NewerIsHigherVersion(t, key);
    forall j, k | 0 <= j < k < |t| && Matches(t[j], key) && Matches(t[k], key) ensures t[j].version != t[k].version {
      VersionNamesRow(t, key, j, k);
    }
    NoNewerIsLookup(t, key, result, i);
    DistinctOnIsLookup(t, kind, picked, key, result, i);
  }

  lemma {:induction false} NewerIsHigherVersion(t: Table, key: Key)
    requires RowsWellShaped(t)
    ensures forall i, j :: 0 <= i < |t| && 0 <= j < |t| && Matches(t[i], key) && t[j].slug.Some? ==>
              (Newer(t[j], t[i]) <==> Matches(t[j], key) && Active(t[j]) && t[j].version.value > t[i].version.value)
  {}

  ghost predicate VersionsDiffer(t: Table, key: Key) {
    && (forall i :: 0 <= i < |t| && Matches(t[i], key) ==> t[i].version.Some?)
    && (forall i, j :: 0 <= i < j < |t| && Matches(t[i], key) && Matches(t[j], key) ==> t[i].version != t[j].version)
  }

  lemma {:induction false} NoNewerIsLookup(t: Table, key: Key, result: Option<nat>, i: nat)
    requires RowsWellShaped(t) && VersionsDiffer(t, key) && IsLookup(t, key, result) && i < |t| && Matches(t[i], key)
    ensures NoNewer(t, i) <==> result == Some(i)
  {
    NewerIsHigherVersion(t, key);
    if result.Some? && result.value != i && Active(t[i]) {
      var r := result.value;
      assert !SortsBefore(t[i], t[r]) && t[r].version != t[i].version;
      assert Newer(t[r], t[i]);
    }
    forall j | 0 <= j < |t| && Newer(t[j], t[i]) ensures Matches(t[j], key) && Active(t[j])
        && SortsBefore(t[j], t[i]) {}
  }

  lemma {:induction false} DistinctOnIsLookup(t: Table, kind: ArtifactType, picked: set<nat>, key: Key,
                                              result: Option<nat>, i: nat)
    requires VersionsDiffer(t, key) && IsDistinctOn(t, kind, picked) && key.kind == kind && IsLookup(t, key, result)
    requires i < |t| && Matches(t[i], key)
    ensures i in picked <==> result == Some(i)
  {
    if i in picked {
      assert HasActive(t, key);
      var r := result.value;
      assert SameGroup(t, kind, i, r);
      assert !SortsBefore(t[r], t[i]) && !SortsBefore(t[i], t[r]);
    }
    if result == Some(i) {
      assert Candidate(t, kind, i);
      var j :| j in picked && SameGroup(t, kind, i, j);
      assert SameGroup(t, kind, j, i);
      assert !SortsBefore(t[i], t[j]) && !SortsBefore(t[j], t[i]);
    }
  }

  // ---------------------------------------------------------------- archiving

  lemma {:induction false} ArchivedRows(before: Table, key: Key, t: Table)
    requires t == ArchivedBySlug(before, key)
    ensures ArchivedBySlug(t, key) == t && !HasActive(t, key) && Versions(t, key) == Versions(before, key)
  {
    SameVersions(before, t, key);
  }

  /** After archiving a slug its lookup is empty, archiving it again flips nothing, and an owner's next
      new-slug create from fresh reads takes the next version after all it ever stored. */
  lemma {:induction false} ArchivedSlugStartsOver(es: seq<Event>, key: Key)
    requires WellShaped(key) && ValidNamedSlug(key.slug) && Versions(Run(es)[|es|], key) != []
    ensures var after := es + [ArchiveSlug(key)];
            var t := Run(after)[|after|];
            && !HasActive(t, key)
            && ArchivedBySlug(t, key) == t
            && Attempt(Run(after), Create(key, true, |after|, |after|)) == Ok(|Versions(Run(es)[|es|], key)| + 1)
  {
    var after := es + [ArchiveSlug(key)];
    assert after[..|es|] == es;
    var before, t := Run(es)[|es|], Run(after)[|after|];
    ArchivedRows(before, key, t);
    FreshCreateExactly(after, key, true);
    if OwnedByOtherType(t, key) {
      OwnerBlocksFirstVersion(after, key);
    }
  }

  /** Archiving a slug marks exactly its active rows, as archived and not as deleted, so that no other key's
      lookup, activity or versions change. */
  lemma {:induction false} ArchivingLeavesOthers(t: Table, key: Key, other: Key, result: Option<nat>)
    requires other != key
    ensures var after := ArchivedBySlug(t, key);
            && (forall i :: 0 <= i < |t| ==>
                  after[i] == t[i].(archived := t[i].archived || (!t[i].deleted && t[i].slug == Some(key.slug)
                                                && t[i].kind == key.kind && t[i].scope == key.scope)))
            && (IsLookup(after, other, result) <==> IsLookup(t, other, result))
            && (HasActive(after, other) <==> HasActive(t, other)) && Versions(after, other) == Versions(t, other)
  {
    var after := ArchivedBySlug(t, key);
    forall i | 0 <= i < |t| ensures Matches(t[i], other) <==> Matches(after[i], other) {}
    forall i | 0 <= i < |t| && Matches(t[i], other) ensures after[i] == t[i] {}
    SameVersions(t, after, other);
    assert HasActive(after, other) <==> HasActive(t, other) by {
      if i :| 0 <= i < |t| && Matches(t[i], other) && Active(t[i]) {
        assert Matches(after[i], other) && Active(after[i]);
      }
      if i :| 0 <= i < |after| && Matches(after[i], other) && Active(after[i]) {
        assert Matches(t[i], other) && Active(t[i]);
      }
    }
  }

  /** Event k marks row i as archived: by its number, or with the other active rows of its key. */
  predicate Archives(before: Table, e: Event, i: nat) {
    i < |before| && !before[i].deleted &&
    match e
    case Archive(row) => row == i
    case ArchiveSlug(key) =>
      && !before[i].archived && before[i].slug == Some(key.slug)
      && before[i].kind == key.kind && before[i].scope == key.scope
    case _ => false
  }

  ghost predicate ArchivedIn(es: seq<Event>, i: nat) {
    exists k :: 0 <= k < |es| && Archives(Run(es)[k], es[k], i)
  }

  ghost predicate DeletedIn(es: seq<Event>, i: nat) {
    exists k :: 0 <= k < |es| && es[k] == SoftDelete(i) && i < |Run(es)[k]|
  }

  lemma {:induction false} RunPrefix(es: seq<Event>, k: nat)
    requires es != [] && k < |es|
    ensures Run(es)[k] == Run(es[..|es| - 1])[k]
  {}

  lemma {:induction false} FlagsStep(h: History, e: Event, i: nat)
    requires h != [] && i < |Commit(h, e)|
    ensures var before, after := h[|h| - 1], Commit(h, e)[i];
            if i < |before| then
              && after.archived == (before[i].archived || Archives(before, e, i))
              && after.deleted == (before[i].deleted || e == SoftDelete(i))
            else !after.archived && !after.deleted
  {}

  lemma {:induction false} MarkedStep(es: seq<Event>, i: nat)
    requires es != []
    ensures var front, now := es[..|es| - 1], Run(es)[|es| - 1];
            && (ArchivedIn(es, i) <==> ArchivedIn(front, i) || Archives(now, es[|es| - 1], i))
            && (DeletedIn(es, i) <==> DeletedIn(front, i) || (es[|es| - 1] == SoftDelete(i) && i < |now|))
  {
    var front := es[..|es| - 1];
    forall k | 0 <= k < |front| ensures Run(es)[k] == Run(front)[k] && es[k] == front[k] {
      RunPrefix(es, k);
    }
  }

  lemma {:induction false} UnbornHasNoFlags(es: seq<Event>, i: nat)
    requires |Run(es)[|es|]| <= i
    ensures !ArchivedIn(es, i) && !DeletedIn(es, i)
  {
    forall k | 0 <= k < |es| ensures |Run(es)[k]| <= i {
      RunGrows(es, k, |es|);
    }
  }

  /** Over every run a row is archived exactly when an event archived it while it was undeleted, and deleted exactly
      when an event deleted it; no other event, on other rows or other keys, does either. */
  lemma {:induction false} FlagsExactly(es: seq<Event>, i: nat)
    requires i < |Run(es)[|es|]|
    ensures var row := Run(es)[|es|][i]; (row.archived <==> ArchivedIn(es, i)) && (row.deleted <==> DeletedIn(es, i))
  {
    if es != [] {
      var front, e := es[..|es| - 1], es[|es| - 1];
      var h := Run(front);
      FlagsStep(h, e, i);
      RunPrefix(es, |front|);
      MarkedStep(es, i);
      if i < |h[|front|]| {
        FlagsExactly(front, i);
      } else {
        UnbornHasNoFlags(front, i);
      }
    }
  }

  // ---------------------------------------------------------------- the transactions

  function CountActive(t: Table, key: Key): nat {
    if t == [] then 0
    else CountActive(t[..|t| - 1], key) + (if Matches(t[|t| - 1], key) && Active(t[|t| - 1]) then 1 else 0)
  }

  lemma {:induction false} CountActiveIsZero(t: Table, key: Key)
    ensures CountActive(t, key) == 0 <==> !HasActive(t, key)
  {
    if t != [] {
      var rest := t[..|t| - 1];
      CountActiveIsZero(rest, key);
      if HasActive(rest, key) {
        var i :| 0 <= i < |rest| && Matches(rest[i], key) && Active(rest[i]);
        assert Matches(t[i], key) && Active(t[i]);
      }
      if HasActive(t, key) {
        var i :| 0 <= i < |t| && Matches(t[i], key) && Active(t[i]);
        assert i < |rest| ==> Matches(rest[i], key);
      }
    }
  }

  /** What the loop has made of the table before row i. */
  function ArchivedUpTo(t: Table, key: Key, i: nat): Table
    requires i <= |t|
  {
    ArchivedBySlug(t[..i], key) + t[i..]
  }

  lemma {:induction false} ArchiveNext(t: Table, key: Key, i: nat)
    requires i < |t|
    ensures var now, next := ArchivedUpTo(t, key, i), ArchivedUpTo(t, key, i + 1);
            var hit := Matches(t[i], key) && Active(t[i]);
            && now[i] == t[i]
            && next == (if hit then now[i := t[i].(archived := true)] else now)
            && CountActive(t[..i + 1], key) == CountActive(t[..i], key) + if hit then 1 else 0
  {
    assert t[..i + 1][..i] == t[..i];
  }

  lemma {:induction false} ArchivedAll(t: Table, key: Key)
    ensures t[..|t|] == t && ArchivedUpTo(t, key, |t|) == ArchivedBySlug(t, key)
    ensures CountActive(t, key) == 0 <==> !HasActive(t, key)
  {
    CountActiveIsZero(t, key);
  }

  class Store {
    var rows: Table

    constructor ()
      ensures rows == []
    {
      rows := [];
    }

    /** create_artifact, with or without a slug; the two tables are what its reads returned. */
    method CreateArtifact(kind: ArtifactType, scope: Scope, slug: Option<string>, createNew: bool,
                          maxSeen: Table, activeSeen: Table)
      returns (r: Result<Option<int>, CreateError>)
      modifies this
      ensures r.Err? ==> rows == old(rows)
      ensures r.Ok? ==> rows == old(rows) + [Row(kind, scope, slug, r.value, false, false)]
      ensures r.Ok? && slug.Some? ==>
                r.value.Some? && IndexAdmits(old(rows), Key(kind, scope, slug.value), r.value.value)
      ensures slug.None? ==>
                r == if !WellShaped(Key(kind, scope, "")) then Err(BadScope)
                     else if createNew then Err(SlugRequired) else Ok(None)
      ensures slug.Some? ==>
                var key := Key(kind, scope, slug.value);
                var v := NextVersion(key, createNew, MaxVersion(maxSeen, key), HasActive(activeSeen, key));
                r == if v.Err? then Err(v.error)
                     else if !IndexAdmits(old(rows), key, v.value) then Err(Collision) else Ok(Some(v.value))
    {
      if slug.None? {
        if !WellShaped(Key(kind, scope, "")) {
          return Err(BadScope);
        }
        if createNew {
          return Err(SlugRequired);
        }
        rows := rows + [Row(kind, scope, None, None, false, false)];
        return Ok(None);
      }
      var key := Key(kind, scope, slug.value);
      var v := NextVersion(key, createNew, MaxVersion(maxSeen, key), HasActive(activeSeen, key));
      if v.Err? {
        return Err(v.error);
      }
      if !IndexAdmits(rows, key, v.value) {
        return Err(Collision);
      }
      rows := rows + [NewRow(key, v.value)];
      r := Ok(Some(v.value));
    }

    method ArchiveRow(ghost start: Table, key: Key, i: nat) returns (hit: bool)
      requires i < |start| == |rows| && rows == ArchivedUpTo(start, key, i)
      modifies this
      ensures |start| == |rows| && rows == ArchivedUpTo(start, key, i + 1)
      ensures hit <==> Matches(start[i], key) && Active(start[i])
      ensures CountActive(start[..i + 1], key) == CountActive(start[..i], key) + One(hit)
    {
      ArchiveNext(start, key, i);
      hit := Matches(rows[i], key) && Active(rows[i]);
      if hit {
        rows := rows[i := rows[i].(archived := true)];
      }
    }

    /** Row by row over what the query selected: this key's active rows. */
    method ArchiveArtifactsBySlug(key: Key) returns (flipped: nat)
      modifies this
      ensures rows == ArchivedBySlug(old(rows), key)
      ensures flipped == CountActive(old(rows), key)
      ensures flipped == 0 <==> !HasActive(old(rows), key)
    {
      flipped := 0;
      ghost var start := rows;
      for i := 0 to |rows|
        invariant |rows| == |start|
        invariant rows == ArchivedUpTo(start, key, i)
        invariant flipped == CountActive(start[..i], key)
      {
        var hit := ArchiveRow(start, key, i);
        flipped := flipped + One(hit);
      }
      ArchivedAll(start, key);
    }

    method ArchiveArtifact(row: nat) returns (found: bool)
      modifies this
      ensures found <==> row < |old(rows)| && !old(rows)[row].deleted
      ensures rows == if found then old(rows)[row := old(rows)[row].(archived := true)] else old(rows)
    {
      found := row < |rows| && !rows[row].deleted;
      if found {
        rows := rows[row := rows[row].(archived := true)];
      }
    }
  }
}
