/**
 * The timed cache of an async function, as coroutine steps between awaits: lookups that hit, wait for
 * the key's lock or compute, and background refreshes, interleaved in any order.
 */
module AsyncCache {
  import opened Common

  type Key = nat

  type Value = nat

  datatype Entry = Entry(value: Value, added: int)

  /** One lookup: waiting for a lock object, computing under it, returned, raised by the function, or cancelled
      while waiting. */
  datatype Lookup =
    | Queued(key: Key, now: int, lock: nat)
    | Computing(key: Key, now: int, lock: nat)
    | Returned(key: Key, value: Value)
    | Raised(key: Key)
    | Abandoned(key: Key)

  /** One background refresh: scheduled, running the function, or over. */
  datatype Refresh = Scheduled(key: Key) | Refreshing(key: Key) | Over(key: Key)

  datatype State = State(
    maxsize: nat,
    seconds: int,
    cache: map<Key, Entry>,
    order: seq<Key>,
    locks: map<Key, nat>,
    nextLock: nat,
    held: set<nat>,
    isRefreshing: set<Key>,
    lookups: seq<Lookup>,
    refreshers: seq<Refresh>,
    hits: nat,
    misses: nat,
    refreshes: nat,
    evictions: nat,
    produced: set<(Key, Value)>)

  datatype Event =
    | Call(key: Key, now: int, wantsRefresh: bool)
    | Acquire(c: nat, wantsRefresh: bool)
    | ComputeDone(c: nat, value: Value)
    | ComputeFail(c: nat)
    | CancelWait(c: nat)
    | RefreshStart(r: nat)
    | RefreshDone(r: nat, value: Value, now: int)
    | RefreshFail(r: nat)

  function Initial(maxsize: nat, seconds: int): State {
    State(maxsize, seconds, map[], [], map[], 0, {}, {}, [], [], 0, 0, 0, 0, {})
  }

  function Without(order: seq<Key>, key: Key): seq<Key> {
    if order == [] then []
    else if order[0] == key then order[1..]
    else [order[0]] + Without(order[1..], key)
  }

  /** Assigning a dict item keeps the position of a key that is there already. */
  function Put(s: State, key: Key, e: Entry): State {
    s.(cache := s.cache[key := e], order := if key in s.cache then s.order else s.order + [key])
  }

  function Schedule(s: State, key: Key): State {
    if key in s.isRefreshing then s
    else s.(refreshes := s.refreshes + 1, refreshers := s.refreshers + [Scheduled(key)])
  }

  /** A hit: a fresh entry moves to the end and may be refreshed early, a stale one is served and refreshed. */
  function HandleHit(s: State, key: Key, now: int, wantsRefresh: bool): State
    requires key in s.cache
  {
    var s' :=
      if now - s.cache[key].added <= s.seconds then
        (if wantsRefresh then Schedule(s, key) else s).(order := Without(s.order, key) + [key])
      else Schedule(s, key);
    s'.(hits := s.hits + 1)
  }

  function StartLookup(s: State, key: Key, now: int, wantsRefresh: bool): State {
    if key in s.cache then
      HandleHit(s, key, now, wantsRefresh).(lookups := s.lookups + [Returned(key, s.cache[key].value)])
    else
      var s' := if key in s.locks then s else s.(locks := s.locks[key := s.nextLock], nextLock := s.nextLock + 1);
      s'.(lookups := s.lookups + [Queued(key, now, s'.locks[key])])
  }

  function SetLookup(s: State, c: nat, l: Lookup): State
    requires c < |s.lookups|
  {
    s.(lookups := s.lookups[c := l])
  }

  predicate CanAcquire(s: State, c: nat) {
    c < |s.lookups| && s.lookups[c].Queued? && s.lookups[c].lock !in s.held
  }

  function Evict(s: State): State
    requires s.order != []
  {
    var oldest := s.order[0];
    s.(cache := s.cache - {oldest}, order := s.order[1..], locks := s.locks - {oldest}, evictions := s.evictions + 1)
  }

  /** With the lock: look again, then evict if the cache is full and call the function holding the lock.
      Evicting from an empty cache (maxsize 0) raises. */
  function Enter(s: State, c: nat, wantsRefresh: bool): State
    requires CanAcquire(s, c)
  {
    var l := s.lookups[c];
    if l.key in s.cache then
      SetLookup(HandleHit(s, l.key, l.now, wantsRefresh), c, Returned(l.key, s.cache[l.key].value))
    else
      var s' := s.(misses := s.misses + 1);
      if |s.cache| < s.maxsize then Computes(s', c)
      else if s.order == [] then SetLookup(s', c, Raised(l.key))
      else Computes(Evict(s'), c)
  }

  function Computes(s: State, c: nat): State
    requires c < |s.lookups| && s.lookups[c].Queued?
  {
    var l := s.lookups[c];
    SetLookup(s, c, Computing(l.key, l.now, l.lock)).(held := s.held + {l.lock})
  }

  predicate IsComputing(s: State, c: nat) {
    c < |s.lookups| && s.lookups[c].Computing?
  }

  predicate IsScheduled(s: State, r: nat) {
    r < |s.refreshers| && s.refreshers[r].Scheduled?
  }

  predicate IsRefreshing(s: State, r: nat) {
    r < |s.refreshers| && s.refreshers[r].Refreshing?
  }

  function Release(s: State, c: nat, l: Lookup): State
    requires IsComputing(s, c)
  {
    SetLookup(s, c, l).(held := s.held - {s.lookups[c].lock})
  }

  /** The function returned: store with the time of the call, return, release the lock. */
  function Store(s: State, c: nat, value: Value): State
    requires IsComputing(s, c)
  {
    var l := s.lookups[c];
    Put(Release(s, c, Returned(l.key, value)), l.key, Entry(value, l.now)).(produced := s.produced + {(l.key, value)})
  }

  function Begin(s: State, r: nat): State
    requires IsScheduled(s, r)
  {
    var key := s.refreshers[r].key;
    if key in s.isRefreshing then s.(refreshers := s.refreshers[r := Over(key)])
    else s.(refreshers := s.refreshers[r := Refreshing(key)], isRefreshing := s.isRefreshing + {key})
  }

  function End(s: State, r: nat): State
    requires IsRefreshing(s, r)
  {
    var key := s.refreshers[r].key;
    s.(refreshers := s.refreshers[r := Over(key)], isRefreshing := s.isRefreshing - {key})
  }

  function Refreshed(s: State, r: nat, value: Value, now: int): State
    requires IsRefreshing(s, r)
  {
    var key := s.refreshers[r].key;
    Put(End(s, r), key, Entry(value, now)).(produced := s.produced + {(key, value)})
  }

  function Step(s: State, e: Event): State {
    match e
    case Call(key, now, wantsRefresh) => StartLookup(s, key, now, wantsRefresh)
    case Acquire(c, wantsRefresh) => if CanAcquire(s, c) then Enter(s, c, wantsRefresh) else s
    case ComputeDone(c, value) => if IsComputing(s, c) then Store(s, c, value) else s
    case ComputeFail(c) => if IsComputing(s, c) then Release(s, c, Raised(s.lookups[c].key)) else s
    case CancelWait(c) =>
      if c < |s.lookups| && s.lookups[c].Queued? then SetLookup(s, c, Abandoned(s.lookups[c].key)) else s
    case RefreshStart(r) => if IsScheduled(s, r) then Begin(s, r) else s
    case RefreshDone(r, value, now) => if IsRefreshing(s, r) then Refreshed(s, r, value, now) else s
    case RefreshFail(r) => if IsRefreshing(s, r) then End(s, r) else s
  }

  function Run(s: State, es: seq<Event>): State {
    if es == [] then s else Step(Run(s, es[..|es| - 1]), es[|es| - 1])
  }

  /** What a hit leaves alone. */
  lemma {:induction false} HitFrame(s: State, key: Key, now: int, wantsRefresh: bool)
    requires key in s.cache
    ensures var s' := HandleHit(s, key, now, wantsRefresh);
            && s'.(order := s.order, hits := s.hits, refreshes := s.refreshes, refreshers := s.refreshers) == s
            && s'.hits == s.hits + 1
            && (s'.refreshers == s.refreshers || (s'.refreshers == s.refreshers + [Scheduled(key)]
                && key !in s.isRefreshing))
  {}

  // ---------------------------------------------------------------- values come from the function

  ghost predicate CacheGenuine(cache: map<Key, Entry>, produced: set<(Key, Value)>) {
    forall k :: k in cache ==> (k, cache[k].value) in produced
  }

  ghost predicate AnswerGenuine(l: Lookup, produced: set<(Key, Value)>) {
    l.Returned? ==> (l.key, l.value) in produced
  }

  ghost predicate Genuine(s: State) {
    && CacheGenuine(s.cache, s.produced)
    && forall c :: 0 <= c < |s.lookups| ==> AnswerGenuine(s.lookups[c], s.produced)
  }

  lemma {:induction false} CallKeepsGenuine(s: State, key: Key, now: int, wantsRefresh: bool)
    requires Genuine(s)
    ensures Genuine(StartLookup(s, key, now, wantsRefresh))
  {
    if key in s.cache {
      HitFrame(s, key, now, wantsRefresh);
    }
  }

  lemma {:induction false} SettleKeepsGenuine(s: State, s': State, c: nat, l: Lookup)
    requires Genuine(s) && c < |s.lookups|
    requires s'.lookups == s.lookups[c := l] && s.produced <= s'.produced
    requires CacheGenuine(s'.cache, s'.produced) && AnswerGenuine(l, s'.produced)
    ensures Genuine(s')
  {}

  lemma {:induction false} EnterKeepsGenuine(s: State, c: nat, wantsRefresh: bool)
    requires Genuine(s) && CanAcquire(s, c)
    ensures Genuine(Enter(s, c, wantsRefresh))
  {
    var s' := Enter(s, c, wantsRefresh);
    if s.lookups[c].key in s.cache {
      HitFrame(s, s.lookups[c].key, s.lookups[c].now, wantsRefresh);
    }
    SettleKeepsGenuine(s, s', c, s'.lookups[c]);
  }

  lemma {:induction false} StoreKeepsGenuine(s: State, c: nat, value: Value)
    requires Genuine(s) && IsComputing(s, c)
    ensures Genuine(Store(s, c, value))
  {
    var s' := Store(s, c, value);
    SettleKeepsGenuine(s, s', c, s'.lookups[c]);
  }

  lemma {:induction false} StepKeepsGenuine(s: State, e: Event)
    requires Genuine(s)
    ensures Genuine(Step(s, e))
  {
    match e
    case Call(key, now, wantsRefresh) => CallKeepsGenuine(s, key, now, wantsRefresh);
    case Acquire(c, wantsRefresh) => if CanAcquire(s, c) { EnterKeepsGenuine(s, c, wantsRefresh); }
    case ComputeDone(c, value) => if IsComputing(s, c) { StoreKeepsGenuine(s, c, value); }
    case _ =>
  }

  /** Whatever is evicted, refreshed or raised: every value cached or returned was produced by the function
      for that key. */
  lemma {:induction false} ValuesComeFromTheFunction(maxsize: nat, seconds: int, es: seq<Event>)
    ensures Genuine(Run(Initial(maxsize, seconds), es))
  {
    if es != [] {
      ValuesComeFromTheFunction(maxsize, seconds, es[..|es| - 1]);
      StepKeepsGenuine(Run(Initial(maxsize, seconds), es[..|es| - 1]), es[|es| - 1]);
    }
  }

  // ---------------------------------------------------------------- every lookup is counted once

  datatype Kind = InQueue | InFunction | Answer | Error | Cancelled

  function KindOf(l: Lookup): Kind {
    match l
    case Queued(_, _, _) => InQueue
    case Computing(_, _, _) => InFunction
    case Returned(_, _) => Answer
    case Raised(_) => Error
    case Abandoned(_) => Cancelled
  }

  function One(l: Lookup, kind: Kind): nat {
    if KindOf(l) == kind then 1 else 0
  }

  function Count(lookups: seq<Lookup>, kind: Kind): nat {
    if lookups == [] then 0 else Count(lookups[..|lookups| - 1], kind) + One(lookups[|lookups| - 1], kind)
  }

  lemma {:induction false} CountUpdate(lookups: seq<Lookup>, c: nat, l: Lookup, kind: Kind)
    requires c < |lookups|
    ensures Count(lookups[c := l], kind) == Count(lookups, kind) + One(l, kind) - One(lookups[c], kind)
  {
    var n := |lookups| - 1;
    if c == n {
      assert lookups[c := l][..n] == lookups[..n];
    } else {
      CountUpdate(lookups[..n], c, l, kind);
      assert lookups[c := l][..n] == lookups[..n][c := l];
    }
  }

  lemma {:induction false} CountAppend(lookups: seq<Lookup>, l: Lookup, kind: Kind)
    ensures Count(lookups + [l], kind) == Count(lookups, kind) + One(l, kind)
  {
    assert (lookups + [l])[..|lookups|] == lookups;
  }

  /** Lookups are counted when they hit or miss; misses end as errors or stored entries. */
  ghost predicate Counted(s: State) {
    |s.lookups| == s.hits + s.misses + Count(s.lookups, InQueue) + Count(s.lookups, Cancelled)
  }

  lemma {:induction false} CountsOfUpdate(s: State, s': State, c: nat)
    requires c < |s.lookups| && |s'.lookups| == |s.lookups| && s'.lookups == s.lookups[c := s'.lookups[c]]
    ensures forall k: Kind :: Count(s'.lookups, k) == Count(s.lookups, k) + One(s'.lookups[c], k) - One(s.lookups[c], k)
  {
    forall k: Kind
      ensures Count(s'.lookups, k) == Count(s.lookups, k) + One(s'.lookups[c], k) - One(s.lookups[c], k)
    {
      CountUpdate(s.lookups, c, s'.lookups[c], k);
    }
  }

  lemma {:induction false} CallKeepsCount(s: State, key: Key, now: int, wantsRefresh: bool)
    requires Counted(s)
    ensures Counted(StartLookup(s, key, now, wantsRefresh))
  {
    var s' := StartLookup(s, key, now, wantsRefresh);
    var l := s'.lookups[|s.lookups|];
    CountAppend(s.lookups, l, InQueue);
    CountAppend(s.lookups, l, Cancelled);
    if key in s.cache {
      HitFrame(s, key, now, wantsRefresh);
    }
  }

  lemma {:induction false} EnterKeepsCount(s: State, c: nat, wantsRefresh: bool)
    requires Counted(s) && CanAcquire(s, c)
    ensures Counted(Enter(s, c, wantsRefresh))
  {
    var s' := Enter(s, c, wantsRefresh);
    if s.lookups[c].key in s.cache {
      HitFrame(s, s.lookups[c].key, s.lookups[c].now, wantsRefresh);
    }
    CountsOfUpdate(s, s', c);
  }

  lemma {:induction false} StepKeepsCount(s: State, e: Event)
    requires Counted(s)
    ensures Counted(Step(s, e))
  {
    match e
    case Call(key, now, wantsRefresh) => CallKeepsCount(s, key, now, wantsRefresh);
    case Acquire(c, wantsRefresh) => if CanAcquire(s, c) { EnterKeepsCount(s, c, wantsRefresh); }
    case ComputeDone(c, value) => if IsComputing(s, c) { CountsOfUpdate(s, Step(s, e), c); }
    case ComputeFail(c) => if IsComputing(s, c) { CountsOfUpdate(s, Step(s, e), c); }
    case CancelWait(c) => if c < |s.lookups| && s.lookups[c].Queued? { CountsOfUpdate(s, Step(s, e), c); }
    case _ =>
  }

  /** Hits and misses count each lookup once: what is missing is still waiting or was cancelled while waiting. */
  lemma {:induction false} HitsAndMissesCountLookups(maxsize: nat, seconds: int, es: seq<Event>, s: State)
    requires s == Run(Initial(maxsize, seconds), es)
    ensures |s.lookups| == s.hits + s.misses + Count(s.lookups, InQueue) + Count(s.lookups, Cancelled)
  {
    if es != [] {
      var before := Run(Initial(maxsize, seconds), es[..|es| - 1]);
      HitsAndMissesCountLookups(maxsize, seconds, es[..|es| - 1], before);
      StepKeepsCount(before, es[|es| - 1]);
    }
  }

  // ---------------------------------------------------------------- refreshes

  /** No two refresh bodies run for one key, and the running ones are marked. */
  ghost predicate RefreshOnce(refreshers: seq<Refresh>, marked: set<Key>) {
    && (forall r :: 0 <= r < |refreshers| ==> (refreshers[r].Refreshing? ==> refreshers[r].key in marked))
    && (forall q, r :: 0 <= q < r < |refreshers| ==> !SameRefresh(refreshers[q], refreshers[r]))
  }

  ghost predicate SameRefresh(a: Refresh, b: Refresh) {
    a.Refreshing? && b.Refreshing? && a.key == b.key
  }

  lemma {:induction false} BeginKeepsRefreshOnce(s: State, r: nat)
    requires RefreshOnce(s.refreshers, s.isRefreshing) && IsScheduled(s, r)
    ensures RefreshOnce(Begin(s, r).refreshers, Begin(s, r).isRefreshing)
  {}

  lemma {:induction false} EndKeepsRefreshOnce(s: State, r: nat)
    requires RefreshOnce(s.refreshers, s.isRefreshing) && IsRefreshing(s, r)
    ensures RefreshOnce(End(s, r).refreshers, End(s, r).isRefreshing)
  {
    var key := s.refreshers[r].key;
    forall q | 0 <= q < |s.refreshers| && q != r ensures s.refreshers[q].Refreshing? ==> s.refreshers[q].key != key {
      assert !SameRefresh(s.refreshers[if q < r then q else r], s.refreshers[if q < r then r else q]);
    }
  }

  lemma {:induction false} CallFrame(s: State, key: Key, now: int, wantsRefresh: bool)
    ensures var s' := StartLookup(s, key, now, wantsRefresh);
            && s'.isRefreshing == s.isRefreshing && s'.cache == s.cache
            && (s'.refreshers == s.refreshers || (s'.refreshers == s.refreshers + [Scheduled(key)] && key in s.cache))
  {
    if key in s.cache {
      HitFrame(s, key, now, wantsRefresh);
    }
  }

  lemma {:induction false} EnterFrame(s: State, c: nat, wantsRefresh: bool)
    requires CanAcquire(s, c)
    ensures var s', key := Enter(s, c, wantsRefresh), s.lookups[c].key;
            && s'.isRefreshing == s.isRefreshing
            && (s'.evictions == s.evictions ==> s'.cache == s.cache && s'.locks == s.locks)
            && (s'.refreshers == s.refreshers || (s'.refreshers == s.refreshers + [Scheduled(key)] && key in s.cache))
  {
    if s.lookups[c].key in s.cache {
      HitFrame(s, s.lookups[c].key, s.lookups[c].now, wantsRefresh);
    }
  }

  lemma {:induction false} StepKeepsRefreshOnce(s: State, e: Event)
    requires RefreshOnce(s.refreshers, s.isRefreshing)
    ensures RefreshOnce(Step(s, e).refreshers, Step(s, e).isRefreshing)
  {
    match e
    case Call(key, now, wantsRefresh) => CallFrame(s, key, now, wantsRefresh);
    case Acquire(c, wantsRefresh) => if CanAcquire(s, c) { EnterFrame(s, c, wantsRefresh); }
    case RefreshStart(r) => if IsScheduled(s, r) { BeginKeepsRefreshOnce(s, r); }
    case RefreshDone(r, _, _) => if IsRefreshing(s, r) { EndKeepsRefreshOnce(s, r); }
    case RefreshFail(r) => if IsRefreshing(s, r) { EndKeepsRefreshOnce(s, r); }
    case _ =>
  }

  /** Even with evictions, a key has at most one refresh body in flight. */
  lemma {:induction false} OneRefreshPerKey(maxsize: nat, seconds: int, es: seq<Event>)
    ensures var s := Run(Initial(maxsize, seconds), es); RefreshOnce(s.refreshers, s.isRefreshing)
  {
    if es != [] {
      OneRefreshPerKey(maxsize, seconds, es[..|es| - 1]);
      StepKeepsRefreshOnce(Run(Initial(maxsize, seconds), es[..|es| - 1]), es[|es| - 1]);
    }
  }

  // ---------------------------------------------------------------- single flight

  /** Each key has its own lock; waiting and computing lookups use the lock of their key, and a key being
      computed is not cached. */
  ghost predicate Fits(locks: map<Key, nat>, nextLock: nat, held: set<nat>, cached: set<Key>, lookups: seq<Lookup>) {
    && OwnLocks(locks, nextLock)
    && (forall c :: 0 <= c < |lookups| ==> Placed(locks, held, cached, lookups[c]))
    && (forall b, c :: 0 <= b < c < |lookups| ==> !SameComputation(lookups[b], lookups[c]))
  }

  ghost predicate OwnLocks(locks: map<Key, nat>, nextLock: nat) {
    && (forall k :: k in locks ==> locks[k] < nextLock)
    && (forall j, k :: j in locks && k in locks && locks[j] == locks[k] ==> j == k)
  }

  ghost predicate Placed(locks: map<Key, nat>, held: set<nat>, cached: set<Key>, l: Lookup) {
    && (l.Queued? ==> l.key in locks && locks[l.key] == l.lock)
    && (l.Computing? ==> l.key in locks && locks[l.key] == l.lock && l.lock in held && l.key !in cached)
  }

  ghost predicate SameComputation(a: Lookup, b: Lookup) {
    a.Computing? && b.Computing? && a.key == b.key
  }

  lemma {:induction false} AppendFits(locks: map<Key, nat>, nextLock: nat, held: set<nat>, cached: set<Key>,
                                      lookups: seq<Lookup>, l: Lookup)
    requires Fits(locks, nextLock, held, cached, lookups)
    requires !l.Computing? && Placed(locks, held, cached, l)
    ensures Fits(locks, nextLock, held, cached, lookups + [l])
  {}

  lemma {:induction false} NewLockFits(locks: map<Key, nat>, nextLock: nat, held: set<nat>, cached: set<Key>,
                                       lookups: seq<Lookup>, key: Key)
    requires Fits(locks, nextLock, held, cached, lookups) && key !in locks
    ensures Fits(locks[key := nextLock], nextLock + 1, held, cached, lookups)
  {
    var locks' := locks[key := nextLock];
    forall c | 0 <= c < |lookups| ensures Placed(locks', held, cached, lookups[c]) {
      assert Placed(locks, held, cached, lookups[c]);
    }
  }

  lemma {:induction false} SettleFits(locks: map<Key, nat>, nextLock: nat, held: set<nat>, cached: set<Key>,
                                      lookups: seq<Lookup>, c: nat, l: Lookup)
    requires Fits(locks, nextLock, held, cached, lookups)
    requires c < |lookups| && !l.Computing? && !l.Queued?
    ensures Fits(locks, nextLock, held, cached, lookups[c := l])
  {}

  lemma {:induction false} EnterFits(locks: map<Key, nat>, nextLock: nat, held: set<nat>, cached: set<Key>,
                                     lookups: seq<Lookup>, c: nat)
    requires Fits(locks, nextLock, held, cached, lookups)
    requires c < |lookups| && lookups[c].Queued? && lookups[c].lock !in held && lookups[c].key !in cached
    ensures var l := lookups[c];
            Fits(locks, nextLock, held + {l.lock}, cached, lookups[c := Computing(l.key, l.now, l.lock)])
  {
    var l := lookups[c];
    assert Placed(locks, held, cached, l);
    var after := lookups[c := Computing(l.key, l.now, l.lock)];
    forall b | 0 <= b < |lookups|
      ensures Placed(locks, held + {l.lock}, cached, after[b])
      ensures b != c ==> !SameComputation(after[b], after[c])
    {
      assert Placed(locks, held, cached, lookups[b]);
    }
  }

  /** A computation ends: its key may now be cached, and its lock is free. */
  lemma {:induction false} LeaveFits(locks: map<Key, nat>, nextLock: nat, held: set<nat>, cached: set<Key>,
                                     lookups: seq<Lookup>, c: nat, l: Lookup, stored: set<Key>)
    requires Fits(locks, nextLock, held, cached, lookups)
    requires c < |lookups| && lookups[c].Computing? && !l.Computing? && !l.Queued?
    requires stored <= {lookups[c].key}
    ensures Fits(locks, nextLock, held - {lookups[c].lock}, cached + stored, lookups[c := l])
  {
    var gone := lookups[c];
    assert Placed(locks, held, cached, gone);
    var after := lookups[c := l];
    forall b | 0 <= b < |lookups| ensures Placed(locks, held - {gone.lock}, cached + stored, after[b]) {
      if b != c {
        assert Placed(locks, held, cached, lookups[b]);
        assert !SameComputation(lookups[if b < c then b else c], lookups[if b < c then c else b]);
      }
    }
  }

  ghost predicate Steady(s: State) {
    && Fits(s.locks, s.nextLock, s.held, s.cache.Keys, s.lookups)
    && forall r :: 0 <= r < |s.refreshers| ==> Tended(s.cache.Keys, s.refreshers[r])
  }

  /** Only cached keys are refreshed. */
  ghost predicate Tended(cached: set<Key>, r: Refresh) {
    r.Over? || r.key in cached
  }

  lemma {:induction false} CallKeepsFit(s: State, key: Key, now: int, wantsRefresh: bool)
    requires Steady(s)
    ensures Steady(StartLookup(s, key, now, wantsRefresh))
  {
    var s' := StartLookup(s, key, now, wantsRefresh);
    CallFrame(s, key, now, wantsRefresh);
    if key in s.cache {
      HitFrame(s, key, now, wantsRefresh);
    } else if key !in s.locks {
      NewLockFits(s.locks, s.nextLock, s.held, s.cache.Keys, s.lookups, key);
    }
    AppendFits(s'.locks, s'.nextLock, s'.held, s'.cache.Keys, s.lookups, s'.lookups[|s.lookups|]);
  }

  lemma {:induction false} EnterKeepsFit(s: State, c: nat, wantsRefresh: bool)
    requires Steady(s) && CanAcquire(s, c) && Enter(s, c, wantsRefresh).evictions == s.evictions
    ensures Steady(Enter(s, c, wantsRefresh))
  {
    var s' := Enter(s, c, wantsRefresh);
    EnterFrame(s, c, wantsRefresh);
    if s.lookups[c].key in s.cache {
      HitFrame(s, s.lookups[c].key, s.lookups[c].now, wantsRefresh);
      SettleFits(s.locks, s.nextLock, s.held, s.cache.Keys, s.lookups, c, s'.lookups[c]);
    } else if |s.cache| < s.maxsize {
      EnterFits(s.locks, s.nextLock, s.held, s.cache.Keys, s.lookups, c);
    } else {
      SettleFits(s.locks, s.nextLock, s.held, s.cache.Keys, s.lookups, c, s'.lookups[c]);
    }
  }

  lemma {:induction false} StoreKeepsFit(s: State, c: nat, value: Value)
    requires Steady(s) && IsComputing(s, c)
    ensures Steady(Store(s, c, value))
  {
    var s', key := Store(s, c, value), s.lookups[c].key;
    LeaveFits(s.locks, s.nextLock, s.held, s.cache.Keys, s.lookups, c, Returned(key, value), {key});
    assert s'.cache.Keys == s.cache.Keys + {key};
    forall r | 0 <= r < |s.refreshers| ensures Tended(s'.cache.Keys, s.refreshers[r]) {
      assert Tended(s.cache.Keys, s.refreshers[r]);
    }
  }

  lemma {:induction false} FailKeepsFit(s: State, c: nat)
    requires Steady(s) && IsComputing(s, c)
    ensures Steady(Release(s, c, Raised(s.lookups[c].key)))
  {
    LeaveFits(s.locks, s.nextLock, s.held, s.cache.Keys, s.lookups, c, Raised(s.lookups[c].key), {});
    assert s.cache.Keys + {} == s.cache.Keys;
  }

  lemma {:induction false} RefreshKeepsFit(s: State, r: nat, value: Value, now: int)
    requires Steady(s) && IsRefreshing(s, r)
    ensures Steady(Refreshed(s, r, value, now))
  {
    var s', key := Refreshed(s, r, value, now), s.refreshers[r].key;
    assert Tended(s.cache.Keys, s.refreshers[r]);
    assert s'.cache.Keys == s.cache.Keys;
  }

  lemma {:induction false} StepKeepsSteady(s: State, e: Event)
    requires Steady(s) && Step(s, e).evictions == s.evictions
    ensures Steady(Step(s, e))
  {
    match e
    case Call(key, now, wantsRefresh) => CallKeepsFit(s, key, now, wantsRefresh);
    case Acquire(c, wantsRefresh) => if CanAcquire(s, c) { EnterKeepsFit(s, c, wantsRefresh); }
    case ComputeDone(c, value) => if IsComputing(s, c) { StoreKeepsFit(s, c, value); }
    case ComputeFail(c) => if IsComputing(s, c) { FailKeepsFit(s, c); }
    case CancelWait(c) =>
      if c < |s.lookups| && s.lookups[c].Queued? {
        SettleFits(s.locks, s.nextLock, s.held, s.cache.Keys, s.lookups, c, Abandoned(s.lookups[c].key));
      }
    case RefreshStart(r) =>
    case RefreshDone(r, value, now) => if IsRefreshing(s, r) { RefreshKeepsFit(s, r, value, now); }
    case RefreshFail(r) =>
  }

  /** At most one computation or one refresh body in flight per key, and never one of each. */
  ghost predicate SingleFlight(s: State) {
    && (forall b, c :: 0 <= b < c < |s.lookups| ==> !SameComputation(s.lookups[b], s.lookups[c]))
    && (forall q, r :: 0 <= q < r < |s.refreshers| ==> !SameRefresh(s.refreshers[q], s.refreshers[r]))
    && (forall c, r :: 0 <= c < |s.lookups| && 0 <= r < |s.refreshers| ==> !Both(s.lookups[c], s.refreshers[r]))
  }

  ghost predicate Both(l: Lookup, r: Refresh) {
    l.Computing? && r.Refreshing? && l.key == r.key
  }

  lemma {:induction false} EvictionsGrow(s: State, e: Event)
    ensures s.evictions <= Step(s, e).evictions
  {
    match e
    case Call(key, now, wantsRefresh) => if key in s.cache { HitFrame(s, key, now, wantsRefresh); }
    case Acquire(c, wantsRefresh) =>
      if CanAcquire(s, c) && s.lookups[c].key in s.cache {
        HitFrame(s, s.lookups[c].key, s.lookups[c].now, wantsRefresh);
      }
    case _ =>
  }

  lemma {:induction false} RunIsSteady(maxsize: nat, seconds: int, es: seq<Event>)
    requires Run(Initial(maxsize, seconds), es).evictions == 0
    ensures Steady(Run(Initial(maxsize, seconds), es))
  {
    if es != [] {
      var before := Run(Initial(maxsize, seconds), es[..|es| - 1]);
      EvictionsGrow(before, es[|es| - 1]);
      RunIsSteady(maxsize, seconds, es[..|es| - 1]);
      StepKeepsSteady(before, es[|es| - 1]);
    }
  }

  lemma {:induction false} SingleFlightWithoutEviction(maxsize: nat, seconds: int, es: seq<Event>)
    requires Run(Initial(maxsize, seconds), es).evictions == 0
    ensures SingleFlight(Run(Initial(maxsize, seconds), es))
  {
    var s := Run(Initial(maxsize, seconds), es);
    RunIsSteady(maxsize, seconds, es);
    OneRefreshPerKey(maxsize, seconds, es);
    forall c, r | 0 <= c < |s.lookups| && 0 <= r < |s.refreshers| ensures !Both(s.lookups[c], s.refreshers[r]) {
      assert Placed(s.locks, s.held, s.cache.Keys, s.lookups[c]);
      assert Tended(s.cache.Keys, s.refreshers[r]);
    }
  }

  // ---------------------------------------------------------------- what a miss comes to

  ghost predicate Settled(s: State) {
    s.misses == |s.cache| + Count(s.lookups, InFunction) + Count(s.lookups, Error)
  }

  lemma {:induction false} CallAppends(s: State, key: Key, now: int, wantsRefresh: bool)
    ensures var s' := StartLookup(s, key, now, wantsRefresh);
            && |s'.lookups| == |s.lookups| + 1 && s'.lookups == s.lookups + [s'.lookups[|s.lookups|]]
            && KindOf(s'.lookups[|s.lookups|]) in {Answer, InQueue}
            && s'.misses == s.misses && s'.cache == s.cache
  {
    if key in s.cache {
      HitFrame(s, key, now, wantsRefresh);
    }
  }

  lemma {:induction false} AppendKeepsSettled(s: State, s': State, l: Lookup)
    requires Settled(s) && s'.lookups == s.lookups + [l] && KindOf(l) in {Answer, InQueue}
    requires s'.misses == s.misses && s'.cache == s.cache
    ensures Settled(s')
  {
    CountAppend(s.lookups, l, InFunction);
    CountAppend(s.lookups, l, Error);
  }

  lemma {:induction false} EnterKeepsSettled(s: State, c: nat, wantsRefresh: bool)
    requires Settled(s) && CanAcquire(s, c) && Enter(s, c, wantsRefresh).evictions == s.evictions
    ensures Settled(Enter(s, c, wantsRefresh))
  {
    EnterFrame(s, c, wantsRefresh);
    if s.lookups[c].key in s.cache {
      HitFrame(s, s.lookups[c].key, s.lookups[c].now, wantsRefresh);
    }
    CountsOfUpdate(s, Enter(s, c, wantsRefresh), c);
  }

  lemma {:induction false} StoreKeepsSettled(s: State, c: nat, value: Value)
    requires Settled(s) && Steady(s) && IsComputing(s, c)
    ensures Settled(Store(s, c, value))
  {
    assert Placed(s.locks, s.held, s.cache.Keys, s.lookups[c]);
    CountsOfUpdate(s, Store(s, c, value), c);
  }

  lemma {:induction false} StepKeepsSettled(s: State, e: Event)
    requires Settled(s) && Steady(s) && Step(s, e).evictions == s.evictions
    ensures Settled(Step(s, e))
  {
    match e
    case Call(key, now, wantsRefresh) =>
      CallAppends(s, key, now, wantsRefresh);
      AppendKeepsSettled(s, Step(s, e), Step(s, e).lookups[|s.lookups|]);
    case Acquire(c, wantsRefresh) => if CanAcquire(s, c) { EnterKeepsSettled(s, c, wantsRefresh); }
    case ComputeDone(c, value) => if IsComputing(s, c) { StoreKeepsSettled(s, c, value); }
    case ComputeFail(c) => if IsComputing(s, c) { CountsOfUpdate(s, Step(s, e), c); }
    case CancelWait(c) => if c < |s.lookups| && s.lookups[c].Queued? { CountsOfUpdate(s, Step(s, e), c); }
    case RefreshStart(r) =>
    case RefreshDone(r, value, now) =>
      if IsRefreshing(s, r) {
        assert Tended(s.cache.Keys, s.refreshers[r]);
        assert Step(s, e).cache.Keys == s.cache.Keys;
        assert |Step(s, e).cache| == |Step(s, e).cache.Keys| == |s.cache.Keys| == |s.cache|;
      }
    case RefreshFail(r) =>
  }

  /** While nothing is evicted each key is computed to the end at most once: every miss is a cached key, a
      call in flight or a call that raised. */
  lemma {:induction false} MissesAreSettled(maxsize: nat, seconds: int, es: seq<Event>)
    requires Run(Initial(maxsize, seconds), es).evictions == 0
    ensures var s := Run(Initial(maxsize, seconds), es);
            s.misses == |s.cache| + Count(s.lookups, InFunction) + Count(s.lookups, Error)
  {
    if es != [] {
      var before := Run(Initial(maxsize, seconds), es[..|es| - 1]);
      EvictionsGrow(before, es[|es| - 1]);
      MissesAreSettled(maxsize, seconds, es[..|es| - 1]);
      RunIsSteady(maxsize, seconds, es[..|es| - 1]);
      StepKeepsSettled(before, es[|es| - 1]);
    }
  }

  // ---------------------------------------------------------------- few keys never evict

  ghost function Requested(es: seq<Event>): set<Key> {
    set e | e in es && e.Call? :: e.key
  }

  /** Everything the state mentions is a key in keys. */
  ghost predicate Known(s: State, keys: set<Key>) {
    && s.cache.Keys <= keys
    && (forall c :: 0 <= c < |s.lookups| ==> s.lookups[c].key in keys)
    && (forall r :: 0 <= r < |s.refreshers| ==> s.refreshers[r].key in keys)
  }

  lemma {:induction false} CallKeepsKnown(s: State, key: Key, now: int, wantsRefresh: bool, keys: set<Key>)
    requires Known(s, keys) && key in keys
    ensures Known(StartLookup(s, key, now, wantsRefresh), keys)
  {
    CallFrame(s, key, now, wantsRefresh);
  }

  lemma {:induction false} EnterKeepsKnown(s: State, c: nat, wantsRefresh: bool, keys: set<Key>)
    requires Known(s, keys) && CanAcquire(s, c) && |keys| <= s.maxsize
    ensures Known(Enter(s, c, wantsRefresh), keys) && Enter(s, c, wantsRefresh).evictions == s.evictions
  {
    EnterFrame(s, c, wantsRefresh);
    var key := s.lookups[c].key;
    if key in s.cache {
      HitFrame(s, key, s.lookups[c].now, wantsRefresh);
    } else {
      SubsetSize(s.cache.Keys + {key}, keys);
      assert |s.cache| == |s.cache.Keys|;
    }
  }

  lemma {:induction false} StepKeepsKnown(s: State, e: Event, keys: set<Key>)
    requires Known(s, keys) && |keys| <= s.maxsize && (e.Call? ==> e.key in keys)
    ensures Known(Step(s, e), keys) && Step(s, e).evictions == s.evictions
  {
    match e
    case Call(key, now, wantsRefresh) =>
      CallKeepsKnown(s, key, now, wantsRefresh, keys);
      EvictionsOnlyOnEntry(s, e);
    case Acquire(c, wantsRefresh) => if CanAcquire(s, c) { EnterKeepsKnown(s, c, wantsRefresh, keys); }
    case _ =>
  }

  lemma {:induction false} EvictionsOnlyOnEntry(s: State, e: Event)
    requires !e.Acquire?
    ensures Step(s, e).evictions == s.evictions
  {
    if e.Call? && e.key in s.cache {
      HitFrame(s, e.key, e.now, e.wantsRefresh);
    }
  }

  lemma {:induction false} MaxsizeStays(s: State, e: Event)
    ensures Step(s, e).maxsize == s.maxsize && Step(s, e).seconds == s.seconds
  {
    match e
    case Call(key, now, wantsRefresh) => if key in s.cache { HitFrame(s, key, now, wantsRefresh); }
    case Acquire(c, wantsRefresh) =>
      if CanAcquire(s, c) && s.lookups[c].key in s.cache {
        HitFrame(s, s.lookups[c].key, s.lookups[c].now, wantsRefresh);
      }
    case _ =>
  }

  lemma {:induction false} FewKeysNeverEvict(maxsize: nat, seconds: int, es: seq<Event>, keys: set<Key>)
    requires Requested(es) <= keys && |keys| <= maxsize
    ensures var s := Run(Initial(maxsize, seconds), es);
            s.evictions == 0 && Known(s, keys) && s.maxsize == maxsize
  {
    if es != [] {
      var init, e := es[..|es| - 1], es[|es| - 1];
      assert Requested(init) <= Requested(es);
      assert e in es;
      FewKeysNeverEvict(maxsize, seconds, init, keys);
      StepKeepsKnown(Run(Initial(maxsize, seconds), init), e, keys);
      MaxsizeStays(Run(Initial(maxsize, seconds), init), e);
    }
  }

  // ---------------------------------------------------------------- the bound is sharp

  /** Keys 0..n-1 have been looked up and stored at time 0, the first one first. */
  ghost predicate Filled(s: State, n: nat) {
    && |s.lookups| == n && |s.cache| == n
    && (forall k: Key :: k in s.cache <==> k < n)
    && (forall k: Key :: k in s.locks <==> k < n)
    && (n == 0 ==> s.order == [])
    && (n > 0 ==> s.order != [] && s.order[0] == 0 && s.cache[0].added == 0)
    && s.held == {} && s.isRefreshing == {} && s.refreshers == []
  }

  /** es, then the lookup of a new key, which is the key-th lookup. */
  ghost function LookUp(es: seq<Event>, key: Key): seq<Event> {
    es + [Call(key, 0, false)] + [Acquire(key, false)] + [ComputeDone(key, 0)]
  }

  ghost function Fill(n: nat): seq<Event> {
    if n == 0 then [] else LookUp(Fill(n - 1), n - 1)
  }

  lemma {:induction false} RunOne(s: State, es: seq<Event>, e: Event)
    ensures Run(s, es + [e]) == Step(Run(s, es), e)
  {
    assert (es + [e])[..|es|] == es;
  }

  ghost function AfterLookup(s: State, key: Key): State {
    Step(Step(Step(s, Call(key, 0, false)), Acquire(key, false)), ComputeDone(key, 0))
  }

  lemma {:induction false} FillOne(s: State, after: State, n: nat)
    requires Filled(s, n) && n < s.maxsize && after == AfterLookup(s, n)
    ensures Filled(after, n + 1) && after.maxsize == s.maxsize && after.seconds == s.seconds
  {
    var s1 := Step(s, Call(n, 0, false));
    var s2 := Step(s1, Acquire(n, false));
    assert s1.lookups[n] == Queued(n, 0, s1.locks[n]);
    assert s2.lookups[n] == Computing(n, 0, s1.locks[n]) && s2.held == {s1.locks[n]};
    assert after == Step(s2, ComputeDone(n, 0));
    assert after.cache == s.cache[n := Entry(0, 0)];
    assert after.order == s.order + [n];
  }

  lemma {:induction false} RequestedOne(es: seq<Event>, e: Event)
    ensures Requested(es + [e]) == Requested(es) + if e.Call? then {e.key} else {}
  {
    assert e in es + [e];
  }

  lemma {:induction false} RequestedThree(es: seq<Event>, a: Event, b: Event, c: Event)
    ensures Requested(es + [a] + [b] + [c])
      == Requested(es) + (if a.Call? then {a.key} else {}) + (if b.Call? then {b.key} else {})
          + (if c.Call? then {c.key} else {})
  {
    RequestedOne(es, a);
    RequestedOne(es + [a], b);
    RequestedOne(es + [a] + [b], c);
  }

  ghost predicate RequestsFirst(es: seq<Event>, n: nat) {
    |Requested(es)| == n && forall k: Key :: k in Requested(es) <==> k < n
  }

  lemma {:induction false} LookUpRequests(es: seq<Event>, n: nat)
    requires RequestsFirst(es, n)
    ensures RequestsFirst(LookUp(es, n), n + 1)
  {
    RequestedThree(es, Call(n, 0, false), Acquire(n, false), ComputeDone(n, 0));
  }

  lemma {:induction false} FillRequests(n: nat, es: seq<Event>)
    requires es == Fill(n)
    ensures RequestsFirst(es, n)
  {
    if n > 0 {
      FillRequests(n - 1, Fill(n - 1));
      LookUpRequests(Fill(n - 1), n - 1);
    }
  }

  lemma {:induction false} RunThree(s: State, es: seq<Event>, a: Event, b: Event, c: Event)
    ensures Run(s, es + [a] + [b] + [c]) == Step(Step(Step(Run(s, es), a), b), c)
  {
    RunOne(s, es, a);
    RunOne(s, es + [a], b);
    RunOne(s, es + [a] + [b], c);
  }

  lemma {:induction false} RunLookUp(s: State, es: seq<Event>, key: Key)
    ensures Run(s, LookUp(es, key)) == AfterLookup(Run(s, es), key)
  {
    RunThree(s, es, Call(key, 0, false), Acquire(key, false), ComputeDone(key, 0));
  }

  lemma {:induction false} FillNext(s: State, es: seq<Event>, n: nat)
    requires var before := Run(s, es); Filled(before, n) && n < before.maxsize
    ensures var before, after := Run(s, es), Run(s, LookUp(es, n));
            Filled(after, n + 1) && after.maxsize == before.maxsize && after.seconds == before.seconds
  {
    RunLookUp(s, es, n);
    FillOne(Run(s, es), Run(s, LookUp(es, n)), n);
  }

  lemma {:induction false} FillFills(s: State, n: nat, es: seq<Event>)
    requires Filled(s, 0) && n <= s.maxsize && es == Fill(n)
    ensures var s' := Run(s, es); Filled(s', n) && s'.maxsize == s.maxsize && s'.seconds == s.seconds
  {
    if n > 0 {
      FillFills(s, n - 1, Fill(n - 1));
      FillNext(s, Fill(n - 1), n - 1);
    }
  }

  /** A time after 0 at which an entry stored at 0 is stale. */
  function Late(seconds: int): int {
    if seconds < 0 then 0 else seconds + 1
  }

  ghost function OverlapStart(m: nat, seconds: int): seq<Event> {
    Fill(m) + [Call(0, Late(seconds), false)] + [RefreshStart(0)] + [Call(m, Late(seconds), false)]
  }

  /** With the cache full: refresh the stale first key, evict it for a new key, and look it up again. */
  ghost function Overlap(m: nat, seconds: int): seq<Event> {
    OverlapStart(m, seconds) + [Acquire(m + 1, false)] + [Call(0, Late(seconds), false)] + [Acquire(m + 2, false)]
  }

  lemma {:induction false} RefreshesFirst(s: State, m: nat, late: int)
    requires Filled(s, m) && m == s.maxsize && m > 0 && late == Late(s.seconds)
    ensures var s' := Step(Step(Step(s, Call(0, late, false)), RefreshStart(0)), Call(m, late, false));
            && s'.refreshers == [Refreshing(0)] && s'.cache == s.cache && s'.order == s.order && s'.held == {}
            && s'.locks == s.locks[m := s.nextLock] && s'.nextLock == s.nextLock + 1 && s'.maxsize == m
            && |s'.lookups| == m + 2 && s'.lookups[m + 1] == Queued(m, late, s.nextLock)
  {
    var s1 := Step(s, Call(0, late, false));
    assert s1.refreshers == [Scheduled(0)] && |s1.lookups| == m + 1;
    var s2 := Step(s1, RefreshStart(0));
    assert s2.refreshers == [Refreshing(0)] && s2.locks == s.locks && s2.cache == s.cache;
  }

  lemma {:induction false} EvictsFirst(s: State, m: nat, now: int, lock: nat)
    requires m > 0 && s.maxsize == m && |s.cache| == m && 0 in s.cache && m !in s.cache
    requires s.order != [] && s.order[0] == 0 && s.held == {}
    requires |s.lookups| == m + 2 && s.lookups[m + 1] == Queued(m, now, lock)
    ensures var s' := Step(s, Acquire(m + 1, false));
            && s'.cache == s.cache - {0} && |s'.cache| < m && s'.held == {lock} && 0 !in s'.locks
            && s'.maxsize == m && s'.nextLock == s.nextLock && |s'.lookups| == m + 2 && s'.refreshers == s.refreshers
  {
    var s' := Step(s, Acquire(m + 1, false));
    assert s'.cache == s.cache - {0};
    assert s.cache.Keys == s'.cache.Keys + {0};
    assert |s'.cache| == |s'.cache.Keys| < |s.cache.Keys| == |s.cache|;
  }

  lemma {:induction false} ComputesAgain(s: State, m: nat, now: int, lock: nat)
    requires s.maxsize == m && |s.cache| < m && 0 !in s.cache && 0 !in s.locks
    requires s.held == {lock} && lock < s.nextLock && |s.lookups| == m + 2
    ensures var s' := Step(Step(s, Call(0, now, false)), Acquire(m + 2, false));
            && s'.refreshers == s.refreshers
            && |s'.lookups| == m + 3 && s'.lookups[m + 2].Computing? && s'.lookups[m + 2].key == 0
  {
    var s1 := Step(s, Call(0, now, false));
    assert s1.lookups[m + 2] == Queued(0, now, s.nextLock) && s1.held == {lock} && s1.cache == s.cache;
  }

  lemma {:induction false} OneMoreRequest(es: seq<Event>, m: nat, late: int)
    requires RequestsFirst(es, m) && m > 0
    ensures RequestsFirst(es + [Call(0, late, false)] + [RefreshStart(0)] + [Call(m, late, false)], m + 1)
  {
    RequestedThree(es, Call(0, late, false), RefreshStart(0), Call(m, late, false));
    OneMoreKey(Requested(es), m);
  }

  lemma {:induction false} OneMoreKey(keys: set<Key>, m: nat)
    requires |keys| == m > 0 && forall k: Key :: k in keys <==> k < m
    ensures var more := keys + {0} + {} + {m}; |more| == m + 1 && forall k: Key :: k in more <==> k < m + 1
  {
    assert keys + {0} + {} + {m} == keys + {m};
  }

  lemma {:induction false} NoNewRequest(es: seq<Event>, m: nat, late: int)
    requires RequestsFirst(es, m + 1)
    ensures RequestsFirst(es + [Acquire(m + 1, false)] + [Call(0, late, false)] + [Acquire(m + 2, false)], m + 1)
  {
    RequestedThree(es, Acquire(m + 1, false), Call(0, late, false), Acquire(m + 2, false));
    assert Requested(es) + {} + {0} + {} == Requested(es);
  }

  lemma {:induction false} OverlapRequests(m: nat, seconds: int)
    requires m > 0
    ensures RequestsFirst(Overlap(m, seconds), m + 1)
  {
    FillRequests(m, Fill(m));
    OneMoreRequest(Fill(m), m, Late(seconds));
    NoNewRequest(OverlapStart(m, seconds), m, Late(seconds));
  }

  // ---------------------------------------------------------------- the clock

  predicate Timed(e: Event) {
    e.Call? || e.RefreshDone?
  }

  /** The clock readings along the run never fall, and none is past t. */
  ghost predicate TimelyUpTo(es: seq<Event>, t: int) {
    && (forall i, j :: 0 <= i < j < |es| && Timed(es[i]) && Timed(es[j]) ==> es[i].now <= es[j].now)
    && forall i :: 0 <= i < |es| && Timed(es[i]) ==> es[i].now <= t
  }

  ghost predicate Timely(es: seq<Event>) {
    exists t :: TimelyUpTo(es, t)
  }

  lemma {:induction false} TimelySnoc(es: seq<Event>, t: int, e: Event, t': int)
    requires TimelyUpTo(es, t) && t <= t' && (Timed(e) ==> e.now == t')
    ensures TimelyUpTo(es + [e], t')
  {}

  lemma {:induction false} TimelyThree(es: seq<Event>, t: int, a: Event, b: Event, c: Event, t': int)
    requires TimelyUpTo(es, t) && t <= t'
    requires (Timed(a) ==> a.now == t') && (Timed(b) ==> b.now == t') && (Timed(c) ==> c.now == t')
    ensures TimelyUpTo(es + [a] + [b] + [c], t')
  {
    TimelySnoc(es, t, a, t');
    TimelySnoc(es + [a], t', b, t');
    TimelySnoc(es + [a] + [b], t', c, t');
  }

  lemma {:induction false} LookUpIsTimely(es: seq<Event>, key: Key)
    requires TimelyUpTo(es, 0)
    ensures TimelyUpTo(LookUp(es, key), 0)
  {
    TimelyThree(es, 0, Call(key, 0, false), Acquire(key, false), ComputeDone(key, 0), 0);
  }

  lemma {:induction false} FillIsTimely(n: nat)
    ensures TimelyUpTo(Fill(n), 0)
  {
    if n > 0 {
      FillIsTimely(n - 1);
      LookUpIsTimely(Fill(n - 1), n - 1);
    }
  }

  lemma {:induction false} OverlapIsTimely(m: nat, seconds: int)
    ensures Timely(Overlap(m, seconds))
  {
    var late := Late(seconds);
    FillIsTimely(m);
    TimelyThree(Fill(m), 0, Call(0, late, false), RefreshStart(0), Call(m, late, false), late);
    var started := OverlapStart(m, seconds);
    TimelyThree(started, late, Acquire(m + 1, false), Call(0, late, false), Acquire(m + 2, false), late);
  }

  /** One key too many, and a refresh and a computation of the same key overlap. */
  lemma {:induction false} OneKeyTooMany(maxsize: nat, seconds: int)
    requires maxsize > 0
    ensures |Requested(Overlap(maxsize, seconds))| == maxsize + 1 && Timely(Overlap(maxsize, seconds))
    ensures !SingleFlight(Run(Initial(maxsize, seconds), Overlap(maxsize, seconds)))
  {
    var m, start, late := maxsize, Initial(maxsize, seconds), Late(seconds);
    OverlapRequests(m, seconds);
    OverlapIsTimely(m, seconds);
    FillFills(start, m, Fill(m));
    var full := Run(start, Fill(m));
    RunThree(start, Fill(m), Call(0, late, false), RefreshStart(0), Call(m, late, false));
    RefreshesFirst(full, m, late);
    var es := OverlapStart(m, seconds);
    RunThree(start, es, Acquire(m + 1, false), Call(0, late, false), Acquire(m + 2, false));
    EvictsFirst(Run(start, es), m, late, full.nextLock);
    ComputesAgain(Step(Run(start, es), Acquire(m + 1, false)), m, late, full.nextLock);
    var end := Run(start, Overlap(m, seconds));
    assert Both(end.lookups[m + 2], end.refreshers[0]);
  }

  ghost predicate AlwaysSingleFlight(maxsize: nat, seconds: int, n: nat) {
    forall es :: |Requested(es)| <= n ==> SingleFlight(Run(Initial(maxsize, seconds), es))
  }

  /** The same over the runs whose clock never goes back. */
  ghost predicate TimelySingleFlight(maxsize: nat, seconds: int, n: nat) {
    forall es :: |Requested(es)| <= n && Timely(es) ==> SingleFlight(Run(Initial(maxsize, seconds), es))
  }

  ghost predicate Roomless(s: State) {
    && s.maxsize == 0 && s.cache == map[] && s.order == [] && s.refreshers == []
    && forall c :: 0 <= c < |s.lookups| ==> !s.lookups[c].Computing?
  }

  lemma {:induction false} StepKeepsRoomless(s: State, e: Event)
    requires Roomless(s)
    ensures Roomless(Step(s, e))
  {
    match e
    case Call(key, now, wantsRefresh) => assert Roomless(StartLookup(s, key, now, wantsRefresh));
    case Acquire(c, wantsRefresh) => if CanAcquire(s, c) { assert Roomless(Enter(s, c, wantsRefresh)); }
    case _ =>
  }

  lemma {:induction false} NoRoomNoComputation(seconds: int, es: seq<Event>)
    ensures Roomless(Run(Initial(0, seconds), es))
  {
    if es != [] {
      NoRoomNoComputation(seconds, es[..|es| - 1]);
      StepKeepsRoomless(Run(Initial(0, seconds), es[..|es| - 1]), es[|es| - 1]);
    }
  }

  /** Any number n of distinct keys keeps the cache single-flight exactly when the cache can hold n keys, or
      none at all: a cache of size 0 raises on every miss. A clock that never goes back makes no difference. */
  lemma {:induction false} SingleFlightExactly(maxsize: nat, seconds: int, n: nat)
    ensures AlwaysSingleFlight(maxsize, seconds, n) <==> n <= maxsize || maxsize == 0
    ensures TimelySingleFlight(maxsize, seconds, n) <==> n <= maxsize || maxsize == 0
  {
    if n <= maxsize {
      forall es | |Requested(es)| <= n ensures SingleFlight(Run(Initial(maxsize, seconds), es)) {
        FewKeysNeverEvict(maxsize, seconds, es, Requested(es));
        SingleFlightWithoutEviction(maxsize, seconds, es);
      }
    } else if maxsize == 0 {
      forall es | |Requested(es)| <= n ensures SingleFlight(Run(Initial(maxsize, seconds), es)) {
        NoRoomNoComputation(seconds, es);
      }
    } else {
      OneKeyTooMany(maxsize, seconds);
    }
  }
}
