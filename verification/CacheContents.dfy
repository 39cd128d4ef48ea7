/**
 * What the cache holds and what it answers, told from the run alone: each entry is the last value stored for
 * its key, with the time of the call or refresh that stored it, and a hit answers with that value.
 */
module CacheContents {
  import opened Common
  import opened AsyncCache

  // ---------------------------------------------------------------- lookups are calls

  /** The calls of a run, in order: the c-th one is lookup c. */
  function Calls(es: seq<Event>): seq<Event> {
    if es == [] then []
    else Calls(es[..|es| - 1]) + (if es[|es| - 1].Call? then [es[|es| - 1]] else [])
  }

  ghost predicate FollowsCall(l: Lookup, call: Event) {
    && call.Call? && l.key == call.key
    && (l.Queued? || l.Computing? ==> l.now == call.now)
  }

  ghost predicate FollowCalls(lookups: seq<Lookup>, calls: seq<Event>) {
    && |lookups| == |calls|
    && forall c :: 0 <= c < |lookups| ==> FollowsCall(lookups[c], calls[c])
  }

  lemma {:induction false} StepFollowsCalls(s: State, e: Event, calls: seq<Event>)
    requires FollowCalls(s.lookups, calls)
    ensures FollowCalls(Step(s, e).lookups, calls + if e.Call? then [e] else [])
  {
    match e
    case Call(key, now, wantsRefresh) => if key in s.cache { HitFrame(s, key, now, wantsRefresh); }
    case Acquire(c, wantsRefresh) => if CanAcquire(s, c) { EnterOnlySettles(s, c, wantsRefresh); }
    case _ =>
  }

  lemma {:induction false} EnterOnlySettles(s: State, c: nat, wantsRefresh: bool)
    requires CanAcquire(s, c)
    ensures var l, s' := s.lookups[c], Enter(s, c, wantsRefresh);
            && s'.lookups == s.lookups[c := s'.lookups[c]] && s'.lookups[c].key == l.key
            && (s'.lookups[c].Computing? ==> s'.lookups[c].now == l.now) && !s'.lookups[c].Queued?
  {
    if s.lookups[c].key in s.cache {
      HitFrame(s, s.lookups[c].key, s.lookups[c].now, wantsRefresh);
    }
  }

  lemma {:induction false} LookupsFollowCalls(maxsize: nat, seconds: int, es: seq<Event>)
    ensures FollowCalls(Run(Initial(maxsize, seconds), es).lookups, Calls(es))
  {
    if es != [] {
      LookupsFollowCalls(maxsize, seconds, es[..|es| - 1]);
      StepFollowsCalls(Run(Initial(maxsize, seconds), es[..|es| - 1]), es[|es| - 1], Calls(es[..|es| - 1]));
    }
  }

  // ---------------------------------------------------------------- what is stored

  datatype Change = Stores(key: Key, entry: Entry) | Evicts(key: Key) | Keeps

  /** What an event does to the contents: the function's return to a lookup stores with the time of its call, its
      return to a refresh with the clock reading then, and a miss on a full cache drops the first key. */
  function ChangeBy(s: State, calls: seq<Event>, e: Event): Change {
    match e
    case ComputeDone(c, value) =>
      if IsComputing(s, c) && c < |calls| && calls[c].Call?
      then Stores(calls[c].key, Entry(value, calls[c].now)) else Keeps
    case RefreshDone(r, value, now) =>
      if IsRefreshing(s, r) then Stores(s.refreshers[r].key, Entry(value, now)) else Keeps
    case Acquire(c, _) =>
      if CanAcquire(s, c) && s.lookups[c].key !in s.cache && |s.cache| >= s.maxsize && s.order != []
      then Evicts(s.order[0]) else Keeps
    case _ => Keeps
  }

  /** The last entry stored for a key and not evicted since. */
  function Held(start: State, es: seq<Event>, key: Key): Option<Entry> {
    if es == [] then None
    else
      var before := es[..|es| - 1];
      match ChangeBy(Run(start, before), Calls(before), es[|es| - 1])
      case Stores(k, entry) => if k == key then Some(entry) else Held(start, before, key)
      case Evicts(k) => if k == key then None else Held(start, before, key)
      case Keeps => Held(start, before, key)
  }

  lemma {:induction false} ChangeIsMade(s: State, calls: seq<Event>, e: Event)
    requires FollowCalls(s.lookups, calls)
    ensures Step(s, e).cache == match ChangeBy(s, calls, e)
                                case Stores(k, entry) => s.cache[k := entry]
                                case Evicts(k) => s.cache - {k}
                                case Keeps => s.cache
  {
    match e
    case Call(key, now, wantsRefresh) => CallFrame(s, key, now, wantsRefresh);
    case Acquire(c, wantsRefresh) => if CanAcquire(s, c) { EnterChanges(s, c, wantsRefresh); }
    case ComputeDone(c, _) => assert IsComputing(s, c) ==> FollowsCall(s.lookups[c], calls[c]);
    case _ =>
  }

  lemma {:induction false} EnterChanges(s: State, c: nat, wantsRefresh: bool)
    requires CanAcquire(s, c)
    ensures Enter(s, c, wantsRefresh).cache
            == if s.lookups[c].key !in s.cache && |s.cache| >= s.maxsize && s.order != [] then s.cache - {s.order[0]}
               else s.cache
  {
    if s.lookups[c].key in s.cache {
      HitFrame(s, s.lookups[c].key, s.lookups[c].now, wantsRefresh);
    }
  }

  ghost predicate Holds(cache: map<Key, Entry>, key: Key, held: Option<Entry>) {
    held == if key in cache then Some(cache[key]) else None
  }

  /** Over every run the cache is exactly the entries last stored: nothing else is in it, no entry is lost but by
      eviction, and every return of the function, to a lookup or a refresh, replaces what was there. */
  lemma {:induction false} EntriesAreLastStored(maxsize: nat, seconds: int, es: seq<Event>, key: Key)
    ensures Holds(Run(Initial(maxsize, seconds), es).cache, key, Held(Initial(maxsize, seconds), es, key))
  {
    if es != [] {
      var before := es[..|es| - 1];
      EntriesAreLastStored(maxsize, seconds, before, key);
      LookupsFollowCalls(maxsize, seconds, before);
      ChangeIsMade(Run(Initial(maxsize, seconds), before), Calls(before), es[|es| - 1]);
    }
  }

  // ---------------------------------------------------------------- what is answered

  /** How a hit is served: with the entry's value; a fresh entry moves to the end; a stale one, or one whose early
      refresh is wanted, is refreshed in the background unless it is being refreshed. */
  ghost predicate Serves(s: State, s': State, key: Key, entry: Entry, now: int, wantsRefresh: bool) {
    var live := now - entry.added <= s.seconds;
    var refreshed := (!live || wantsRefresh) && key !in s.isRefreshing;
    && s'.hits == s.hits + 1 && s'.misses == s.misses && s'.cache == s.cache
    && s'.order == (if live then Without(s.order, key) + [key] else s.order)
    && s'.refreshers == s.refreshers + (if refreshed then [Scheduled(key)] else [])
    && s'.refreshes == s.refreshes + (if refreshed then 1 else 0)
  }

  /** A call is a hit exactly when an entry is held, and is then served with the value last stored. */
  lemma {:induction false} CallsAreServedExactly(maxsize: nat, seconds: int, es: seq<Event>, key: Key, now: int,
                                                 wantsRefresh: bool)
    ensures var s, held := Run(Initial(maxsize, seconds), es), Held(Initial(maxsize, seconds), es, key);
            var s' := Step(s, Call(key, now, wantsRefresh));
            match held
            case Some(entry) =>
              Serves(s, s', key, entry, now, wantsRefresh) && s'.lookups == s.lookups + [Returned(key, entry.value)]
            case None =>
              && s'.hits == s.hits && s'.refreshers == s.refreshers && |s'.lookups| == |s.lookups| + 1
              && s'.lookups[|s.lookups|].Queued?
  {
    EntriesAreLastStored(maxsize, seconds, es, key);
  }

  /** A lookup that gets its lock looks again, with the time of its call: it is a hit exactly when an entry is held
      by then, and otherwise a miss that calls the function or, where no entry is allowed, raises. */
  lemma {:induction false} LockedLookupsAreServedExactly(maxsize: nat, seconds: int, es: seq<Event>, c: nat,
                                                         wantsRefresh: bool)
    requires CanAcquire(Run(Initial(maxsize, seconds), es), c)
    ensures c < |Calls(es)| && Calls(es)[c].Call?
    ensures var s, call := Run(Initial(maxsize, seconds), es), Calls(es)[c];
            var s' := Step(s, Acquire(c, wantsRefresh));
            match Held(Initial(maxsize, seconds), es, call.key)
            case Some(entry) =>
              && Serves(s, s', call.key, entry, call.now, wantsRefresh)
              && s'.lookups == s.lookups[c := Returned(call.key, entry.value)]
            case None =>
              s'.hits == s.hits && s'.misses == s.misses + 1 && (s'.lookups[c].Computing? || s'.lookups[c].Raised?)
  {
    LookupsFollowCalls(maxsize, seconds, es);
    var s := Run(Initial(maxsize, seconds), es);
    assert FollowsCall(s.lookups[c], Calls(es)[c]);
    EntriesAreLastStored(maxsize, seconds, es, Calls(es)[c].key);
  }

  /** And a lookup that calls the function returns what the function returned to it. */
  lemma {:induction false} ComputedLookupsReturnTheirValue(maxsize: nat, seconds: int, es: seq<Event>, c: nat,
                                                           value: Value)
    requires IsComputing(Run(Initial(maxsize, seconds), es), c)
    ensures c < |Calls(es)| && Calls(es)[c].Call?
    ensures var s := Run(Initial(maxsize, seconds), es);
            Step(s, ComputeDone(c, value)).lookups == s.lookups[c := Returned(Calls(es)[c].key, value)]
  {
    LookupsFollowCalls(maxsize, seconds, es);
    assert FollowsCall(Run(Initial(maxsize, seconds), es).lookups[c], Calls(es)[c]);
  }

  // ---------------------------------------------------------------- locks and marks

  ghost predicate Uses(lookups: seq<Lookup>, c: nat, lock: nat) {
    c < |lookups| && lookups[c].Computing? && lookups[c].lock == lock
  }

  /** A lock is held exactly while some lookup computes under it, and never by two. */
  ghost predicate HeldByOne(held: set<nat>, lookups: seq<Lookup>) {
    && (forall lock :: lock in held <==> exists c :: Uses(lookups, c, lock))
    && (forall b, c, lock :: Uses(lookups, b, lock) && Uses(lookups, c, lock) ==> b == c)
  }

  lemma {:induction false} SettleHeld(held: set<nat>, lookups: seq<Lookup>, c: nat, l: Lookup)
    requires HeldByOne(held, lookups) && c < |lookups| && !l.Computing?
    ensures HeldByOne(if lookups[c].Computing? then held - {lookups[c].lock} else held, lookups[c := l])
  {
    var after := lookups[c := l];
    forall b, lock ensures Uses(after, b, lock) <==> b != c && Uses(lookups, b, lock) {}
    if lookups[c].Computing? {
      assert Uses(lookups, c, lookups[c].lock);
    }
    forall lock | lock in held && !(lookups[c].Computing? && lookups[c].lock == lock)
      ensures exists b :: Uses(after, b, lock)
    {
      var b :| Uses(lookups, b, lock);
      assert Uses(after, b, lock);
    }
  }

  lemma {:induction false} GrabHeld(held: set<nat>, lookups: seq<Lookup>, c: nat, l: Lookup)
    requires HeldByOne(held, lookups) && c < |lookups| && !lookups[c].Computing? && l.Computing? && l.lock !in held
    ensures HeldByOne(held + {l.lock}, lookups[c := l])
  {
    var after := lookups[c := l];
    forall b, lock ensures Uses(after, b, lock) <==> (if b == c then lock == l.lock else Uses(lookups, b, lock)) {}
    assert Uses(after, c, l.lock);
    forall lock | lock in held ensures exists b :: Uses(after, b, lock) {
      var b :| Uses(lookups, b, lock);
      assert Uses(after, b, lock);
    }
  }

  lemma {:induction false} AppendHeld(held: set<nat>, lookups: seq<Lookup>, l: Lookup)
    requires HeldByOne(held, lookups) && !l.Computing?
    ensures HeldByOne(held, lookups + [l])
  {
    var after := lookups + [l];
    forall b, lock ensures Uses(after, b, lock) <==> Uses(lookups, b, lock) {}
  }

  lemma {:induction false} EnterHeld(s: State, c: nat, wantsRefresh: bool)
    requires CanAcquire(s, c)
    ensures var s' := Enter(s, c, wantsRefresh);
            if s'.lookups[c].Computing? then s'.held == s.held + {s.lookups[c].lock}
                                             && s'.lookups[c].lock == s.lookups[c].lock
            else s'.held == s.held
  {
    if s.lookups[c].key in s.cache {
      HitFrame(s, s.lookups[c].key, s.lookups[c].now, wantsRefresh);
    }
  }

  lemma {:induction false} StepKeepsHeldByOne(s: State, e: Event)
    requires HeldByOne(s.held, s.lookups)
    ensures HeldByOne(Step(s, e).held, Step(s, e).lookups)
  {
    var s' := Step(s, e);
    match e
    case Call(key, now, wantsRefresh) =>
      if key in s.cache { HitFrame(s, key, now, wantsRefresh); }
      AppendHeld(s.held, s.lookups, s'.lookups[|s.lookups|]);
    case Acquire(c, wantsRefresh) =>
      if CanAcquire(s, c) {
        EnterOnlySettles(s, c, wantsRefresh);
        EnterHeld(s, c, wantsRefresh);
        if s'.lookups[c].Computing? {
          GrabHeld(s.held, s.lookups, c, s'.lookups[c]);
        } else {
          SettleHeld(s.held, s.lookups, c, s'.lookups[c]);
        }
      }
    case ComputeDone(c, _) => if IsComputing(s, c) { SettleHeld(s.held, s.lookups, c, s'.lookups[c]); }
    case ComputeFail(c) => if IsComputing(s, c) { SettleHeld(s.held, s.lookups, c, s'.lookups[c]); }
    case CancelWait(c) =>
      if c < |s.lookups| && s.lookups[c].Queued? { SettleHeld(s.held, s.lookups, c, s'.lookups[c]); }
    case _ =>
  }

  /** Evictions or not, a lock is held exactly while one lookup computes under it: a function that raises, or a
      lookup that is cancelled while waiting, leaves no lock behind. */
  lemma {:induction false} LocksAreHeldByOneExactly(maxsize: nat, seconds: int, es: seq<Event>)
    ensures var s := Run(Initial(maxsize, seconds), es); HeldByOne(s.held, s.lookups)
  {
    if es != [] {
      LocksAreHeldByOneExactly(maxsize, seconds, es[..|es| - 1]);
      StepKeepsHeldByOne(Run(Initial(maxsize, seconds), es[..|es| - 1]), es[|es| - 1]);
    }
  }

  ghost predicate Refreshes(refreshers: seq<Refresh>, r: nat, key: Key) {
    r < |refreshers| && refreshers[r] == Refreshing(key)
  }

  ghost predicate MarkedExactly(s: State) {
    && s.refreshes == |s.refreshers|
    && forall key :: key in s.isRefreshing ==> exists r :: Refreshes(s.refreshers, r, key)
  }

  lemma {:induction false} RefreshKeepsMarks(s: State, s': State, r: nat, done: Refresh)
    requires MarkedExactly(s) && r < |s.refreshers| && s'.refreshes == s.refreshes
    requires s'.refreshers == s.refreshers[r := done]
    requires s.refreshers[r].Refreshing? ==> s'.isRefreshing == s.isRefreshing - {s.refreshers[r].key}
    requires !s.refreshers[r].Refreshing? ==>
               s'.isRefreshing == s.isRefreshing + if done.Refreshing? then {done.key} else {}
    ensures MarkedExactly(s')
  {
    forall key | key in s'.isRefreshing ensures exists q :: Refreshes(s'.refreshers, q, key) {
      if key in s.isRefreshing {
        var q :| Refreshes(s.refreshers, q, key);
        assert Refreshes(s'.refreshers, q, key);
      } else {
        assert Refreshes(s'.refreshers, r, key);
      }
    }
  }

  lemma {:induction false} ScheduleKeepsMarks(s: State, s': State)
    requires MarkedExactly(s) && OnlySchedules(s, s')
    ensures MarkedExactly(s')
  {
    forall key | key in s'.isRefreshing ensures exists q :: Refreshes(s'.refreshers, q, key) {
      var q :| Refreshes(s.refreshers, q, key);
      assert Refreshes(s'.refreshers, q, key);
    }
  }

  lemma {:induction false} StepKeepsMarks(s: State, e: Event)
    requires MarkedExactly(s)
    ensures MarkedExactly(Step(s, e))
  {
    var s' := Step(s, e);
    match e
    case RefreshStart(r) => if IsScheduled(s, r) { RefreshKeepsMarks(s, s', r, s'.refreshers[r]); }
    case RefreshDone(r, _, _) => if IsRefreshing(s, r) { RefreshKeepsMarks(s, s', r, s'.refreshers[r]); }
    case RefreshFail(r) => if IsRefreshing(s, r) { RefreshKeepsMarks(s, s', r, s'.refreshers[r]); }
    case _ => OthersSchedule(s, e); ScheduleKeepsMarks(s, s');
  }

  ghost predicate OnlySchedules(s: State, s': State) {
    && s'.isRefreshing == s.isRefreshing && s.refreshers <= s'.refreshers
    && s'.refreshes - s.refreshes == |s'.refreshers| - |s.refreshers|
  }

  lemma {:induction false} HitSchedules(s: State, key: Key, now: int, wantsRefresh: bool)
    requires key in s.cache
    ensures OnlySchedules(s, HandleHit(s, key, now, wantsRefresh))
  {}

  lemma {:induction false} EnterSchedules(s: State, c: nat, wantsRefresh: bool)
    requires CanAcquire(s, c)
    ensures OnlySchedules(s, Enter(s, c, wantsRefresh))
  {
    if s.lookups[c].key in s.cache {
      HitSchedules(s, s.lookups[c].key, s.lookups[c].now, wantsRefresh);
    }
  }

  lemma {:induction false} OthersSchedule(s: State, e: Event)
    requires !e.RefreshStart? && !e.RefreshDone? && !e.RefreshFail?
    ensures OnlySchedules(s, Step(s, e))
  {
    match e
    case Call(key, now, wantsRefresh) => if key in s.cache { HitSchedules(s, key, now, wantsRefresh); }
    case Acquire(c, wantsRefresh) => if CanAcquire(s, c) { EnterSchedules(s, c, wantsRefresh); }
    case _ =>
  }

  /** A key is marked as being refreshed exactly while one refresh of it runs, so that a refresh that raises does
      not stop later ones; and the figure of refreshes is the number of refreshes scheduled. */
  lemma {:induction false} KeysAreMarkedExactly(maxsize: nat, seconds: int, es: seq<Event>)
    ensures var s := Run(Initial(maxsize, seconds), es);
            && MarkedExactly(s) && RefreshOnce(s.refreshers, s.isRefreshing)
            && forall key :: key in s.isRefreshing <==> exists r :: Refreshes(s.refreshers, r, key)
  {
    OneRefreshPerKey(maxsize, seconds, es);
    if es != [] {
      KeysAreMarkedExactly(maxsize, seconds, es[..|es| - 1]);
      StepKeepsMarks(Run(Initial(maxsize, seconds), es[..|es| - 1]), es[|es| - 1]);
    }
  }

  /** A scheduled refresh that starts calls the function exactly when no refresh of its key is running; otherwise it
      is over at once. */
  lemma {:induction false} RefreshRunsExactly(maxsize: nat, seconds: int, es: seq<Event>, r: nat)
    requires IsScheduled(Run(Initial(maxsize, seconds), es), r)
    ensures var s := Run(Initial(maxsize, seconds), es);
            var key := s.refreshers[r].key;
            Step(s, RefreshStart(r)).refreshers[r]
              == if exists q :: Refreshes(s.refreshers, q, key) then Over(key) else Refreshing(key)
  {
    KeysAreMarkedExactly(maxsize, seconds, es);
  }
}
