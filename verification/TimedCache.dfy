/**
 * The cache's dicts and counters, updated in place by the code between two awaits. The history is what has
 * happened so far; every method keeps the fields equal to the run of the history, so the theorems about runs
 * are promises of the class.
 */
module TimedCache {
  import opened Common
  import opened AsyncCache
  import opened CacheOrder
  import opened CacheContents

  class Cache {
    const maxsize: nat
    const seconds: int
    var cache: map<Key, Entry>
    var order: seq<Key>
    var locks: map<Key, nat>
    var nextLock: nat
    var held: set<nat>
    var isRefreshing: set<Key>
    var lookups: seq<Lookup>
    var refreshers: seq<Refresh>
    var hits: nat
    var misses: nat
    var refreshes: nat
    var evictions: nat
    ghost var produced: set<(Key, Value)>
    ghost var history: seq<Event>

    ghost predicate Valid()
      reads this
    {
      Snapshot() == Run(Initial(maxsize, seconds), history)
    }

    constructor (maxsize: nat, seconds: int)
      ensures Valid() && history == []
      ensures this.maxsize == maxsize && this.seconds == seconds
    {
      this.maxsize, this.seconds := maxsize, seconds;
      cache, order, locks, nextLock, held, isRefreshing := map[], [], map[], 0, {}, {};
      lookups, refreshers, hits, misses, refreshes, evictions, produced := [], [], 0, 0, 0, 0, {};
      history := [];
    }

    ghost function Snapshot(): State
      reads this
    {
      State(maxsize, seconds, cache, order, locks, nextLock, held, isRefreshing, lookups, refreshers,
            hits, misses, refreshes, evictions, produced)
    }

    /** What every cache object promises at any time. */
    lemma Promises()
      requires Valid()
      ensures Genuine(Snapshot()) && Counted(Snapshot())
      ensures forall key :: Holds(cache, key, Held(Initial(maxsize, seconds), history, key))
      ensures RefreshOnce(refreshers, isRefreshing) && MarkedExactly(Snapshot()) && HeldByOne(held, lookups)
      ensures Lists(cache, order) && InOrder(Touch, Initial(maxsize, seconds), history, order)
      ensures evictions == 0 ==> SingleFlight(Snapshot()) && Settled(Snapshot())
      ensures |Requested(history)| <= maxsize ==> evictions == 0
    {
      ValuesComeFromTheFunction(maxsize, seconds, history);
      HitsAndMissesCountLookups(maxsize, seconds, history, Snapshot());
      KeysAreMarkedExactly(maxsize, seconds, history);
      LocksAreHeldByOneExactly(maxsize, seconds, history);
      forall key ensures Holds(cache, key, Held(Initial(maxsize, seconds), history, key)) {
        EntriesAreLastStored(maxsize, seconds, history, key);
      }
      OrderIsByLastTouch(maxsize, seconds, history);
      if evictions == 0 {
        SingleFlightWithoutEviction(maxsize, seconds, history);
        MissesAreSettled(maxsize, seconds, history);
      }
      if |Requested(history)| <= maxsize {
        FewKeysNeverEvict(maxsize, seconds, history, Requested(history));
      }
    }

    ghost method Record(e: Event)
      modifies `history
      ensures history == old(history) + [e]
      ensures Run(Initial(maxsize, seconds), history) == Step(Run(Initial(maxsize, seconds), old(history)), e)
    {
      RunOne(Initial(maxsize, seconds), history, e);
      history := history + [e];
    }

    method ScheduleRefresh(key: Key)
      modifies this`refreshes, this`refreshers
      ensures Snapshot() == Schedule(old(Snapshot()), key)
    {
      if key !in isRefreshing {
        refreshes := refreshes + 1;
        refreshers := refreshers + [Scheduled(key)];
      }
    }

    method HandleCacheHit(key: Key, now: int, wantsRefresh: bool) returns (value: Value)
      requires key in cache
      modifies this`refreshes, this`refreshers, this`order, this`hits
      ensures Snapshot() == HandleHit(old(Snapshot()), key, now, wantsRefresh)
      ensures value == old(cache)[key].value
    {
      var age := now - cache[key].added;
      value := cache[key].value;
      if age <= seconds {
        if wantsRefresh {
          ScheduleRefresh(key);
        }
        order := Without(order, key) + [key];
      } else {
        ScheduleRefresh(key);
      }
      hits := hits + 1;
    }

    method Look(key: Key, now: int, wantsRefresh: bool)
      modifies this`refreshes, this`refreshers, this`order, this`hits, this`locks, this`nextLock, this`lookups
      ensures Snapshot() == StartLookup(old(Snapshot()), key, now, wantsRefresh)
      ensures |lookups| == |old(lookups)| + 1
    {
      if key in cache {
        var value := HandleCacheHit(key, now, wantsRefresh);
        lookups := lookups + [Returned(key, value)];
      } else {
        if key !in locks {
          locks := locks[key := nextLock];
          nextLock := nextLock + 1;
        }
        lookups := lookups + [Queued(key, now, locks[key])];
      }
    }

    /** The wrapper up to its first await: an answer, or a place in the queue for the key's lock. */
    method Lookup(key: Key, now: int, wantsRefresh: bool) returns (c: nat)
      requires Valid()
      modifies this
      ensures Snapshot() == Step(old(Snapshot()), Call(key, now, wantsRefresh))
      ensures Valid() && history == old(history) + [Call(key, now, wantsRefresh)]
      ensures c == |old(lookups)| < |lookups|
    {
      c := |lookups|;
      ghost var before := Snapshot();
      Look(key, now, wantsRefresh);
      assert Snapshot() == Step(before, Call(key, now, wantsRefresh));
      Record(Call(key, now, wantsRefresh));
    }

    method EvictOldest()
      requires order != []
      modifies this`cache, this`order, this`locks, this`evictions
      ensures Snapshot() == Evict(old(Snapshot()))
    {
      var oldest := order[0];
      cache := cache - {oldest};
      order := order[1..];
      locks := locks - {oldest};
      evictions := evictions + 1;
    }

    method LookAgain(c: nat, wantsRefresh: bool)
      requires CanAcquire(Snapshot(), c)
      modifies this`refreshes, this`refreshers, this`order, this`hits, this`lookups, this`misses
      modifies this`cache, this`locks, this`evictions, this`held
      ensures Snapshot() == Enter(old(Snapshot()), c, wantsRefresh)
    {
      var l := lookups[c];
      if l.key in cache {
        var value := HandleCacheHit(l.key, l.now, wantsRefresh);
        lookups := lookups[c := Returned(l.key, value)];
        return;
      }
      misses := misses + 1;
      if |cache| >= maxsize {
        if order == [] {
          lookups := lookups[c := Raised(l.key)];
          return;
        }
        EvictOldest();
      }
      lookups := lookups[c := Computing(l.key, l.now, l.lock)];
      held := held + {l.lock};
    }

    /** The wrapper from the lock to the call of the function. */
    method EnterLocked(c: nat, wantsRefresh: bool)
      requires Valid() && CanAcquire(Snapshot(), c)
      modifies this
      ensures Snapshot() == Step(old(Snapshot()), Acquire(c, wantsRefresh))
      ensures Valid() && history == old(history) + [Acquire(c, wantsRefresh)]
    {
      ghost var before := Snapshot();
      LookAgain(c, wantsRefresh);
      assert Snapshot() == Step(before, Acquire(c, wantsRefresh));
      Record(Acquire(c, wantsRefresh));
    }

    method PutEntry(key: Key, e: Entry)
      modifies this`cache, this`order
      ensures Snapshot() == Put(old(Snapshot()), key, e)
    {
      if key !in cache {
        order := order + [key];
      }
      cache := cache[key := e];
    }

    /** The function returned to a lookup. */
    method FunctionReturned(c: nat, value: Value)
      requires Valid() && IsComputing(Snapshot(), c)
      modifies this
      ensures Snapshot() == Step(old(Snapshot()), ComputeDone(c, value))
      ensures Valid() && history == old(history) + [ComputeDone(c, value)]
    {
      Record(ComputeDone(c, value));
      var l := lookups[c];
      held := held - {l.lock};
      lookups := lookups[c := Returned(l.key, value)];
      PutEntry(l.key, Entry(value, l.now));
      produced := produced + {(l.key, value)};
    }

    /** A background refresh up to its await. */
    method RefreshCacheEntry(r: nat)
      requires Valid() && IsScheduled(Snapshot(), r)
      modifies this
      ensures Snapshot() == Step(old(Snapshot()), RefreshStart(r))
      ensures Valid() && history == old(history) + [RefreshStart(r)]
    {
      Record(RefreshStart(r));
      var key := refreshers[r].key;
      if key in isRefreshing {
        refreshers := refreshers[r := Over(key)];
        return;
      }
      isRefreshing := isRefreshing + {key};
      refreshers := refreshers[r := Refreshing(key)];
    }

    method Unmark(r: nat)
      requires IsRefreshing(Snapshot(), r)
      modifies this`isRefreshing, this`refreshers
      ensures Snapshot() == End(old(Snapshot()), r)
    {
      var key := refreshers[r].key;
      isRefreshing := isRefreshing - {key};
      refreshers := refreshers[r := Over(key)];
    }

    /** The function returned to a refresh. */
    method RefreshReturned(r: nat, value: Value, now: int)
      requires Valid() && IsRefreshing(Snapshot(), r)
      modifies this
      ensures Snapshot() == Step(old(Snapshot()), RefreshDone(r, value, now))
      ensures Valid() && history == old(history) + [RefreshDone(r, value, now)]
      ensures cache == old(cache)[old(refreshers)[r].key := Entry(value, now)]
    {
      Record(RefreshDone(r, value, now));
      var key := refreshers[r].key;
      Unmark(r);
      PutEntry(key, Entry(value, now));
      produced := produced + {(key, value)};
    }

    /** The function raised in a lookup: the lock is released and nothing is stored. */
    method FunctionRaised(c: nat)
      requires Valid() && IsComputing(Snapshot(), c)
      modifies this
      ensures Snapshot() == Step(old(Snapshot()), ComputeFail(c))
      ensures Valid() && history == old(history) + [ComputeFail(c)]
    {
      Record(ComputeFail(c));
      held := held - {lookups[c].lock};
      lookups := lookups[c := Raised(lookups[c].key)];
    }

    /** The function raised in a refresh: the mark is removed all the same. */
    method RefreshRaised(r: nat)
      requires Valid() && IsRefreshing(Snapshot(), r)
      modifies this
      ensures Snapshot() == Step(old(Snapshot()), RefreshFail(r))
      ensures Valid() && history == old(history) + [RefreshFail(r)]
    {
      Record(RefreshFail(r));
      Unmark(r);
    }

    /** A lookup is cancelled while it waits for the lock. */
    method CancelWaiting(c: nat)
      requires Valid() && c < |lookups| && lookups[c].Queued?
      modifies this
      ensures Snapshot() == Step(old(Snapshot()), CancelWait(c))
      ensures Valid() && history == old(history) + [CancelWait(c)]
    {
      Record(CancelWait(c));
      lookups := lookups[c := Abandoned(lookups[c].key)];
    }

    /** The figures of cache_info: hits and misses account for every lookup that is neither waiting nor was
        cancelled while waiting, and without evictions the size is the misses that were stored. */
    method CacheInfo() returns (hit: nat, missed: nat, size: nat)
      requires Valid()
      ensures hit + missed == |lookups| - Count(lookups, InQueue) - Count(lookups, Cancelled)
      ensures evictions == 0 ==> size == missed - Count(lookups, InFunction) - Count(lookups, Error)
      ensures size == |order|
    {
      Promises();
      ListsSize(cache, order);
      hit, missed, size := hits, misses, |cache|;
    }
  }

  lemma {:induction false} ListsSize(cache: map<Key, Entry>, order: seq<Key>)
    requires Lists(cache, order)
    ensures |order| == |cache|
  {
    DistinctByCount(order);
    assert Elements(order) == cache.Keys;
  }
}
