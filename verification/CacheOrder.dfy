/**
 * Which entry the cache evicts. Its dict is kept in order of last touch, where a touch is a fresh hit or
 * the first store of an absent key. The order of last use, which an LRU cache would keep, counts stale hits
 * and stores onto a present key as well; the two part exactly when such a use is not of the last key.
 */
module CacheOrder {
  import opened Common
  import opened AsyncCache

  predicate FreshHit(s: State, key: Key, now: int) {
    key in s.cache && now - s.cache[key].added <= s.seconds
  }

  function Touched(s: State, e: Event): Option<Key> {
    match e
    case Call(key, now, _) => if FreshHit(s, key, now) then Some(key) else None
    case Acquire(c, _) =>
      if CanAcquire(s, c) && FreshHit(s, s.lookups[c].key, s.lookups[c].now) then Some(s.lookups[c].key) else None
    case ComputeDone(c, _) => if IsComputing(s, c) then FirstStore(s, s.lookups[c].key) else None
    case RefreshDone(r, _, _) => if IsRefreshing(s, r) then FirstStore(s, s.refreshers[r].key) else None
    case _ => None
  }

  function FirstStore(s: State, key: Key): Option<Key> {
    if key in s.cache then None else Some(key)
  }

  /** A key is used when a lookup of it is answered, fresh or stale, and when it enters the cache. */
  function Used(s: State, e: Event): Option<Key> {
    match e
    case Call(key, _, _) => if key in s.cache then Some(key) else None
    case Acquire(c, _) => if CanAcquire(s, c) && s.lookups[c].key in s.cache then Some(s.lookups[c].key) else None
    case ComputeDone(c, _) => if IsComputing(s, c) then Some(s.lookups[c].key) else None
    case RefreshDone(r, _, _) => if IsRefreshing(s, r) then FirstStore(s, s.refreshers[r].key) else None
    case _ => None
  }

  datatype Mark = Touch | Use

  function Marked(mark: Mark, s: State, e: Event): Option<Key> {
    match mark case Touch => Touched(s, e) case Use => Used(s, e)
  }

  /** The position in the run of the last touch or use of a key. */
  function Last(mark: Mark, start: State, es: seq<Event>, key: Key): nat {
    if es == [] then 0
    else if Marked(mark, Run(start, es[..|es| - 1]), es[|es| - 1]) == Some(key) then |es|
    else Last(mark, start, es[..|es| - 1], key)
  }

  lemma {:induction false} LastBound(mark: Mark, start: State, es: seq<Event>, key: Key)
    ensures Last(mark, start, es, key) <= |es|
  {
    if es != [] { LastBound(mark, start, es[..|es| - 1], key); }
  }

  /** The order lists exactly the cached keys, each once. */
  ghost predicate Lists(cache: map<Key, Entry>, order: seq<Key>) {
    Distinct(order) && forall k :: k in order <==> k in cache
  }

  lemma {:induction false} WithoutAt(order: seq<Key>, key: Key) returns (p: nat)
    ensures p <= |order| && key !in order[..p]
    ensures if p < |order| then order[p] == key && Without(order, key) == order[..p] + order[p + 1..]
            else Without(order, key) == order
  {
    if order == [] {
      p := 0;
    } else if order[0] == key {
      p := 0;
    } else {
      var first, rest := [order[0]], order[1..];
      var q := WithoutAt(rest, key);
      p := q + 1;
      assert order[..p] == first + rest[..q];
      if p < |order| {
        assert order[p + 1..] == rest[q + 1..];
        assert first + (rest[..q] + rest[q + 1..]) == (first + rest[..q]) + rest[q + 1..];
      } else {
        assert order == first + rest;
      }
    }
  }

  lemma {:induction false} WithoutKey(order: seq<Key>, key: Key)
    requires Distinct(order)
    ensures var r := Without(order, key);
            Distinct(r) && (key !in order ==> r == order) && forall k :: k in r <==> k in order && k != key
  {
    var p := WithoutAt(order, key);
    if p < |order| {
      var r := order[..p] + order[p + 1..];
      assert order == order[..p] + [key] + order[p + 1..];
      forall k | k in r ensures k != key {
        var i :| 0 <= i < |r| && r[i] == k;
        assert r[i] == order[if i < p then i else i + 1];
      }
    }
  }

  /** A step that touches a key moves it to the end; any other step keeps the order or drops its head. */
  ghost predicate Moves(s: State, s': State, touched: Option<Key>) {
    match touched
    case Some(key) => s'.order == Without(s.order, key) + [key] && s'.cache.Keys == s.cache.Keys + {key}
    case None =>
      || (s'.order == s.order && s'.cache.Keys == s.cache.Keys)
      || (s.order != [] && s'.order == s.order[1..] && s'.cache.Keys == s.cache.Keys - {s.order[0]})
  }

  lemma {:induction false} CallMoves(s: State, key: Key, now: int, wantsRefresh: bool)
    ensures Moves(s, StartLookup(s, key, now, wantsRefresh), Touched(s, Call(key, now, wantsRefresh)))
  {
    var s' := StartLookup(s, key, now, wantsRefresh);
    if key in s.cache {
      assert s'.cache.Keys == s.cache.Keys == s.cache.Keys + {key};
    }
  }

  lemma {:induction false} EnterMoves(s: State, c: nat, wantsRefresh: bool)
    requires CanAcquire(s, c)
    ensures Moves(s, Enter(s, c, wantsRefresh), Touched(s, Acquire(c, wantsRefresh)))
  {
    var key, s' := s.lookups[c].key, Enter(s, c, wantsRefresh);
    if key in s.cache {
      assert s'.cache.Keys == s.cache.Keys == s.cache.Keys + {key};
    }
  }

  lemma {:induction false} StoreMoves(s: State, c: nat, value: Value)
    requires Lists(s.cache, s.order) && IsComputing(s, c)
    ensures Moves(s, Store(s, c, value), FirstStore(s, s.lookups[c].key))
  {
    WithoutKey(s.order, s.lookups[c].key);
  }

  lemma {:induction false} RefreshMoves(s: State, r: nat, value: Value, now: int)
    requires Lists(s.cache, s.order) && IsRefreshing(s, r)
    ensures Moves(s, Refreshed(s, r, value, now), FirstStore(s, s.refreshers[r].key))
  {
    WithoutKey(s.order, s.refreshers[r].key);
  }

  lemma {:induction false} StepMoves(s: State, e: Event)
    requires Lists(s.cache, s.order)
    ensures Moves(s, Step(s, e), Touched(s, e))
  {
    match e
    case Call(key, now, wantsRefresh) => CallMoves(s, key, now, wantsRefresh);
    case Acquire(c, wantsRefresh) => if CanAcquire(s, c) { EnterMoves(s, c, wantsRefresh); }
    case ComputeDone(c, value) => if IsComputing(s, c) { StoreMoves(s, c, value); }
    case RefreshDone(r, value, now) => if IsRefreshing(s, r) { RefreshMoves(s, r, value, now); }
    case _ => OthersStay(s, e);
  }

  lemma {:induction false} OthersStay(s: State, e: Event)
    requires e.ComputeFail? || e.CancelWait? || e.RefreshStart? || e.RefreshFail?
    ensures Step(s, e).order == s.order && Step(s, e).cache == s.cache
  {}

  lemma {:induction false} MovesKeepLists(s: State, s': State, touched: Option<Key>)
    requires Lists(s.cache, s.order) && Moves(s, s', touched)
    ensures Lists(s'.cache, s'.order)
  {
    forall k ensures k in s'.cache <==> k in s'.cache.Keys {}
    if touched.Some? {
      WithoutKey(s.order, touched.value);
    } else if s'.order != s.order {
      assert s.order == [s.order[0]] + s'.order;
    }
  }

  ghost predicate InOrder(mark: Mark, start: State, es: seq<Event>, order: seq<Key>) {
    forall i, j :: 0 <= i < j < |order| ==> Last(mark, start, es, order[i]) < Last(mark, start, es, order[j])
  }

  /** Keys not marked by the last step keep their last mark. */
  lemma {:induction false} MarkStep(mark: Mark, start: State, before: seq<Event>, e: Event, key: Key)
    ensures Last(mark, start, before + [e], key)
         == if Marked(mark, Run(start, before), e) == Some(key) then |before| + 1 else Last(mark, start, before, key)
    ensures Last(mark, start, before, key) <= |before|
  {
    assert (before + [e])[..|before|] == before;
    LastBound(mark, start, before, key);
  }

  lemma {:induction false} DropKeepsOrder(mark: Mark, start: State, es: seq<Event>, order: seq<Key>, d: nat)
    requires InOrder(mark, start, es, order) && d <= |order|
    ensures InOrder(mark, start, es, order[d..])
  {}

  lemma {:induction false} WithoutKeepsOrder(mark: Mark, start: State, es: seq<Event>, order: seq<Key>, key: Key)
    requires InOrder(mark, start, es, order)
    ensures InOrder(mark, start, es, Without(order, key))
  {
    var p := WithoutAt(order, key);
    if p < |order| {
      GapKeepsOrder(mark, start, es, order, order[..p] + order[p + 1..], p);
    }
  }

  lemma {:induction false} GapKeepsOrder(mark: Mark, start: State, es: seq<Event>, order: seq<Key>, r: seq<Key>, p: nat)
    requires InOrder(mark, start, es, order) && p < |order| && r == order[..p] + order[p + 1..]
    ensures InOrder(mark, start, es, r)
  {
    forall i, j | 0 <= i < j < |r| ensures Last(mark, start, es, r[i]) < Last(mark, start, es, r[j]) {
      var a, b := if i < p then i else i + 1, if j < p then j else j + 1;
      assert r[i] == order[a] && r[j] == order[b] && a < b;
    }
  }

  lemma {:induction false} UnmarkedKeepOrder(mark: Mark, start: State, before: seq<Event>, e: Event, order: seq<Key>,
                                             marked: Option<Key>)
    requires InOrder(mark, start, before, order) && marked == Marked(mark, Run(start, before), e)
    requires forall k :: k in order ==> marked != Some(k)
    ensures InOrder(mark, start, before + [e], order)
  {
    forall i, j | 0 <= i < j < |order|
      ensures Last(mark, start, before + [e], order[i]) < Last(mark, start, before + [e], order[j])
    {
      MarkStep(mark, start, before, e, order[i]);
      MarkStep(mark, start, before, e, order[j]);
    }
  }

  lemma {:induction false} AppendMarked(mark: Mark, start: State, before: seq<Event>, e: Event, order: seq<Key>,
                                        key: Key)
    requires InOrder(mark, start, before + [e], order) && key !in order
    requires Some(key) == Marked(mark, Run(start, before), e)
    ensures InOrder(mark, start, before + [e], order + [key])
  {
    MarkStep(mark, start, before, e, key);
    forall k | k in order ensures Last(mark, start, before + [e], k) < Last(mark, start, before + [e], key) {
      MarkStep(mark, start, before, e, k);
    }
  }

  lemma {:induction false} MoveKeepsOrder(mark: Mark, start: State, before: seq<Event>, e: Event, order: seq<Key>,
                                          key: Key)
    requires Distinct(order) && InOrder(mark, start, before, order) && Marked(mark, Run(start, before), e) == Some(key)
    ensures InOrder(mark, start, before + [e], Without(order, key) + [key])
  {
    WithoutKey(order, key);
    WithoutKeepsOrder(mark, start, before, order, key);
    UnmarkedKeepOrder(mark, start, before, e, Without(order, key), Some(key));
    AppendMarked(mark, start, before, e, Without(order, key), key);
  }

  /** A step whose touch is its mark keeps the dict in order of marks. */
  lemma {:induction false} TouchKeepsOrder(mark: Mark, start: State, before: seq<Event>, e: Event, s: State, s': State)
    requires s == Run(start, before) && s' == Step(s, e) && Marked(mark, s, e) == Touched(s, e)
    requires Lists(s.cache, s.order) && InOrder(mark, start, before, s.order) && Moves(s, s', Touched(s, e))
    ensures InOrder(mark, start, before + [e], s'.order)
  {
    match Touched(s, e)
    case Some(key) => MoveKeepsOrder(mark, start, before, e, s.order, key);
    case None =>
      assert s.order[0..] == s.order;
      DropKeepsOrder(mark, start, before, s.order, if s'.order == s.order then 0 else 1);
      UnmarkedKeepOrder(mark, start, before, e, s'.order, None);
  }

  lemma {:induction false} DictListsCache(maxsize: nat, seconds: int, es: seq<Event>)
    ensures var s := Run(Initial(maxsize, seconds), es); Lists(s.cache, s.order)
  {
    if es != [] {
      var s := Run(Initial(maxsize, seconds), es[..|es| - 1]);
      DictListsCache(maxsize, seconds, es[..|es| - 1]);
      StepMoves(s, es[|es| - 1]);
      MovesKeepLists(s, Step(s, es[|es| - 1]), Touched(s, es[|es| - 1]));
    }
  }

  /** Over every run the dict lists its keys in order of last touch. */
  lemma {:induction false} OrderIsByLastTouch(maxsize: nat, seconds: int, es: seq<Event>)
    ensures var start := Initial(maxsize, seconds);
            var s := Run(start, es);
            Lists(s.cache, s.order) && InOrder(Touch, start, es, s.order)
  {
    DictListsCache(maxsize, seconds, es);
    if es != [] {
      var start, before, e := Initial(maxsize, seconds), es[..|es| - 1], es[|es| - 1];
      assert es == before + [e];
      OrderIsByLastTouch(maxsize, seconds, before);
      StepMoves(Run(start, before), e);
      TouchKeepsOrder(Touch, start, before, e, Run(start, before), Run(start, es));
    }
  }

  /** What leaves the cache leaves it alone, from the head of the dict. */
  lemma {:induction false} EvictsHead(s: State, e: Event, gone: Key, kept: Key)
    requires Lists(s.cache, s.order) && gone in s.cache && gone !in Step(s, e).cache && kept in s.cache && kept != gone
    ensures kept in Step(s, e).cache
    ensures s.order != [] && s.order[0] == gone && exists j :: 0 < j < |s.order| && s.order[j] == kept
  {
    StepMoves(s, e);
    assert gone in s.cache.Keys && gone !in Step(s, e).cache.Keys && kept in s.cache.Keys;
    assert kept in s.order && s.order[0] == gone;
    assert kept in Step(s, e).cache.Keys;
  }

  /** A key leaves the cache only by eviction, and then every other cached key was touched later. */
  lemma {:induction false} EvictsLeastRecentlyTouched(maxsize: nat, seconds: int, es: seq<Event>, e: Event,
                                                      gone: Key, kept: Key)
    requires var s := Run(Initial(maxsize, seconds), es);
             gone in s.cache && gone !in Step(s, e).cache && kept in s.cache && kept != gone
    ensures var start := Initial(maxsize, seconds);
            && kept in Step(Run(start, es), e).cache
            && Last(Touch, start, es, gone) < Last(Touch, start, es, kept)
  {
    OrderIsByLastTouch(maxsize, seconds, es);
    EvictsHead(Run(Initial(maxsize, seconds), es), e, gone, kept);
  }

  // ---------------------------------------------------------------- the order of use

  /** A hit puts its key last exactly when it is fresh or the key is last already. */
  lemma {:induction false} HitPutsLastExactly(s: State, key: Key, now: int, wantsRefresh: bool)
    requires Lists(s.cache, s.order) && key in s.cache
    ensures s.order != []
    ensures HandleHit(s, key, now, wantsRefresh).order == Without(s.order, key) + [key]
            <==> FreshHit(s, key, now) || s.order[|s.order| - 1] == key
  {
    HitFrame(s, key, now, wantsRefresh);
    WithoutLast(s.order, key);
  }

  lemma {:induction false} WithoutLast(order: seq<Key>, key: Key)
    requires Distinct(order) && key in order
    ensures order == Without(order, key) + [key] <==> order[|order| - 1] == key
  {
    var p := WithoutAt(order, key);
    if order[|order| - 1] == key {
      assert p == |order| - 1 by {
        assert order[p] == order[|order| - 1];
      }
      assert order == order[..p] + [key];
      assert order[p + 1..] == [];
      assert order[..p] + order[p + 1..] == order[..p];
    }
  }

  /** A use that the dict does not record: a stale hit, or a store onto a key that is there, of a key that is
      not last. */
  predicate Forgets(s: State, e: Event) {
    Forgotten(s.order, Used(s, e), Touched(s, e))
  }

  predicate Forgotten(order: seq<Key>, used: Option<Key>, touched: Option<Key>) {
    used.Some? && touched.None? && order != [] && order[|order| - 1] != used.value
  }

  /** A use without a touch leaves the dict as it is. */
  lemma {:induction false} UntouchedUse(s: State, e: Event)
    requires Lists(s.cache, s.order)
    ensures Touched(s, e).Some? ==> Used(s, e) == Touched(s, e)
    ensures Used(s, e).Some? && Touched(s, e).None? ==> Step(s, e).order == s.order && Used(s, e).value in s.order
  {
    match e
    case Call(key, now, wantsRefresh) => if key in s.cache { HitFrame(s, key, now, wantsRefresh); }
    case Acquire(c, wantsRefresh) =>
      if CanAcquire(s, c) && s.lookups[c].key in s.cache {
        HitFrame(s, s.lookups[c].key, s.lookups[c].now, wantsRefresh);
      }
    case _ =>
  }

  lemma {:induction false} LastKeyUsed(start: State, before: seq<Event>, e: Event, order: seq<Key>, key: Key)
    requires Distinct(order) && key in order
    requires InOrder(Use, start, before, order) && Used(Run(start, before), e) == Some(key)
    ensures InOrder(Use, start, before + [e], order) <==> order[|order| - 1] == key
  {
    var n := |order| - 1;
    if order[n] == key {
      WithoutLast(order, key);
      MoveKeepsOrder(Use, start, before, e, order, key);
    } else {
      var i :| 0 <= i < |order| && order[i] == key;
      MarkStep(Use, start, before, e, key);
      MarkStep(Use, start, before, e, order[n]);
      assert Last(Use, start, before + [e], order[n]) < Last(Use, start, before + [e], order[i]);
    }
  }

  lemma {:induction false} UseKeepsOrder(start: State, before: seq<Event>, e: Event, order: seq<Key>, used: Option<Key>)
    requires Distinct(order) && used.Some? && used.value in order
    requires InOrder(Use, start, before, order) && used == Used(Run(start, before), e)
    ensures InOrder(Use, start, before + [e], order) <==> !Forgotten(order, used, None)
  {
    LastKeyUsed(start, before, e, order, used.value);
  }

  lemma {:induction false} StepKeepsUseOrderExactly(start: State, before: seq<Event>, e: Event, s: State, s': State,
                                                    used: Option<Key>, touched: Option<Key>)
    requires s == Run(start, before) && s' == Step(s, e) && used == Used(s, e) && touched == Touched(s, e)
    requires Lists(s.cache, s.order) && InOrder(Use, start, before, s.order)
    ensures InOrder(Use, start, before + [e], s'.order) <==> !Forgotten(s.order, used, touched)
  {
    UntouchedUse(s, e);
    if used == touched {
      StepMoves(s, e);
      TouchKeepsOrder(Use, start, before, e, s, s');
    } else {
      UseKeepsOrder(start, before, e, s.order, used);
    }
  }

  ghost predicate UseOrderAlong(start: State, es: seq<Event>) {
    forall n :: 0 <= n <= |es| ==> InOrder(Use, start, es[..n], Run(start, es[..n]).order)
  }

  ghost predicate NeverForgets(start: State, es: seq<Event>) {
    forall i :: 0 <= i < |es| ==> !Forgets(Run(start, es[..i]), es[i])
  }

  /** The cache is an LRU cache along a run exactly when the run forgets no use: when every stale hit and every
      store onto a present key is of the key that is last already. */
  lemma {:induction false} UseOrderExactly(maxsize: nat, seconds: int, es: seq<Event>)
    ensures UseOrderAlong(Initial(maxsize, seconds), es) <==> NeverForgets(Initial(maxsize, seconds), es)
  {
    var start := Initial(maxsize, seconds);
    if UseOrderAlong(start, es) {
      forall i | 0 <= i < |es| ensures !Forgets(Run(start, es[..i]), es[i]) {
        assert InOrder(Use, start, es[..i + 1], Run(start, es[..i + 1]).order);
        PrefixStep(maxsize, seconds, es, i);
      }
    }
    if NeverForgets(start, es) {
      forall n | 0 <= n <= |es| ensures InOrder(Use, start, es[..n], Run(start, es[..n]).order) {
        UseOrderUpTo(maxsize, seconds, es, n);
      }
    }
  }

  lemma {:induction false} PrefixStep(maxsize: nat, seconds: int, es: seq<Event>, i: nat)
    requires i < |es|
    requires var start := Initial(maxsize, seconds); InOrder(Use, start, es[..i], Run(start, es[..i]).order)
    ensures var start := Initial(maxsize, seconds);
            InOrder(Use, start, es[..i + 1], Run(start, es[..i + 1]).order) <==> !Forgets(Run(start, es[..i]), es[i])
  {
    var start, before := Initial(maxsize, seconds), es[..i];
    assert es[..i + 1] == before + [es[i]];
    RunOne(start, before, es[i]);
    DictListsCache(maxsize, seconds, before);
    var s := Run(start, before);
    StepKeepsUseOrderExactly(start, before, es[i], s, Run(start, before + [es[i]]), Used(s, es[i]), Touched(s, es[i]));
  }

  lemma {:induction false} UseOrderUpTo(maxsize: nat, seconds: int, es: seq<Event>, n: nat)
    requires n <= |es| && NeverForgets(Initial(maxsize, seconds), es)
    ensures var start := Initial(maxsize, seconds); InOrder(Use, start, es[..n], Run(start, es[..n]).order)
  {
    if n > 0 {
      UseOrderUpTo(maxsize, seconds, es, n - 1);
      PrefixStep(maxsize, seconds, es, n - 1);
    } else {
      assert es[..0] == [];
    }
  }

  /** While no use is forgotten, eviction takes the least recently used key. */
  lemma {:induction false} EvictsLeastRecentlyUsed(maxsize: nat, seconds: int, es: seq<Event>, e: Event, gone: Key,
                                                   kept: Key)
    requires NeverForgets(Initial(maxsize, seconds), es)
    requires var s := Run(Initial(maxsize, seconds), es);
             gone in s.cache && gone !in Step(s, e).cache && kept in s.cache && kept != gone
    ensures Last(Use, Initial(maxsize, seconds), es, gone) < Last(Use, Initial(maxsize, seconds), es, kept)
  {
    UseOrderUpTo(maxsize, seconds, es, |es|);
    assert es[..|es|] == es;
    DictListsCache(maxsize, seconds, es);
    EvictsHead(Run(Initial(maxsize, seconds), es), e, gone, kept);
  }

  // ---------------------------------------------------------------- a run that is not LRU

  /** The cache is full, its first key is hit stale, and then a new key comes. */
  ghost function StaleHit(m: nat, seconds: int): seq<Event> {
    Fill(m) + [Call(0, Late(seconds), false)] + [Call(m, Late(seconds), false)]
  }

  lemma {:induction false} StaleHitState(s: State, m: nat, late: int)
    requires Filled(s, m) && m == s.maxsize && m > 0 && late == Late(s.seconds)
    ensures var s' := Step(Step(s, Call(0, late, false)), Call(m, late, false));
            && s'.cache == s.cache && s'.order == s.order && s'.held == {} && s'.maxsize == m
            && |s'.lookups| == m + 2 && s'.lookups[m + 1] == Queued(m, late, s.nextLock)
  {
    var s1 := Step(s, Call(0, late, false));
    assert |s1.lookups| == m + 1 && s1.cache == s.cache && s1.locks == s.locks;
  }

  lemma {:induction false} StaleHitUses(m: nat, seconds: int, start: State)
    requires m > 1 && Filled(Run(start, Fill(m)), m)
    ensures Last(Use, start, StaleHit(m, seconds), 1) <= |Fill(m)| < Last(Use, start, StaleHit(m, seconds), 0)
  {
    var a := Fill(m);
    var hit, miss := Call(0, Late(seconds), false), Call(m, Late(seconds), false);
    RunOne(start, a, hit);
    var s := Run(start, a);
    CallFrame(s, 0, Late(seconds), false);
    assert Used(s, hit) == Some(0);
    assert Used(Run(start, a + [hit]), miss) == None;
    MarkStep(Use, start, a, hit, 0);
    MarkStep(Use, start, a, hit, 1);
    MarkStep(Use, start, a + [hit], miss, 0);
    MarkStep(Use, start, a + [hit], miss, 1);
  }

  /** So in a full cache of any size above one the next miss evicts the key used last and keeps one used before
      it: the cache is not an LRU cache, even when the clock never goes back. */
  lemma {:induction false} StaleHitIsForgotten(maxsize: nat, seconds: int)
    requires maxsize > 1
    ensures var start, es := Initial(maxsize, seconds), StaleHit(maxsize, seconds);
            var s, s' := Run(start, es), Step(Run(start, es), Acquire(maxsize + 1, false));
            && Timely(es) && 0 in s.cache && 1 in s.cache && 0 !in s'.cache && 1 in s'.cache
            && Last(Use, start, es, 1) < Last(Use, start, es, 0)
  {
    var m, start, late := maxsize, Initial(maxsize, seconds), Late(seconds);
    FillFills(start, m, Fill(m));
    var s := Run(start, Fill(m));
    RunOne(start, Fill(m), Call(0, late, false));
    RunOne(start, Fill(m) + [Call(0, late, false)], Call(m, late, false));
    StaleHitState(s, m, late);
    EvictsFirst(Run(start, StaleHit(m, seconds)), m, late, s.nextLock);
    StaleHitUses(m, seconds, start);
    FillIsTimely(m);
    TimelySnoc(Fill(m), 0, Call(0, late, false), late);
    TimelySnoc(Fill(m) + [Call(0, late, false)], late, Call(m, late, false), late);
  }

  // ---------------------------------------------------------------- entering with the lock

  /** With room for one entry, a lookup that gets the lock hits or calls the function; only maxsize 0 raises. */
  lemma {:induction false} AcquireReachesFunction(maxsize: nat, seconds: int, es: seq<Event>, c: nat,
                                                  wantsRefresh: bool)
    requires maxsize > 0 && CanAcquire(Run(Initial(maxsize, seconds), es), c)
    ensures var s := Run(Initial(maxsize, seconds), es);
            var l := Step(s, Acquire(c, wantsRefresh)).lookups[c];
            if s.lookups[c].key in s.cache then l == Returned(s.lookups[c].key, s.cache[s.lookups[c].key].value)
            else l.Computing? && l.key == s.lookups[c].key
  {
    var s := Run(Initial(maxsize, seconds), es);
    OrderIsByLastTouch(maxsize, seconds, es);
    SizesStay(maxsize, seconds, es);
    if |s.cache| >= s.maxsize {
      assert s.cache.Keys != {} by { assert |s.cache.Keys| == |s.cache|; }
      var k :| k in s.cache.Keys;
      assert k in s.order;
    }
  }

  lemma {:induction false} SizesStay(maxsize: nat, seconds: int, es: seq<Event>)
    ensures Run(Initial(maxsize, seconds), es).maxsize == maxsize
  {
    if es != [] {
      SizesStay(maxsize, seconds, es[..|es| - 1]);
      MaxsizeStays(Run(Initial(maxsize, seconds), es[..|es| - 1]), es[|es| - 1]);
    }
  }
}
