/**
 * The executor's poll: which ready tasks one cycle dispatches, and how the per-project
 * exponential back-off behaves over any number of cycles.
 */
module Dispatch {
  import opened Common

  type Project = string

  datatype Config = Config(base: nat, max: nat, batch: nat, cap: nat)

  /** Settings read from the environment are positive; anything else falls back to the default. */
  type Settings = c: Config | c.base > 0 && c.max > 0 && c.batch > 0 && c.cap > 0
    witness Config(300, 3600, 5, 6)

  datatype ReadyTask = ReadyTask(id: nat, project: Project)

  /** What the outside world answers when a task's turn comes. */
  datatype Answer = Answer(allowed: bool, inProgress: nat, hasCapacity: bool)

  datatype Outcome = Cooling | Denied | ProjectFull | GlobalFull | Dispatched

  datatype Cooldown = Cooldown(until: real, hits: nat)

  type Backoffs = map<Project, Cooldown>

  // ---------------------------------------------------------------- back-off

  function Pow2(n: nat): (r: nat)
    ensures r >= 1
  {
    if n == 0 then 1 else 2 * Pow2(n - 1)
  }

  function BackoffSeconds(c: Settings, hits: nat): nat
    requires hits >= 1
  {
    var b := c.base * Pow2(hits - 1);
    if b < c.max then b else c.max
  }

  lemma {:induction false} BackoffIsPositive(c: Settings, hits: nat)
    requires hits >= 1
    ensures BackoffSeconds(c, hits) > 0
  {
    assert c.base * Pow2(hits - 1) > 0;
  }

  /** One task reaching the rate limiter: whose, when, and the limiter's answer if asked. */
  datatype Attempt = Attempt(project: Project, now: real, allowed: bool)

  predicate IsCooling(b: Backoffs, p: Project, now: real) {
    p in b && now < b[p].until
  }

  function Hits(b: Backoffs, p: Project): nat {
    if p in b then b[p].hits else 0
  }

  function AfterAttempt(c: Settings, b: Backoffs, a: Attempt): Backoffs {
    if IsCooling(b, a.project, a.now) then b
    else if a.allowed then b - {a.project}
    else
      var hits := Hits(b, a.project) + 1;
      b[a.project := Cooldown(a.now + BackoffSeconds(c, hits) as real, hits)]
  }

  function AfterAttempts(c: Settings, b: Backoffs, attempts: seq<Attempt>): Backoffs {
    if attempts == [] then b
    else AfterAttempt(c, AfterAttempts(c, b, attempts[..|attempts| - 1]), attempts[|attempts| - 1])
  }

  /** When the limiter refused p, since it last let p through. */
  ghost function DenialTimes(c: Settings, attempts: seq<Attempt>, p: Project): seq<real> {
    if attempts == [] then []
    else
      var before, last := attempts[..|attempts| - 1], attempts[|attempts| - 1];
      var denials := DenialTimes(c, before, p);
      if last.project != p || IsCooling(AfterAttempts(c, map[], before), p, last.now) then denials
      else if last.allowed then []
      else denials + [last.now]
  }

  ghost predicate Spaced(c: Settings, denials: seq<real>) {
    forall i :: 0 <= i < |denials| - 1 ==> denials[i + 1] >= denials[i] + BackoffSeconds(c, i + 1) as real
  }

  /** After k consecutive denials of a project, over any mixture of projects and cycles, the stored
      count is k, the stored deadline is one back-off after the last of them, and the denials are
      spaced by the growing back-offs. */
  lemma {:induction false} StoredCountIsConsecutiveDenials(c: Settings, attempts: seq<Attempt>, p: Project)
    ensures var denials, b := DenialTimes(c, attempts, p), AfterAttempts(c, map[], attempts);
            && Hits(b, p) == |denials|
            && (p in b <==> denials != [])
            && (p in b ==> b[p].until == denials[|denials| - 1] + BackoffSeconds(c, |denials|) as real)
            && Spaced(c, denials)
  {
    if attempts != [] {
      StoredCountIsConsecutiveDenials(c, attempts[..|attempts| - 1], p);
    }
  }

  /** d is the smaller of the doubled base and the cap. */
  predicate IsBackoff(c: Settings, k: nat, d: real)
    requires k >= 1
  {
    && d <= (c.base * Pow2(k - 1)) as real && d <= c.max as real
    && (d == (c.base * Pow2(k - 1)) as real || d == c.max as real)
  }

  /** Over any attempts a project is skipped exactly until the smaller of the doubled base and the cap has passed
      since its last denial, the doublings being its consecutive denials before that one. */
  lemma {:induction false} SkippedUntilBackoffExactly(c: Settings, attempts: seq<Attempt>, p: Project, now: real,
                                                      d: real)
    requires var denials := DenialTimes(c, attempts, p); denials != [] ==> IsBackoff(c, |denials|, d)
    ensures var denials := DenialTimes(c, attempts, p);
            IsCooling(AfterAttempts(c, map[], attempts), p, now)
            <==> denials != [] && now < denials[|denials| - 1] + d
  {
    StoredCountIsConsecutiveDenials(c, attempts, p);
  }

  ghost function TotalBackoff(c: Settings, k: nat): nat {
    if k == 0 then 0 else TotalBackoff(c, k - 1) + BackoffSeconds(c, k)
  }

  lemma {:induction false} SpacedDenialsSpan(c: Settings, denials: seq<real>)
    requires denials != [] && Spaced(c, denials)
    ensures denials[|denials| - 1] >= denials[0] + TotalBackoff(c, |denials| - 1) as real
  {
    if |denials| > 1 {
      SpacedDenialsSpan(c, denials[..|denials| - 1]);
      assert denials[|denials| - 1] >= denials[|denials| - 2] + BackoffSeconds(c, |denials| - 1) as real by {
        assert Spaced(c, denials);
        var i := |denials| - 2;
        assert denials[i + 1] >= denials[i] + BackoffSeconds(c, i + 1) as real;
      }
    }
  }

  lemma {:induction false} Doubling(b: nat, x: nat)
    requires x >= 1
    ensures b * x <= b * (2 * x) && b * (2 * x - 1) == b * (x - 1) + b * x
  {}

  /** Before saturation the sum is base * (2^k - 1). */
  lemma {:induction false} TotalBackoffBeforeSaturation(c: Settings, k: nat)
    requires k == 0 || c.base * Pow2(k - 1) <= c.max
    ensures TotalBackoff(c, k) == c.base * (Pow2(k) - 1)
  {
    if k > 0 {
      var p := Pow2(k - 1);
      if k > 1 {
        Doubling(c.base, Pow2(k - 2));
      }
      TotalBackoffBeforeSaturation(c, k - 1);
      Doubling(c.base, p);
    }
  }

  /** j is how many back-offs stay below the cap: base, 2 * base, .., base * 2^(j-1). */
  predicate SaturatesAfter(c: Settings, j: nat) {
    (j > 0 ==> c.base * Pow2(j - 1) < c.max) && c.max <= c.base * Pow2(j)
  }

  lemma {:induction false} BackoffAfterSaturation(c: Settings, j: nat, k: nat)
    requires SaturatesAfter(c, j) && k > j
    ensures BackoffSeconds(c, k) == c.max
  {
    PowGrows(c.base, j, k - 1);
  }

  lemma {:induction false} PowGrows(b: nat, i: nat, k: nat)
    requires i <= k
    ensures b * Pow2(i) <= b * Pow2(k)
  {
    if i < k {
      PowGrows(b, i, k - 1);
      Doubling(b, Pow2(k - 1));
    }
  }

  lemma {:induction false} OneMore(n: nat, m: nat)
    requires n > 0
    ensures n * m == (n - 1) * m + m
  {}

  /** The sum of the first k back-offs: doubled while below the cap, then the cap each time. */
  lemma {:induction false} TotalBackoffExactly(c: Settings, j: nat, k: nat)
    requires SaturatesAfter(c, j)
    ensures k <= j ==> TotalBackoff(c, k) == c.base * (Pow2(k) - 1)
    ensures k >= j ==> TotalBackoff(c, k) == c.base * (Pow2(j) - 1) + (k - j) * c.max
  {
    if k <= j {
      if k > 0 {
        PowGrows(c.base, k - 1, j - 1);
      }
      TotalBackoffBeforeSaturation(c, k);
    } else {
      TotalBackoffExactly(c, j, k - 1);
      BackoffAfterSaturation(c, j, k);
      OneMore(k - j, c.max);
    }
  }

  /** How many back-offs stay below the cap, from the i-th on. */
  function Doublings(c: Settings, i: nat): (j: nat)
    requires i > 0 ==> c.base * Pow2(i - 1) < c.max
    ensures SaturatesAfter(c, j)
    decreases c.max - c.base * Pow2(i)
  {
    if c.max <= c.base * Pow2(i) then i
    else
      Doubled(c.base, Pow2(i));
      Doublings(c, i + 1)
  }

  lemma {:induction false} Doubled(b: nat, x: nat)
    requires b > 0 && x > 0
    ensures b * x < b * (2 * x)
  {}

  /** How long k + 1 consecutive denials of a project take at least, whatever else happens in between, where the
      first j back-offs double and the later ones are the cap; and the last denial is never cooled longer. */
  lemma {:induction false} RepeatedDenialsTakeTime(c: Settings, attempts: seq<Attempt>, p: Project)
    requires DenialTimes(c, attempts, p) != []
    ensures var denials, b, j := DenialTimes(c, attempts, p), AfterAttempts(c, map[], attempts), Doublings(c, 0);
            var k, span := |denials| - 1, denials[|denials| - 1] - denials[0];
            && p in b && b[p].hits == k + 1 && b[p].until <= denials[k] + c.max as real
            && (k <= j ==> span >= (c.base * (Pow2(k) - 1)) as real)
            && (k >= j ==> span >= (c.base * (Pow2(j) - 1) + (k - j) * c.max) as real)
  {
    var denials := DenialTimes(c, attempts, p);
    StoredCountIsConsecutiveDenials(c, attempts, p);
    SpacedDenialsSpan(c, denials);
    TotalBackoffExactly(c, Doublings(c, 0), |denials| - 1);
  }

  // ---------------------------------------------------------------- one cycle, declaratively

  function Dispatches(ready: seq<ReadyTask>, outcomes: seq<Outcome>, p: Project): nat
    requires |outcomes| <= |ready|
  {
    if outcomes == [] then 0
    else
      var k := |outcomes| - 1;
      Dispatches(ready, outcomes[..k], p) + (if outcomes[k] == Dispatched && ready[k].project == p then 1 else 0)
  }

  /** The dispatched task ids, in fetched order. */
  function Chosen(ready: seq<ReadyTask>, outcomes: seq<Outcome>): seq<nat>
    requires |outcomes| <= |ready|
  {
    if outcomes == [] then []
    else
      var k := |outcomes| - 1;
      Chosen(ready, outcomes[..k]) + (if outcomes[k] == Dispatched then [ready[k].id] else [])
  }

  ghost predicate DeniedBefore(ready: seq<ReadyTask>, outcomes: seq<Outcome>, p: Project)
    requires |outcomes| <= |ready|
  {
    exists i :: 0 <= i < |outcomes| && outcomes[i] == Denied && ready[i].project == p
  }

  /** What must happen to task k, given what happened to the tasks before it. */
  ghost function Verdict(c: Settings, b: Backoffs, now: real, ready: seq<ReadyTask>, a: Answer,
                         before: seq<Outcome>): Outcome
    requires |before| < |ready|
  {
    var p := ready[|before|].project;
    if IsCooling(b, p, now) || DeniedBefore(ready, before, p) then Cooling
    else if !a.allowed then Denied
    else if a.inProgress + Dispatches(ready, before, p) >= c.cap then ProjectFull
    else if !a.hasCapacity then GlobalFull
    else Dispatched
  }

  ghost predicate Explained(c: Settings, b: Backoffs, now: real, ready: seq<ReadyTask>, answers: seq<Answer>,
                            outcomes: seq<Outcome>)
    requires |answers| == |ready|
  {
    && |outcomes| <= |ready|
    && forall k :: 0 <= k < |outcomes| ==> outcomes[k] == Verdict(c, b, now, ready, answers[k], outcomes[..k])
  }

  /** The cycle ends early only on the last dispatch of a full batch or at the global limit. */
  predicate Stops(c: Settings, ready: seq<ReadyTask>, outcomes: seq<Outcome>)
    requires |outcomes| <= |ready|
  {
    outcomes != [] && (outcomes[|outcomes| - 1] == GlobalFull || |Chosen(ready, outcomes)| >= c.batch)
  }

  ghost predicate Complete(c: Settings, ready: seq<ReadyTask>, outcomes: seq<Outcome>) {
    && |outcomes| <= |ready|
    && (forall k :: 0 <= k < |outcomes| ==> !Stops(c, ready, outcomes[..k]))
    && (|outcomes| == |ready| || Stops(c, ready, outcomes))
  }

  function Attempts(ready: seq<ReadyTask>, answers: seq<Answer>, now: real): (r: seq<Attempt>)
    requires |answers| == |ready|
    ensures |r| == |ready|
  {
    seq(|ready|, i requires 0 <= i < |ready| => Attempt(ready[i].project, now, answers[i].allowed))
  }

  // ---------------------------------------------------------------- what a cycle guarantees

  /** Per-project safety: at every dispatch the count just read plus this cycle's earlier dispatches
      is below the cap; so with one snapshot per project the cap is never exceeded. */
  lemma {:induction false} CapIsRespected(c: Settings, b: Backoffs, now: real, ready: seq<ReadyTask>,
                                          answers: seq<Answer>, outcomes: seq<Outcome>, p: Project, snapshot: nat)
    requires |answers| == |ready| && Explained(c, b, now, ready, answers, outcomes)
    requires forall k :: 0 <= k < |ready| && ready[k].project == p ==> answers[k].inProgress == snapshot
    ensures Dispatches(ready, outcomes, p) > 0 ==> snapshot + Dispatches(ready, outcomes, p) <= c.cap
  {
    if outcomes != [] {
      var before := outcomes[..|outcomes| - 1];
      forall k | 0 <= k < |before| ensures before[..k] == outcomes[..k] {}
      CapIsRespected(c, b, now, ready, answers, before, p, snapshot);
    }
  }

  lemma {:induction false} DeniedProjectIsSkipped(c: Settings, b: Backoffs, now: real, ready: seq<ReadyTask>,
                                                  answers: seq<Answer>, outcomes: seq<Outcome>, i: nat, j: nat)
    requires |answers| == |ready| && Explained(c, b, now, ready, answers, outcomes)
    requires i < j < |outcomes| && ready[i].project == ready[j].project && outcomes[i] == Denied
    ensures outcomes[j] == Cooling
  {
    assert outcomes[..j][i] == Denied;
  }

  function Denials(ready: seq<ReadyTask>, outcomes: seq<Outcome>, p: Project): nat
    requires |outcomes| <= |ready|
  {
    if outcomes == [] then 0
    else
      var k := |outcomes| - 1;
      Denials(ready, outcomes[..k], p) + (if outcomes[k] == Denied && ready[k].project == p then 1 else 0)
  }

  lemma {:induction false} NotDeniedBefore(ready: seq<ReadyTask>, outcomes: seq<Outcome>, p: Project)
    requires |outcomes| <= |ready| && !DeniedBefore(ready, outcomes, p)
    ensures Denials(ready, outcomes, p) == 0
  {
    if outcomes != [] {
      DeniedGrow(ready, outcomes, p);
      NotDeniedBefore(ready, outcomes[..|outcomes| - 1], p);
    }
  }

  /** Each project is denied at most once a cycle. */
  lemma {:induction false} DeniedAtMostOnce(c: Settings, b: Backoffs, now: real, ready: seq<ReadyTask>,
                                            answers: seq<Answer>, outcomes: seq<Outcome>, p: Project)
    requires |answers| == |ready| && Explained(c, b, now, ready, answers, outcomes)
    ensures Denials(ready, outcomes, p) <= 1
  {
    if outcomes != [] {
      var n := |outcomes| - 1;
      var before := outcomes[..n];
      forall j | 0 <= j < |before| ensures before[..j] == outcomes[..j] {}
      DeniedAtMostOnce(c, b, now, ready, answers, before, p);
      assert outcomes[n] == Verdict(c, b, now, ready, answers[n], before);
      if outcomes[n] == Denied && ready[n].project == p {
        NotDeniedBefore(ready, before, p);
      }
    }
  }

  /** A denial ends the project's cycle: all its dispatches come before. */
  lemma {:induction false} DenialIsLast(c: Settings, b: Backoffs, now: real, ready: seq<ReadyTask>,
                                        answers: seq<Answer>, outcomes: seq<Outcome>, k: nat)
    requires |answers| == |ready| && Explained(c, b, now, ready, answers, outcomes)
    requires k < |outcomes| && outcomes[k] == Denied
    ensures Dispatches(ready, outcomes, ready[k].project) == Dispatches(ready, outcomes[..k], ready[k].project)
  {
    var p := ready[k].project;
    forall j | k <= j < |outcomes| && ready[j].project == p ensures outcomes[j] != Dispatched {
      if k < j {
        DeniedProjectIsSkipped(c, b, now, ready, answers, outcomes, k, j);
      }
    }
    NoneDispatchedFrom(ready, outcomes, k, p);
  }

  lemma {:induction false} NoneDispatchedFrom(ready: seq<ReadyTask>, outcomes: seq<Outcome>, k: nat, p: Project)
    requires k <= |outcomes| <= |ready|
    requires forall j :: k <= j < |outcomes| && ready[j].project == p ==> outcomes[j] != Dispatched
    ensures Dispatches(ready, outcomes, p) == Dispatches(ready, outcomes[..k], p)
  {
    if k < |outcomes| {
      var before := outcomes[..|outcomes| - 1];
      NoneDispatchedFrom(ready, before, k, p);
      assert before[..k] == outcomes[..k];
    } else {
      assert outcomes[..k] == outcomes;
    }
  }

  function Tally(outcomes: seq<Outcome>, what: Outcome): nat {
    if outcomes == [] then 0
    else Tally(outcomes[..|outcomes| - 1], what) + if outcomes[|outcomes| - 1] == what then 1 else 0
  }

  function Granted(outcomes: seq<Outcome>): nat {
    Tally(outcomes, Dispatched) + Tally(outcomes, ProjectFull) + Tally(outcomes, GlobalFull)
  }

  /** The batch bound: never more dispatches than the batch size, and a full batch ends the cycle. */
  lemma {:induction false} BatchIsRespected(c: Settings, ready: seq<ReadyTask>, outcomes: seq<Outcome>)
    requires Complete(c, ready, outcomes)
    ensures |Chosen(ready, outcomes)| <= c.batch
    ensures |Chosen(ready, outcomes)| == Tally(outcomes, Dispatched)
  {
    ChosenCount(ready, outcomes);
    if outcomes != [] {
      var k := |outcomes| - 1;
      assert !Stops(c, ready, outcomes[..k]);
      assert k == 0 ==> Chosen(ready, outcomes[..k]) == [];
    }
  }

  lemma {:induction false} ChosenCount(ready: seq<ReadyTask>, outcomes: seq<Outcome>)
    requires |outcomes| <= |ready|
    ensures |Chosen(ready, outcomes)| == Tally(outcomes, Dispatched)
  {
    if outcomes != [] {
      var k := |outcomes| - 1;
      ChosenCount(ready, outcomes[..k]);
    }
  }

  // ---------------------------------------------------------------- the loop

  lemma {:induction false} AttemptsGrow(c: Settings, b: Backoffs, attempts: seq<Attempt>, i: nat)
    requires i < |attempts|
    ensures AfterAttempts(c, b, attempts[..i + 1]) == AfterAttempt(c, AfterAttempts(c, b, attempts[..i]), attempts[i])
  {
    assert attempts[..i + 1][..i] == attempts[..i];
  }

  /** The cooldowns at task k of a cycle skip exactly the projects cooling at its start or denied since. */
  lemma {:induction false} CoolingWithinCycle(c: Settings, b: Backoffs, now: real, ready: seq<ReadyTask>,
                                              answers: seq<Answer>, outcomes: seq<Outcome>, p: Project)
    requires |answers| == |ready| && Explained(c, b, now, ready, answers, outcomes)
    ensures IsCooling(AfterAttempts(c, b, Attempts(ready, answers, now)[..|outcomes|]), p, now) <==>
            IsCooling(b, p, now) || DeniedBefore(ready, outcomes, p)
  {
    var attempts := Attempts(ready, answers, now);
    if outcomes != [] {
      var k := |outcomes| - 1;
      var before, owner := outcomes[..k], ready[k].project;
      forall j | 0 <= j < |before| ensures before[..j] == outcomes[..j] {}
      CoolingWithinCycle(c, b, now, ready, answers, before, p);
      CoolingWithinCycle(c, b, now, ready, answers, before, owner);
      AttemptsGrow(c, b, attempts, k);
      CoolingAfterAttempt(c, AfterAttempts(c, b, attempts[..k]), attempts[k], p);
      assert attempts[k] == Attempt(owner, now, answers[k].allowed);
      assert outcomes[k] == Verdict(c, b, now, ready, answers[k], before);
      assert outcomes[k] == Denied <==>
             !IsCooling(AfterAttempts(c, b, attempts[..k]), owner, now) && !answers[k].allowed;
      DeniedGrow(ready, outcomes, p);
    } else {
      assert attempts[..0] == [];
    }
  }

  lemma {:induction false} CoolingAfterAttempt(c: Settings, b: Backoffs, a: Attempt, p: Project)
    ensures IsCooling(AfterAttempt(c, b, a), p, a.now) <==>
            IsCooling(b, p, a.now) || (a.project == p && !a.allowed)
  {
    BackoffIsPositive(c, Hits(b, a.project) + 1);
  }

  lemma {:induction false} DeniedGrow(ready: seq<ReadyTask>, outcomes: seq<Outcome>, p: Project)
    requires 0 < |outcomes| <= |ready|
    ensures var k := |outcomes| - 1;
            DeniedBefore(ready, outcomes, p) <==>
            DeniedBefore(ready, outcomes[..k], p) || (outcomes[k] == Denied && ready[k].project == p)
  {
    var before := outcomes[..|outcomes| - 1];
    if DeniedBefore(ready, before, p) {
      var i :| 0 <= i < |before| && before[i] == Denied && ready[i].project == p;
      assert outcomes[i] == Denied;
    }
    if i :| 0 <= i < |outcomes| && outcomes[i] == Denied && ready[i].project == p {
      assert i < |before| ==> before[i] == Denied;
    }
  }

  /** The verdict as the loop can compute it, from the cooldowns and the count of earlier dispatches. */
  function Judgement(c: Settings, b: Backoffs, now: real, p: Project, a: Answer, pending: nat): Outcome {
    if IsCooling(b, p, now) then Cooling
    else if !a.allowed then Denied
    else if a.inProgress + pending >= c.cap then ProjectFull
    else if !a.hasCapacity then GlobalFull
    else Dispatched
  }

  lemma {:induction false} JudgementMeetsVerdict(c: Settings, b: Backoffs, now: real, ready: seq<ReadyTask>,
                              answers: seq<Answer>, before: seq<Outcome>)
    requires |answers| == |ready| && |before| < |ready| && Explained(c, b, now, ready, answers, before)
    ensures var p, a := ready[|before|].project, answers[|before|];
            Judgement(c, AfterAttempts(c, b, Attempts(ready, answers, now)[..|before|]), now, p, a,
                      Dispatches(ready, before, p)) == Verdict(c, b, now, ready, a, before)
  {
    CoolingWithinCycle(c, b, now, ready, answers, before, ready[|before|].project);
  }

  class Dispatcher {
    var rateLimited: Backoffs

    /** The body of the loop for one task: cooldown, limiter, project cap, global cap, in that order. */
    method Consider(c: Settings, project: Project, now: real, answer: Answer, pending: nat)
      returns (next: Outcome, granted: bool)
      modifies this
      ensures next == Judgement(c, old(rateLimited), now, project, answer, pending)
      ensures granted <==> !IsCooling(old(rateLimited), project, now) && answer.allowed
      ensures granted <==> next in {Dispatched, ProjectFull, GlobalFull}
      ensures rateLimited == AfterAttempt(c, old(rateLimited), Attempt(project, now, answer.allowed))
      ensures next == Denied ==>
                var k := Hits(old(rateLimited), project) + 1;
                && project in rateLimited && rateLimited[project].hits == k
                && IsBackoff(c, k, rateLimited[project].until - now)
    {
      var priorHits := 0;
      if project in rateLimited {
        var entry := rateLimited[project];
        if now < entry.until {
          return Cooling, false;
        }
        priorHits := entry.hits;
      }
      if !answer.allowed {
        var hits := priorHits + 1;
        rateLimited := rateLimited[project := Cooldown(now + BackoffSeconds(c, hits) as real, hits)];
        return Denied, false;
      }
      rateLimited := rateLimited - {project};
      if answer.inProgress + pending >= c.cap {
        return ProjectFull, true;
      }
      if !answer.hasCapacity {
        return GlobalFull, true;
      }
      return Dispatched, true;
    }

    /** One poll over the fetched tasks. The answers are what the limiter, the in-progress count and
        the global capacity test return at each task's turn; tokens counts what the limiter granted. */
    method Poll(c: Settings, ready: seq<ReadyTask>, answers: seq<Answer>, now: real)
      returns (outcomes: seq<Outcome>, dispatched: seq<nat>, tokens: nat)
      requires |answers| == |ready|
      modifies this
      ensures Explained(c, old(rateLimited), now, ready, answers, outcomes)
      ensures Complete(c, ready, outcomes)
      ensures dispatched == Chosen(ready, outcomes)
      ensures rateLimited == AfterAttempts(c, old(rateLimited), Attempts(ready, answers, now)[..|outcomes|])
      ensures tokens == Granted(outcomes)
    {
      outcomes, dispatched, tokens := [], [], 0;
      var scheduled: nat := 0;
      var inFlight: map<Project, nat> := map[];
      ghost var b := rateLimited;
      for i := 0 to |ready|
        invariant |outcomes| == i
        invariant GoingWell(c, b, now, ready, answers, outcomes)
        invariant rateLimited == AfterAttempts(c, b, Attempts(ready, answers, now)[..i])
        invariant Booked(ready, outcomes, dispatched, inFlight, tokens)
        invariant !Stops(c, ready, outcomes) && scheduled == |dispatched|
      {
        var project := ready[i].project;
        var pending := InFlight(inFlight, project);
        ghost var limited := rateLimited;
        var next, granted := Consider(c, project, now, answers[i], pending);
        TurnIsExplained(c, b, now, ready, answers, outcomes, inFlight, limited, next);
        AttemptTurn(c, b, now, ready, answers, i);
        TurnIsBooked(ready, outcomes, dispatched, inFlight, tokens, next);
        outcomes := outcomes + [next];
        if next == Dispatched {
          dispatched := dispatched + [ready[i].id];
          inFlight := inFlight[project := pending + 1];
          scheduled := scheduled + 1;
        }
        if granted {
          tokens := tokens + 1;
        }
        if next == GlobalFull || scheduled >= c.batch {
          break;
        }
      }
      CycleEnds(c, b, now, ready, answers, outcomes);
    }
  }

  lemma {:induction false} CycleEnds(c: Settings, b: Backoffs, now: real, ready: seq<ReadyTask>, answers: seq<Answer>,
                                     outcomes: seq<Outcome>)
    requires |answers| == |ready| && GoingWell(c, b, now, ready, answers, outcomes)
    requires |outcomes| == |ready| || Stops(c, ready, outcomes)
    ensures Explained(c, b, now, ready, answers, outcomes) && Complete(c, ready, outcomes)
  {}

  /** The loop's own counts of what it has done. */
  ghost predicate Booked(ready: seq<ReadyTask>, outcomes: seq<Outcome>, dispatched: seq<nat>,
                         inFlight: map<Project, nat>, tokens: nat)
    requires |outcomes| <= |ready|
  {
    dispatched == Chosen(ready, outcomes) && Tracks(inFlight, ready, outcomes) && tokens == Granted(outcomes)
  }

  lemma {:induction false} TurnIsBooked(ready: seq<ReadyTask>, outcomes: seq<Outcome>, dispatched: seq<nat>,
                                        inFlight: map<Project, nat>, tokens: nat, next: Outcome)
    requires |outcomes| < |ready| && Booked(ready, outcomes, dispatched, inFlight, tokens)
    ensures var k := |outcomes|;
            var p, go := ready[k].project, next == Dispatched;
            Booked(ready, outcomes + [next],
                   if go then dispatched + [ready[k].id] else dispatched,
                   if go then inFlight[p := InFlight(inFlight, p) + 1] else inFlight,
                   tokens + if next in {Dispatched, ProjectFull, GlobalFull} then 1 else 0)
  {
    TrackOne(inFlight, ready, outcomes, next);
    ChosenGrow(ready, outcomes, next);
  }

  lemma {:induction false} AttemptTurn(c: Settings, b: Backoffs, now: real, ready: seq<ReadyTask>,
                                       answers: seq<Answer>, k: nat)
    requires |answers| == |ready| && k < |ready|
    ensures var attempts := Attempts(ready, answers, now);
            AfterAttempts(c, b, attempts[..k + 1])
              == AfterAttempt(c, AfterAttempts(c, b, attempts[..k]), Attempt(ready[k].project, now, answers[k].allowed))
  {
    AttemptsGrow(c, b, Attempts(ready, answers, now), k);
  }

  lemma {:induction false} TurnIsExplained(c: Settings, b: Backoffs, now: real, ready: seq<ReadyTask>,
                                           answers: seq<Answer>,
                                           outcomes: seq<Outcome>, inFlight: map<Project, nat>,
                                               limited: Backoffs, next: Outcome)
    requires |answers| == |ready| && |outcomes| < |ready|
    requires GoingWell(c, b, now, ready, answers, outcomes) && !Stops(c, ready, outcomes)
        && Tracks(inFlight, ready, outcomes)
    requires limited == AfterAttempts(c, b, Attempts(ready, answers, now)[..|outcomes|])
    requires var p := ready[|outcomes|].project;
             next == Judgement(c, limited, now, p, answers[|outcomes|], InFlight(inFlight, p))
    ensures GoingWell(c, b, now, ready, answers, outcomes + [next])
  {
    var p := ready[|outcomes|].project;
    assert InFlight(inFlight, p) == Dispatches(ready, outcomes, p);
    JudgementMeetsVerdict(c, b, now, ready, answers, outcomes);
    Extend(c, b, now, ready, answers, outcomes, next);
  }

  ghost predicate GoingWell(c: Settings, b: Backoffs, now: real, ready: seq<ReadyTask>, answers: seq<Answer>,
                            outcomes: seq<Outcome>)
    requires |answers| == |ready|
  {
    && Explained(c, b, now, ready, answers, outcomes)
    && forall k :: 0 <= k < |outcomes| ==> !Stops(c, ready, outcomes[..k])
  }

  lemma {:induction false} Extend(c: Settings, b: Backoffs, now: real, ready: seq<ReadyTask>, answers: seq<Answer>,
                                  before: seq<Outcome>, next: Outcome)
    requires |answers| == |ready| && |before| < |ready|
    requires GoingWell(c, b, now, ready, answers, before) && !Stops(c, ready, before)
    requires next == Verdict(c, b, now, ready, answers[|before|], before)
    ensures GoingWell(c, b, now, ready, answers, before + [next])
  {
    var after := before + [next];
    forall k | 0 <= k < |after|
      ensures after[k] == Verdict(c, b, now, ready, answers[k], after[..k]) && !Stops(c, ready, after[..k])
    {
      if k < |before| {
        assert after[..k] == before[..k];
      } else {
        assert after[..k] == before;
      }
    }
  }

  lemma {:induction false} ChosenGrow(ready: seq<ReadyTask>, before: seq<Outcome>, next: Outcome)
    requires |before| < |ready|
    ensures var after := before + [next];
            && Chosen(ready, after) == Chosen(ready, before) + (if next == Dispatched then [ready[|before|].id] else [])
            && Granted(after) == Granted(before) + (if next in {Dispatched, ProjectFull, GlobalFull} then 1 else 0)
  {
    var after := before + [next];
    assert after[..|before|] == before;
  }

  function InFlight(inFlight: map<Project, nat>, p: Project): nat {
    if p in inFlight then inFlight[p] else 0
  }

  ghost predicate Tracks(inFlight: map<Project, nat>, ready: seq<ReadyTask>, outcomes: seq<Outcome>)
    requires |outcomes| <= |ready|
  {
    forall p :: Dispatches(ready, outcomes, p) == InFlight(inFlight, p)
  }

  lemma {:induction false} TrackOne(inFlight: map<Project, nat>, ready: seq<ReadyTask>, before: seq<Outcome>,
                                    next: Outcome)
    requires |before| < |ready| && Tracks(inFlight, ready, before)
    ensures var p := ready[|before|].project;
            Tracks(if next == Dispatched then inFlight[p := InFlight(inFlight, p) + 1]
                else inFlight, ready, before + [next])
  {
    var after, p := before + [next], ready[|before|].project;
    assert after[..|before|] == before;
    var inFlight' := if next == Dispatched then inFlight[p := InFlight(inFlight, p) + 1] else inFlight;
    forall q ensures Dispatches(ready, after, q) == InFlight(inFlight', q) {
      assert Dispatches(ready, before, q) == InFlight(inFlight, q);
    }
  }
}
