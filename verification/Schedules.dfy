/**
 * One agent schedule row with its run rows: claim, manual trigger, completion, stale
 * recovery, cancel and pause, in any order. A completion may arrive at any time, for any run,
 * any number of times, because nothing in the completing transaction checks the status.
 */
module Schedules {
  import opened Common

  datatype ScheduleType = Scheduled | Recurring

  datatype ScheduleStatus = Pending | InProgress | Completed | Failed | Cancelled | Paused

  datatype RunStatus = Running | Succeeded | Failure

  datatype RunRow = RunRow(number: nat, status: RunStatus)

  datatype State = State(
    kind: ScheduleType,
    status: ScheduleStatus,
    runCount: nat,
    maxRuns: Option<int>,
    owner: string,
    deleted: bool,
    runs: seq<RunRow>)

  datatype Event =
    | Claim
    | Trigger(caller: string)
    | Complete(run: nat, success: bool)
    | RecoverStale
    | Cancel(caller: string, anyOwner: bool)
    | SetPaused(caller: string, paused: bool)
    | Delete

  // ---------------------------------------------------------------- steps

  /** COALESCE(MAX(run_number), 0). */
  function MaxNumber(runs: seq<RunRow>): nat {
    if runs == [] then 0
    else
      var m := MaxNumber(runs[..|runs| - 1]);
      if runs[|runs| - 1].number > m then runs[|runs| - 1].number else m
  }

  function StartRun(s: State): State {
    s.(status := InProgress, runs := s.runs + [RunRow(MaxNumber(s.runs) + 1, Running)])
  }

  predicate Exhausted(s: State) {
    s.maxRuns.Some? && s.runCount >= s.maxRuns.value
  }

  function Terminal(success: bool): ScheduleStatus {
    if success then Completed else Failed
  }

  /** The run's outcome, if its row is found, and the schedule's next status, whatever its status was. */
  function CompleteRun(s: State, run: nat, success: bool): State {
    var outcome := if success then Succeeded else Failure;
    var runs := if run < |s.runs| then s.runs[run := s.runs[run].(status := outcome)] else s.runs;
    var s' := s.(runs := runs, runCount := s.runCount + 1);
    s'.(status := if s.kind == Scheduled || Exhausted(s') then Terminal(success) else Pending)
  }

  function CountRunning(runs: seq<RunRow>): nat {
    if runs == [] then 0
    else CountRunning(runs[..|runs| - 1]) + (if runs[|runs| - 1].status == Running then 1 else 0)
  }

  function FailOrphans(runs: seq<RunRow>): (r: seq<RunRow>)
    ensures |r| == |runs|
  {
    seq(|runs|, i requires 0 <= i < |runs| =>
      if runs[i].status == Running then runs[i].(status := Failure) else runs[i])
  }

  function Recover(s: State): State {
    var s' := s.(runs := FailOrphans(s.runs), runCount := s.runCount + CountRunning(s.runs));
    s'.(status := if Exhausted(s') then Failed else Pending)
  }

  predicate MayTrigger(s: State, caller: string) {
    !s.deleted && s.owner == caller && s.kind == Recurring && s.status == Pending
  }

  predicate MayCancel(s: State, caller: string, anyOwner: bool) {
    !s.deleted && s.status in {Pending, Paused} && (anyOwner || s.owner == caller)
  }

  function Step(s: State, e: Event): State {
    match e
    case Claim => if s.status == Pending then StartRun(s) else s
    case Trigger(caller) => if MayTrigger(s, caller) then StartRun(s) else s
    case Complete(run, success) => CompleteRun(s, run, success)
    case RecoverStale => if s.status == InProgress && !s.deleted then Recover(s) else s
    case Cancel(caller, anyOwner) => if MayCancel(s, caller, anyOwner) then s.(status := Cancelled) else s
    case SetPaused(caller, paused) =>
      if MayCancel(s, caller, false) then s.(status := if paused then Paused else Pending) else s
    case Delete => s.(deleted := true)
  }

  function Run(s: State, es: seq<Event>): State {
    if es == [] then s else Step(Run(s, es[..|es| - 1]), es[|es| - 1])
  }

  predicate Fresh(s: State) {
    s.status == Pending && s.runCount == 0 && s.runs == []
  }

  // ---------------------------------------------------------------- run numbers

  ghost predicate Numbered(runs: seq<RunRow>) {
    forall i :: 0 <= i < |runs| ==> runs[i].number == i + 1
  }

  lemma {:induction false} MaxOfNumbered(runs: seq<RunRow>)
    requires Numbered(runs)
    ensures MaxNumber(runs) == |runs|
  {
    if runs != [] { MaxOfNumbered(runs[..|runs| - 1]); }
  }

  /** Run numbers are always exactly 1..n, in the order in which the runs started. */
  lemma {:induction false} RunNumbersAreConsecutive(s: State, es: seq<Event>)
    requires Fresh(s)
    ensures Numbered(Run(s, es).runs)
  {
    if es != [] {
      RunNumbersAreConsecutive(s, es[..|es| - 1]);
      MaxOfNumbered(Run(s, es[..|es| - 1]).runs);
    }
  }

  // ---------------------------------------------------------------- counting

  lemma {:induction false} CountAfterUpdate(runs: seq<RunRow>, i: nat, row: RunRow)
    requires i < |runs|
    ensures CountRunning(runs[i := row]) + (if runs[i].status == Running then 1 else 0) ==
            CountRunning(runs) + (if row.status == Running then 1 else 0)
  {
    var k := |runs| - 1;
    if i < k {
      CountAfterUpdate(runs[..k], i, row);
      assert runs[i := row][..k] == runs[..k][i := row];
    } else {
      assert runs[i := row][..k] == runs[..k];
    }
  }

  lemma {:induction false} NoneRunning(runs: seq<RunRow>)
    requires forall i :: 0 <= i < |runs| ==> runs[i].status != Running
    ensures CountRunning(runs) == 0
  {
    if runs != [] { NoneRunning(runs[..|runs| - 1]); }
  }

  lemma {:induction false} CountBound(runs: seq<RunRow>)
    ensures CountRunning(runs) <= |runs|
    ensures (exists i :: 0 <= i < |runs| && runs[i].status == Running) ==> CountRunning(runs) >= 1
  {
    if runs != [] {
      CountBound(runs[..|runs| - 1]);
      if i :| 0 <= i < |runs| && runs[i].status == Running && i < |runs| - 1 {
        assert runs[..|runs| - 1][i].status == Running;
      }
    }
  }

  // ---------------------------------------------------------------- the run limit

  ghost predicate NewestRuns(s: State) {
    s.status == InProgress ==> s.runs != [] && s.runs[|s.runs| - 1].status == Running
  }

  /** Counted runs keep up with started runs, except for the one a schedule in progress is executing. */
  ghost predicate Bounded(s: State) {
    && NewestRuns(s)
    && |s.runs| <= s.runCount + (if s.status == InProgress then 1 else 0)
    && (s.maxRuns.Some? ==>
          && |s.runs| <= (if s.maxRuns.value > 1 then s.maxRuns.value else 1)
          && (s.status in {Pending, Paused} && s.runs != [] ==> s.runCount < s.maxRuns.value))
  }

  lemma {:induction false} StepKeepsBounded(s: State, e: Event)
    requires Bounded(s)
    ensures Bounded(Step(s, e))
  {
    CountBound(s.runs);
    if e.Complete? && e.run < |s.runs| {
      CountAfterUpdate(s.runs, e.run, s.runs[e.run].(status := if e.success then Succeeded else Failure));
    }
  }

  /** A fixed max_runs bounds the number of runs ever started, whatever late or repeated completions
      arrive after recovery; and a schedule in progress is always executing its newest run. */
  lemma {:induction false} NeverMoreThanMaxRuns(s: State, es: seq<Event>)
    requires Fresh(s)
    ensures Bounded(Run(s, es))
    ensures s.maxRuns.Some? && s.maxRuns.value >= 1 ==> |Run(s, es).runs| <= s.maxRuns.value
  {
    if es != [] {
      NeverMoreThanMaxRuns(s, es[..|es| - 1]);
      StepKeepsBounded(Run(s, es[..|es| - 1]), es[|es| - 1]);
    }
    LimitIsFixed(s, es);
  }

  lemma {:induction false} LimitIsFixed(s: State, es: seq<Event>)
    ensures Run(s, es).maxRuns == s.maxRuns && Run(s, es).kind == s.kind
  {
    if es != [] { LimitIsFixed(s, es[..|es| - 1]); }
  }

  // ---------------------------------------------------------------- run accounting

  function TerminalRuns(runs: seq<RunRow>): int {
    |runs| - CountRunning(runs)
  }

  /** Completions that found no executing run to end: it had ended already, or its row is gone. */
  function Overwrites(s: State, es: seq<Event>): nat {
    if es == [] then 0
    else
      Overwrites(s, es[..|es| - 1]) +
      (if Overwrite(Run(s, es[..|es| - 1]), es[|es| - 1]) then 1 else 0)
  }

  predicate Overwrite(s: State, e: Event) {
    e.Complete? && !(e.run < |s.runs| && s.runs[e.run].status == Running)
  }

  lemma {:induction false} StepCounts(s: State, e: Event)
    ensures var s' := Step(s, e);
            s'.runCount - TerminalRuns(s'.runs)
                == s.runCount - TerminalRuns(s.runs) + (if Overwrite(s, e) then 1 else 0)
  {
    if e.Complete? && e.run < |s.runs| {
      CountAfterUpdate(s.runs, e.run, s.runs[e.run].(status := if e.success then Succeeded else Failure));
    } else if e.RecoverStale? {
      NoneRunning(FailOrphans(s.runs));
    } else {
      CountAfterStart(s);
    }
  }

  lemma {:induction false} CountAfterStart(s: State)
    ensures CountRunning(StartRun(s).runs) == CountRunning(s.runs) + 1
  {
    assert StartRun(s).runs[..|s.runs|] == s.runs;
  }

  /** The exact law of the denormalised counter: run_count is the number of terminal runs plus the
      number of completions that found no executing run. So it never undercounts, and it is exact if
      and only if there was no such completion. */
  lemma {:induction false} RunCountIsTerminalRunsPlusOverwrites(s: State, es: seq<Event>)
    requires Fresh(s)
    ensures Run(s, es).runCount == TerminalRuns(Run(s, es).runs) + Overwrites(s, es)
  {
    if es != [] {
      RunCountIsTerminalRunsPlusOverwrites(s, es[..|es| - 1]);
      StepCounts(Run(s, es[..|es| - 1]), es[|es| - 1]);
    }
  }

  /** The status is the truth: IN_PROGRESS exactly when one run is executing, and otherwise none is. */
  predicate Truthful(s: State) {
    CountRunning(s.runs) == if s.status == InProgress then 1 else 0
  }

  /** A completion that ends no run but releases a schedule whose run is still executing. */
  predicate Releases(s: State, e: Event) {
    Overwrite(s, e) && s.status == InProgress
  }

  lemma {:induction false} CompletionEndsRun(s: State, run: nat, success: bool)
    ensures CountRunning(CompleteRun(s, run, success).runs) + One(!Overwrite(s, Complete(run, success)))
            == CountRunning(s.runs)
  {
    if run < |s.runs| {
      CountAfterUpdate(s.runs, run, s.runs[run].(status := if success then Succeeded else Failure));
    }
  }

  lemma {:induction false} RecoveryEndsRuns(s: State)
    ensures CountRunning(Recover(s).runs) == 0
  {
    NoneRunning(FailOrphans(s.runs));
  }

  lemma {:induction false} StepTruthfulExactly(s: State, e: Event)
    requires Truthful(s)
    ensures Truthful(Step(s, e)) <==> !Releases(s, e)
  {
    if e.Complete? {
      CompletionEndsRun(s, e.run, e.success);
    } else if e.RecoverStale? {
      RecoveryEndsRuns(s);
    } else {
      CountAfterStart(s);
    }
  }

  /** The status is the truth all along a run exactly when no completion without an executing run of its
      own meets a schedule in progress. Elsewhere such a completion does no harm. */
  lemma {:induction false} StatusIsTruthExactly(s: State, es: seq<Event>)
    requires Fresh(s)
    ensures (forall n :: 0 <= n <= |es| ==> Truthful(Run(s, es[..n])))
            <==> forall i :: 0 <= i < |es| ==> !Releases(Run(s, es[..i]), es[i])
  {
    forall n | 0 <= n < |es| ensures Run(s, es[..n + 1]) == Step(Run(s, es[..n]), es[n]) {
      assert es[..n + 1][..n] == es[..n];
    }
    if forall n :: 0 <= n <= |es| ==> Truthful(Run(s, es[..n])) {
      forall i | 0 <= i < |es| ensures !Releases(Run(s, es[..i]), es[i]) {
        StepTruthfulExactly(Run(s, es[..i]), es[i]);
        assert Truthful(Run(s, es[..i + 1]));
      }
    }
    if forall i :: 0 <= i < |es| ==> !Releases(Run(s, es[..i]), es[i]) {
      forall n | 0 <= n <= |es| ensures Truthful(Run(s, es[..n])) {
        TruthfulUpTo(s, es, n);
      }
    }
  }

  lemma {:induction false} TruthfulUpTo(s: State, es: seq<Event>, n: nat)
    requires Fresh(s) && n <= |es| && forall i :: 0 <= i < n ==> !Releases(Run(s, es[..i]), es[i])
    ensures Truthful(Run(s, es[..n]))
  {
    if n > 0 {
      TruthfulUpTo(s, es, n - 1);
      assert es[..n][..n - 1] == es[..n - 1];
      StepTruthfulExactly(Run(s, es[..n - 1]), es[n - 1]);
    } else {
      assert es[..0] == [];
    }
  }

  /** How often along a run a completion released a schedule whose run was still executing. */
  function CountReleases(s: State, es: seq<Event>): nat {
    if es == [] then 0
    else
      CountReleases(s, es[..|es| - 1]) + (if Releases(Run(s, es[..|es| - 1]), es[|es| - 1]) then 1 else 0)
  }

  lemma {:induction false} StepBoundsRunning(s: State, e: Event, released: nat)
    requires CountRunning(s.runs) <= released + One(s.status == InProgress)
    ensures var s' := Step(s, e);
            CountRunning(s'.runs) <= released + One(Releases(s, e)) + One(s'.status == InProgress)
  {
    if e.Complete? {
      CompletionEndsRun(s, e.run, e.success);
    } else if e.RecoverStale? {
      RecoveryEndsRuns(s);
    } else {
      CountAfterStart(s);
    }
  }

  /** Each release lets at most one more run execute at the same time. */
  lemma {:induction false} RunsAtOnceAreBounded(s: State, es: seq<Event>)
    requires Fresh(s)
    ensures CountRunning(Run(s, es).runs) <= CountReleases(s, es) + One(Run(s, es).status == InProgress)
  {
    if es != [] {
      var before := es[..|es| - 1];
      RunsAtOnceAreBounded(s, before);
      StepBoundsRunning(Run(s, before), es[|es| - 1], CountReleases(s, before));
    }
  }

  /** n runs are claimed and recovered one after the other, and their workers are slow. */
  function Orphaned(n: nat): seq<Event> {
    if n == 0 then [] else Orphaned(n - 1) + [Claim] + [RecoverStale]
  }

  /** Then k of those workers complete, each followed by a claim. */
  function LateCompletions(n: nat, k: nat): seq<Event> {
    if k == 0 then Orphaned(n) + [Claim] else LateCompletions(n, k - 1) + [Complete(k - 1, true)] + [Claim]
  }

  lemma {:induction false} RunOne(s: State, es: seq<Event>, e: Event)
    ensures Run(s, es + [e]) == Step(Run(s, es), e) && Run(s, es + [e]).kind == s.kind
    ensures Run(s, es + [e]).maxRuns == s.maxRuns
    ensures CountReleases(s, es + [e]) == CountReleases(s, es) + One(Releases(Run(s, es), e))
  {
    assert (es + [e])[..|es|] == es;
    LimitIsFixed(s, es + [e]);
  }

  ghost predicate Drained(s: State, n: nat) {
    && s.status == Pending && !s.deleted && |s.runs| == n
    && forall i :: 0 <= i < n ==> s.runs[i].status == Failure
  }

  lemma {:induction false} DrainOne(s: State, n: nat)
    requires Drained(s, n) && s.kind == Recurring && s.maxRuns == None
    ensures !Releases(s, Claim) && !Releases(Step(s, Claim), RecoverStale)
    ensures Drained(Step(Step(s, Claim), RecoverStale), n + 1)
  {
  }

  lemma {:induction false} RunTwo(s: State, es: seq<Event>, a: Event, b: Event)
    ensures var now, all := Run(s, es), es + [a] + [b];
            && Run(s, all) == Step(Step(now, a), b) && now.kind == s.kind && now.maxRuns == s.maxRuns
            && CountReleases(s, all) == CountReleases(s, es) + One(Releases(now, a)) + One(Releases(Step(now, a), b))
  {
    RunOne(s, es, a);
    RunOne(s, es + [a], b);
    LimitIsFixed(s, es);
  }

  lemma {:induction false} OrphanedState(s: State, n: nat)
    requires Fresh(s) && s.kind == Recurring && s.maxRuns == None && !s.deleted
    ensures Drained(Run(s, Orphaned(n)), n) && CountReleases(s, Orphaned(n)) == 0
  {
    if n > 0 {
      OrphanedState(s, n - 1);
      RunTwo(s, Orphaned(n - 1), Claim, RecoverStale);
      DrainOne(Run(s, Orphaned(n - 1)), n - 1);
    }
  }

  ghost predicate Piled(s: State, n: nat, k: nat) {
    && s.status == InProgress && |s.runs| == n + k + 1 && CountRunning(s.runs) == k + 1
    && forall i :: k <= i < n ==> s.runs[i].status == Failure
  }

  lemma {:induction false} PileFirst(s: State, n: nat)
    requires Drained(s, n)
    ensures !Releases(s, Claim) && Piled(Step(s, Claim), n, 0)
  {
    NoneRunning(s.runs);
    CountAfterStart(s);
  }

  lemma {:induction false} PileOne(s: State, n: nat, k: nat)
    requires Piled(s, n, k) && k < n && s.kind == Recurring && s.maxRuns == None
    ensures Releases(s, Complete(k, true)) && !Releases(Step(s, Complete(k, true)), Claim)
    ensures Piled(Step(Step(s, Complete(k, true)), Claim), n, k + 1)
  {
    CountAfterUpdate(s.runs, k, s.runs[k].(status := Succeeded));
    CountAfterStart(Step(s, Complete(k, true)));
  }

  lemma {:induction false} PileAlong(s: State, es: seq<Event>, n: nat, k: nat)
    requires Piled(Run(s, es), n, k) && k < n && s.kind == Recurring && s.maxRuns == None
    ensures var all := es + [Complete(k, true)] + [Claim];
            Piled(Run(s, all), n, k + 1) && CountReleases(s, all) == CountReleases(s, es) + 1
  {
    RunTwo(s, es, Complete(k, true), Claim);
    PileOne(Run(s, es), n, k);
  }

  lemma {:induction false} PileStart(s: State, es: seq<Event>, n: nat)
    requires Drained(Run(s, es), n) && CountReleases(s, es) == 0
    ensures Piled(Run(s, es + [Claim]), n, 0) && CountReleases(s, es + [Claim]) == 0
  {
    RunOne(s, es, Claim);
    PileFirst(Run(s, es), n);
  }

  /** And the bound is met: any number of runs can execute at once, each worker completing only its own run. */
  lemma {:induction false} RunsPileUp(s: State, n: nat, k: nat, es: seq<Event>)
    requires Fresh(s) && s.kind == Recurring && s.maxRuns == None && !s.deleted
    requires k <= n && es == LateCompletions(n, k)
    ensures Piled(Run(s, es), n, k) && CountReleases(s, es) == k
  {
    if k == 0 {
      OrphanedState(s, n);
      PileStart(s, Orphaned(n), n);
    } else {
      var before := LateCompletions(n, k - 1);
      RunsPileUp(s, n, k - 1, before);
      PileAlong(s, before, n, k - 1);
    }
  }

  /** In particular it is the truth while the counter is. */
  lemma {:induction false} StatusMatchesRunsWithoutOverwrites(s: State, es: seq<Event>)
    requires Fresh(s) && Overwrites(s, es) == 0
    ensures Truthful(Run(s, es))
  {
    if es != [] {
      StatusMatchesRunsWithoutOverwrites(s, es[..|es| - 1]);
      StepTruthfulExactly(Run(s, es[..|es| - 1]), es[|es| - 1]);
    }
  }

  /** The race itself: a slow worker completes after recovery, so the schedule is PENDING again while
      its second run is still executing. */
  lemma {:induction false} LateCompletionReleasesRunningSchedule(s: State)
    requires Fresh(s) && s.kind == Recurring && s.maxRuns == None && !s.deleted
    ensures var s' := Run(s, [Claim, RecoverStale, Claim, Complete(0, true)]);
            s'.status == Pending && s'.runCount == 2 && s'.runs == [RunRow(1, Succeeded), RunRow(2, Running)]
  {
    RunFour(s, Claim, RecoverStale, Claim, Complete(0, true));
    var s1 := StartRun(s);
    assert s1.runs == [RunRow(1, Running)] && s1.runs[..0] == [];
    var s2 := Recover(s1);
    assert CountRunning(s1.runs) == 1 && s2.runs == [RunRow(1, Failure)] && s2.runs[..0] == [];
    assert MaxNumber(s2.runs) == 1;
    var s3 := StartRun(s2);
    assert s3.runs == [RunRow(1, Failure), RunRow(2, Running)];
  }

  lemma {:induction false} RunFour(s: State, a: Event, b: Event, c: Event, d: Event)
    ensures Run(s, [a, b, c, d]) == Step(Step(Step(Step(s, a), b), c), d)
  {
    assert [a, b, c, d][..3] == [a, b, c] && [a, b, c][..2] == [a, b] && [a, b][..1] == [a];
    assert Run(s, [a]) == Step(s, a);
    assert Run(s, [a, b]) == Step(Step(s, a), b);
    assert Run(s, [a, b, c]) == Step(Step(Step(s, a), b), c);
  }

  // ---------------------------------------------------------------- cancelled schedules

  /** A cancelled schedule stays cancelled exactly until some completion arrives: a run that was executing
      when an earlier one released the schedule revives it when it ends. */
  lemma {:induction false} CancelledStaysCancelledExactly(s: State, es: seq<Event>)
    requires s.status == Cancelled
    ensures (forall n :: 0 <= n <= |es| ==> Run(s, es[..n]).status == Cancelled)
            <==> forall i :: 0 <= i < |es| ==> !es[i].Complete?
  {
    if i :| 0 <= i < |es| && es[i].Complete? {
      assert es[..i + 1][..i] == es[..i];
      assert Run(s, es[..i + 1]) == CompleteRun(Run(s, es[..i]), es[i].run, es[i].success);
      assert Run(s, es[..i + 1]).status != Cancelled;
    } else {
      forall n | 0 <= n <= |es| ensures Run(s, es[..n]).status == Cancelled {
        CancelledUpTo(s, es, n);
      }
    }
  }

  lemma {:induction false} CancelledUpTo(s: State, es: seq<Event>, n: nat)
    requires s.status == Cancelled && n <= |es| && forall i :: 0 <= i < |es| ==> !es[i].Complete?
    ensures Run(s, es[..n]).status == Cancelled
  {
    if n > 0 {
      CancelledUpTo(s, es, n - 1);
      assert es[..n][..n - 1] == es[..n - 1];
    }
  }

  /** And that happens: claimed, recovered, claimed, completed by the first worker, cancelled, and revived when
      the second worker completes. */
  lemma {:induction false} CompletionRevivesCancelledSchedule(s: State, owner: string)
    requires Fresh(s) && s.kind == Recurring && s.maxRuns == None && !s.deleted && s.owner == owner
    ensures var before := [Claim, RecoverStale, Claim, Complete(0, true)];
            && Run(s, before + [Cancel(owner, false)]).status == Cancelled
            && Run(s, before + [Cancel(owner, false)] + [Complete(1, true)]).status == Pending
  {
    var before := [Claim, RecoverStale, Claim, Complete(0, true)];
    LateCompletionReleasesRunningSchedule(s);
    var cancelled := before + [Cancel(owner, false)];
    assert cancelled[..|before|] == before;
    LimitIsFixed(s, before);
    OwnerIsFixed(s, before);
    var revived := cancelled + [Complete(1, true)];
    assert revived[..|cancelled|] == cancelled;
    LimitIsFixed(s, cancelled);
  }

  lemma {:induction false} OwnerIsFixed(s: State, es: seq<Event>)
    ensures Run(s, es).owner == s.owner
    ensures (forall i :: 0 <= i < |es| ==> !es[i].Delete?) ==> Run(s, es).deleted == s.deleted
  {
    if es != [] { OwnerIsFixed(s, es[..|es| - 1]); }
  }

  // ---------------------------------------------------------------- how a schedule ends

  predicate AtLimit(s: State, count: nat) {
    s.maxRuns.Some? && count >= s.maxRuns.value
  }

  /** Event i ends the schedule, with a success or a failure, and no later completion overrides it: a completion
      of a one-time schedule or at the limit, or a recovery at the limit. */
  ghost predicate EndsAt(s: State, es: seq<Event>, i: nat, success: bool)
    requires i < |es|
  {
    && Ends(Run(s, es[..i]), es[i], Run(s, es[..i + 1]).runCount, success)
    && forall j :: i < j < |es| ==> !es[j].Complete?
  }

  predicate Ends(before: State, e: Event, count: nat, success: bool) {
    match e
    case Complete(_, ok) => ok == success && (before.kind == Scheduled || AtLimit(before, count))
    case RecoverStale => !success && before.status == InProgress && !before.deleted && AtLimit(before, count)
    case _ => false
  }

  ghost predicate Ended(s: State, es: seq<Event>, success: bool) {
    exists i :: 0 <= i < |es| && EndsAt(s, es, i, success)
  }

  lemma {:induction false} EndsAtStep(s: State, es: seq<Event>, e: Event, all: seq<Event>, i: nat, success: bool)
    requires all == es + [e] && i < |es|
    ensures EndsAt(s, all, i, success) <==> EndsAt(s, es, i, success) && !e.Complete?
  {
    assert all[..i] == es[..i] && all[..i + 1] == es[..i + 1] && all[|es|] == e;
    forall j | i < j < |es| ensures all[j] == es[j] {}
    if EndsAt(s, all, i, success) {
      forall j | i < j < |es| ensures !es[j].Complete? {
        assert !all[j].Complete?;
      }
    }
  }

  lemma {:induction false} EndedStep(s: State, es: seq<Event>, e: Event, success: bool)
    ensures Ended(s, es + [e], success) <==>
            || Ends(Run(s, es), e, Run(s, es + [e]).runCount, success)
            || (!e.Complete? && Ended(s, es, success))
  {
    var all := es + [e];
    assert all[..|es|] == es && all[..|all|] == all;
    forall i | 0 <= i < |es| ensures EndsAt(s, all, i, success) <==> EndsAt(s, es, i, success) && !e.Complete? {
      EndsAtStep(s, es, e, all, i, success);
    }
    if Ends(Run(s, es), e, Run(s, all).runCount, success) {
      assert EndsAt(s, all, |es|, success);
    }
  }

  lemma {:induction false} StatusStep(s: State, e: Event, success: bool)
    ensures var s', end := Step(s, e), if success then Completed else Failed;
            s'.status == end <==> Ends(s, e, s'.runCount, success) || (!e.Complete? && s.status == end)
  {}

  /** Over every run of a schedule that has not ended: it is COMPLETED exactly when a completion at the end, the last
      of all, succeeded, and FAILED exactly when that failed or a recovery at the limit came after it. A recurring
      one ends only at its limit. */
  lemma {:induction false} FinalStatusExactly(s: State, es: seq<Event>)
    requires s.status !in {Completed, Failed}
    ensures Run(s, es).status == Completed <==> Ended(s, es, true)
    ensures Run(s, es).status == Failed <==> Ended(s, es, false)
    ensures Run(s, es).status in {Completed, Failed} ==>
            s.kind == Scheduled || (s.maxRuns.Some? && Run(s, es).runCount >= s.maxRuns.value)
  {
    if es != [] {
      var before, e := es[..|es| - 1], es[|es| - 1];
      assert es == before + [e];
      FinalStatusExactly(s, before);
      LimitIsFixed(s, before);
      EndedStep(s, before, e, true);
      EndedStep(s, before, e, false);
      StatusStep(Run(s, before), e, true);
      StatusStep(Run(s, before), e, false);
    }
  }

  /** A schedule is deleted exactly once a Delete has come, and from then on is neither triggered, cancelled, paused,
      resumed nor recovered: only a claim or a completion still changes it. */
  lemma {:induction false} DeletedExactly(s: State, es: seq<Event>)
    ensures Run(s, es).deleted <==> s.deleted || Delete in es
  {
    if es != [] {
      DeletedExactly(s, es[..|es| - 1]);
      assert es == es[..|es| - 1] + [es[|es| - 1]];
    }
  }

  lemma {:induction false} DeletedIsFrozenExactly(s: State, e: Event)
    requires s.deleted
    ensures Step(s, e) == s <==> !(e.Complete? || (e.Claim? && s.status == Pending))
  {}

  // ---------------------------------------------------------------- paused schedules

  /** What takes a schedule out of PAUSED: any completion, or a resumption or cancellation by who may do that. */
  predicate Unpauses(s: State, e: Event) {
    match e
    case Complete(_, _) => true
    case Cancel(caller, anyOwner) => !s.deleted && (anyOwner || caller == s.owner)
    case SetPaused(caller, paused) => !s.deleted && caller == s.owner && !paused
    case _ => false
  }

  /** A paused schedule stays paused, and starts no run, exactly until one of these. */
  lemma {:induction false} PausedStaysPausedExactly(s: State, es: seq<Event>)
    requires s.status == Paused
    ensures (forall n :: 0 <= n <= |es| ==> Run(s, es[..n]).status == Paused && Run(s, es[..n]).runs == s.runs)
            <==> forall i :: 0 <= i < |es| ==> !Unpauses(Run(s, es[..i]), es[i])
  {
    forall n | 0 <= n < |es| ensures Run(s, es[..n + 1]) == Step(Run(s, es[..n]), es[n]) {
      assert es[..n + 1][..n] == es[..n];
    }
    if i :| 0 <= i < |es| && Unpauses(Run(s, es[..i]), es[i]) {
      assert Run(s, es[..i + 1]) == Step(Run(s, es[..i]), es[i]);
    } else {
      forall n | 0 <= n <= |es| ensures Run(s, es[..n]).status == Paused && Run(s, es[..n]).runs == s.runs {
        PausedUpTo(s, es, n);
      }
    }
  }

  lemma {:induction false} PausedStep(s: State, e: Event)
    requires s.status == Paused && !Unpauses(s, e)
    ensures Step(s, e).status == Paused && Step(s, e).runs == s.runs
  {}

  lemma {:induction false} PausedUpTo(s: State, es: seq<Event>, n: nat)
    requires s.status == Paused && n <= |es| && forall i :: 0 <= i < |es| ==> !Unpauses(Run(s, es[..i]), es[i])
    ensures Run(s, es[..n]).status == Paused && Run(s, es[..n]).runs == s.runs
  {
    if n > 0 {
      PausedUpTo(s, es, n - 1);
      assert es[..n][..n - 1] == es[..n - 1];
      PausedStep(Run(s, es[..n - 1]), es[n - 1]);
    } else {
      assert es[..0] == [];
    }
  }

  /** The owner pauses a PENDING schedule, and resuming undoes exactly that; no one else does either. */
  lemma {:induction false} ResumingUndoesPausing(s: State, caller: string)
    requires s.status == Pending && !s.deleted
    ensures var paused := Step(s, SetPaused(caller, true));
            && (if caller == s.owner then paused == s.(status := Paused) else paused == s)
            && Step(paused, SetPaused(caller, false)) == s
  {}

  // ---------------------------------------------------------------- one-time schedules

  /** A one-time schedule that any worker has completed never starts another run. */
  lemma {:induction false} OneTimeScheduleEndsOnce(s: State, es: seq<Event>)
    requires s.kind == Scheduled && s.status in {Completed, Failed}
    ensures Run(s, es).status in {Completed, Failed} && |Run(s, es).runs| == |s.runs|
  {
    if es != [] {
      OneTimeScheduleEndsOnce(s, es[..|es| - 1]);
      LimitIsFixed(s, es[..|es| - 1]);
    }
  }

  // ---------------------------------------------------------------- the transactions

  datatype CallError = NotFound | Locked | Forbidden | InvalidType | InvalidStatus

  lemma {:induction false} FailNext(runs: seq<RunRow>, i: nat)
    requires i < |runs|
    ensures var now, next := FailOrphans(runs[..i]) + runs[i..], FailOrphans(runs[..i + 1]) + runs[i + 1..];
            && now[i] == runs[i]
            && next == (if runs[i].status == Running then now[i := runs[i].(status := Failure)] else now)
            && CountRunning(runs[..i + 1]) == CountRunning(runs[..i]) + if runs[i].status == Running then 1 else 0
  {
    assert runs[..i + 1][..i] == runs[..i];
  }

  class ScheduleRow {
    const kind: ScheduleType
    const maxRuns: Option<int>
    const owner: string
    var status: ScheduleStatus
    var runCount: nat
    var deleted: bool
    var runs: seq<RunRow>

    ghost function Snapshot(): State
      reads this
    {
      State(kind, status, runCount, maxRuns, owner, deleted, runs)
    }

    constructor (kind: ScheduleType, maxRuns: Option<int>, owner: string)
      ensures Fresh(Snapshot()) && !deleted
      ensures this.kind == kind && this.maxRuns == maxRuns && this.owner == owner
    {
      this.kind, this.maxRuns, this.owner := kind, maxRuns, owner;
      status, runCount, deleted, runs := Pending, 0, false, [];
    }

    method ClaimAgentSchedule() returns (run: Option<nat>)
      modifies `status, `runs
      ensures Snapshot() == Step(old(Snapshot()), Claim)
      ensures run == if old(status) == Pending then Some(|old(runs)|) else None
    {
      if status != Pending {
        return None;
      }
      var number := MaxNumber(runs) + 1;
      runs := runs + [RunRow(number, Running)];
      status := InProgress;
      run := Some(|runs| - 1);
    }

    /** locked: another transaction holds the row, which only a row that the query finds can show. */
    method TriggerAgentScheduleNow(caller: string, locked: bool) returns (run: Result<nat, CallError>)
      modifies `status, `runs
      ensures Snapshot() == if !deleted && locked then old(Snapshot()) else Step(old(Snapshot()), Trigger(caller))
      ensures run == Ok(|old(runs)|) <==> !locked && MayTrigger(old(Snapshot()), caller)
      ensures run == Err(NotFound) <==> deleted
      ensures run == Err(Locked) <==> !deleted && locked
      ensures run == Err(Forbidden) <==> !deleted && !locked && owner != caller
      ensures run == Err(InvalidType) <==> !deleted && !locked && owner == caller && kind != Recurring
      ensures run == Err(InvalidStatus) <==>
              !deleted && !locked && owner == caller && kind == Recurring && old(status) != Pending
    {
      if deleted { return Err(NotFound); }
      if locked { return Err(Locked); }
      if owner != caller { return Err(Forbidden); }
      if kind != Recurring { return Err(InvalidType); }
      if status != Pending { return Err(InvalidStatus); }
      runs := runs + [RunRow(MaxNumber(runs) + 1, Running)];
      status := InProgress;
      run := Ok(|runs| - 1);
    }

    method UpdateRunCompletion(run: nat, success: bool)
      modifies `status, `runs, `runCount
      ensures Snapshot() == Step(old(Snapshot()), Complete(run, success))
      ensures status == Completed <==> success && (kind == Scheduled || (maxRuns.Some? && runCount >= maxRuns.value))
      ensures status == Failed <==> !success && (kind == Scheduled || (maxRuns.Some? && runCount >= maxRuns.value))
      ensures status in {Completed, Failed, Pending}
    {
      if run < |runs| {
        runs := runs[run := runs[run].(status := if success then Succeeded else Failure)];
      }
      runCount := runCount + 1;
      var terminal := if success then Completed else Failed;
      if kind == Scheduled {
        status := terminal;
      } else if maxRuns.Some? && runCount >= maxRuns.value {
        status := terminal;
      } else {
        status := Pending;
      }
    }

    method FailOrphanedRuns()
      modifies `runs, `runCount
      ensures runs == FailOrphans(old(runs)) && runCount == old(runCount) + CountRunning(old(runs))
    {
      ghost var start := runs;
      for i := 0 to |runs|
        invariant |runs| == |start|
        invariant runs == FailOrphans(start[..i]) + start[i..]
        invariant runCount == old(runCount) + CountRunning(start[..i])
      {
        FailNext(start, i);
        if runs[i].status == Running {
          runs := runs[i := runs[i].(status := Failure)];
          runCount := runCount + 1;
        }
      }
      assert start[..|start|] == start && FailOrphans(start) + start[|start|..] == FailOrphans(start);
    }

    /** Runs only for a row that the stale query selected. */
    method RecoverStaleInProgress()
      requires status == InProgress && !deleted
      modifies `status, `runs, `runCount
      ensures Snapshot() == Step(old(Snapshot()), RecoverStale)
      ensures forall i :: 0 <= i < |runs| ==> runs[i].status != Running
      ensures status == if maxRuns.Some? && runCount >= maxRuns.value then Failed else Pending
    {
      FailOrphanedRuns();
      if maxRuns.Some? && runCount >= maxRuns.value {
        status := Failed;
      } else {
        status := Pending;
      }
    }

    method CancelById(caller: string, anyOwner: bool) returns (r: Result<(), CallError>)
      modifies `status
      ensures Snapshot() == Step(old(Snapshot()), Cancel(caller, anyOwner))
      ensures r == Ok(()) <==> MayCancel(old(Snapshot()), caller, anyOwner)
      ensures r == Err(NotFound) <==> deleted
      ensures r == Err(Forbidden) <==> !deleted && !anyOwner && owner != caller
      ensures r == Err(InvalidStatus) <==>
              !deleted && (anyOwner || owner == caller) && old(status) !in {Pending, Paused}
      ensures r.Err? ==> r.error in {NotFound, Forbidden, InvalidStatus}
    {
      if !deleted && status in {Pending, Paused} && (anyOwner || owner == caller) {
        status := Cancelled;
        return Ok(());
      }
      if deleted { return Err(NotFound); }
      if !anyOwner && owner != caller { return Err(Forbidden); }
      return Err(InvalidStatus);
    }
  }
}
