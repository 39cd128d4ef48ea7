/**
 * The task executor: rows of agent_tasks and agent_projects, one Step for each
 * database transaction, and arbitrary interleavings of those steps.
 *
 * A task is named by its row number; a dependency on a number past the end of the
 * table is a dependency on a task that does not exist.
 */
module Tasks {
  import opened Common

  datatype TaskStatus =
    | Pending | Blocked | Ready | InProgress | Completed | Failed | Cancelled | InReview

  datatype ProjectStatus = Active | Paused | Finished | Archived

  datatype Project = Project(status: ProjectStatus, deleted: bool)

  datatype TaskData = TaskData(forcedPickup: bool, resumeSession: bool, errorSubtype: Option<string>)

  /** What a caller sends to be merged into task_data: the keys present win. */
  datatype DataPatch = DataPatch(
    forcedPickup: Option<bool>,
    resumeSession: Option<bool>,
    errorSubtype: Option<Option<string>>)

  datatype Task = Task(
    status: TaskStatus,
    project: nat,
    dependsOn: seq<nat>,
    deleted: bool,
    data: TaskData,
    sessions: seq<string>)

  datatype State = State(tasks: seq<Task>, projects: seq<Project>)

  /** What the environment may choose: which transaction commits next, and with what arguments. */
  datatype Event =
    | Resolve(picked: set<nat>)          // rows not locked by another scheduler
    | Claim(t: nat)
    | Complete(t: nat, success: bool, subtype: Option<string>)
    | Recover(stale: set<nat>)           // unlocked rows older than the timeout
    | Resume(t: nat)
    | ClearResume(t: nat)                // execute_task, once the session exists
    | AddSession(t: nat, session: string)
    | ForcePickup(t: nat)                // the console's manual trigger
    | WriteData(t: nat, patch: DataPatch) // the update tools, in any status and any project
    | SetProject(p: nat, status: ProjectStatus)
    | SoftDelete(t: nat)

  const RESUMABLE_ERROR_SUBTYPES: set<string> := {"error_max_turns"}

  // ---------------------------------------------------------------- dependencies

  function RowsWithStatus(tasks: seq<Task>, ids: seq<nat>, statuses: set<TaskStatus>): set<nat> {
    set d | d in ids && d < |tasks| && tasks[d].status in statuses && !tasks[d].deleted
  }

  /** The source counts matching rows and compares with the length of the list. */
  predicate DependenciesCompleted(tasks: seq<Task>, ids: seq<nat>) {
    ids == [] || |RowsWithStatus(tasks, ids, {Completed})| == |ids|
  }

  predicate HasFailedDependency(tasks: seq<Task>, ids: seq<nat>) {
    ids != [] && |RowsWithStatus(tasks, ids, {Failed, Cancelled})| > 0
  }

  /** Counting rows checks the documented contract only for lists without repetition. */
  lemma {:induction false} DependenciesCompletedExactly(tasks: seq<Task>, ids: seq<nat>)
    ensures DependenciesCompleted(tasks, ids) <==>
            && Distinct(ids)
            && forall d :: d in ids ==> d < |tasks| && tasks[d].status == Completed && !tasks[d].deleted
  {
    var done := RowsWithStatus(tasks, ids, {Completed});
    DistinctByCount(ids);
    assert done <= Elements(ids);
    SubsetSize(done, Elements(ids));
    if ids != [] && DependenciesCompleted(tasks, ids) {
      assert done == Elements(ids);
      forall d | d in ids ensures d in done {}
    } else if forall d :: d in ids ==> d < |tasks| && tasks[d].status == Completed && !tasks[d].deleted {
      assert done == Elements(ids);
    }
  }

  /** All dependencies complete leaves none failed, so the sweep's first test never decides alone. */
  lemma {:induction false} CompletedExcludesFailed(tasks: seq<Task>, ids: seq<nat>)
    requires DependenciesCompleted(tasks, ids)
    ensures !HasFailedDependency(tasks, ids)
  {
    DependenciesCompletedExactly(tasks, ids);
    assert RowsWithStatus(tasks, ids, {Failed, Cancelled}) == {};
  }

  /** The test of the service's own cascade after a status change: a dependency that no row has counts as
      met, and neither repetition nor deletion is looked at. */
  predicate CascadeSatisfied(tasks: seq<Task>, ids: seq<nat>) {
    forall d :: d in ids && d < |tasks| ==> tasks[d].status == Completed
  }

  /** The cascade accepts whatever the sweep accepts. It accepts more exactly on lists that repeat a
      dependency, name a missing one, or name a deleted one. */
  lemma {:induction false} CascadeAgreesExactly(tasks: seq<Task>, ids: seq<nat>)
    ensures DependenciesCompleted(tasks, ids) ==> CascadeSatisfied(tasks, ids)
    ensures CascadeSatisfied(tasks, ids) ==>
            (DependenciesCompleted(tasks, ids) <==>
             Distinct(ids) && forall d :: d in ids ==> d < |tasks| && !tasks[d].deleted)
  {
    DependenciesCompletedExactly(tasks, ids);
  }

  /** A missing dependency, or a deleted COMPLETED one, added to a list that both tests accept: the sweep then
      refuses the list, and the cascade still accepts it. */
  lemma {:induction false} CascadeIgnoresMissing(tasks: seq<Task>, ids: seq<nat>, d: nat)
    requires DependenciesCompleted(tasks, ids)
    requires d >= |tasks| || (tasks[d].deleted && tasks[d].status == Completed)
    ensures CascadeSatisfied(tasks, ids + [d]) && !DependenciesCompleted(tasks, ids + [d])
  {
    DependenciesCompletedExactly(tasks, ids);
    DependenciesCompletedExactly(tasks, ids + [d]);
    assert d in ids + [d];
  }

  /** Listing one COMPLETED task twice is refused by the sweep and accepted by the cascade. */
  lemma {:induction false} RepeatedDependencyIsRefused(done: Task)
    requires done.status == Completed && !done.deleted
    ensures var ids := [0, 0];
            && !DependenciesCompleted([done], ids) && CascadeSatisfied([done], ids)
            && DependenciesCompleted([done], [0])
  {
    var ids: seq<nat> := [0, 0];
    DependenciesCompletedExactly([done], ids);
    assert ids[0] == ids[1];
    DependenciesCompletedExactly([done], [0]);
  }

  // ---------------------------------------------------------------- steps

  predicate Waiting(task: Task) {
    task.status in {Pending, Blocked} && !task.deleted
  }

  predicate Resolvable(tasks: seq<Task>, t: nat)
    requires t < |tasks|
  {
    && Waiting(tasks[t])
    && !HasFailedDependency(tasks, tasks[t].dependsOn)
    && DependenciesCompleted(tasks, tasks[t].dependsOn)
  }

  /** Every resolvable picked row becomes READY at once, all judged on the same table. */
  function Resolved(tasks: seq<Task>, picked: set<nat>): (r: seq<Task>)
    ensures |r| == |tasks|
  {
    seq(|tasks|, i requires 0 <= i < |tasks| =>
      if i in picked && Resolvable(tasks, i) then tasks[i].(status := Ready) else tasks[i])
  }

  predicate ProjectAllowsPickup(projects: seq<Project>, task: Task) {
    && task.project < |projects|
    && !projects[task.project].deleted
    && (|| projects[task.project].status == Active
        || (projects[task.project].status == Paused && task.data.forcedPickup))
  }

  predicate Claimable(s: State, t: nat) {
    && t < |s.tasks|
    && s.tasks[t].status == Ready
    && !s.tasks[t].deleted
    && ProjectAllowsPickup(s.projects, s.tasks[t])
  }

  function Claimed(task: Task): Task {
    task.(status := InProgress, data := task.data.(forcedPickup := false))
  }

  function Finished(task: Task, success: bool, subtype: Option<string>): Task {
    task.(
      status := if success then Completed else Failed,
      data := task.data.(errorSubtype :=
        if !success && subtype.Some? && subtype.value in RESUMABLE_ERROR_SUBTYPES then subtype else None))
  }

  predicate Stale(tasks: seq<Task>, t: nat, stale: set<nat>) {
    t < |tasks| && t in stale && tasks[t].status == InProgress && !tasks[t].deleted
  }

  function Recovered(tasks: seq<Task>, stale: set<nat>): (r: seq<Task>)
    ensures |r| == |tasks|
  {
    seq(|tasks|, i requires 0 <= i < |tasks| =>
      if Stale(tasks, i, stale) then tasks[i].(status := Ready) else tasks[i])
  }

  predicate Resumable(s: State, t: nat) {
    && t < |s.tasks|
    && !s.tasks[t].deleted
    && s.tasks[t].status == Failed
    && s.tasks[t].data.errorSubtype.Some?
    && s.tasks[t].data.errorSubtype.value in RESUMABLE_ERROR_SUBTYPES
    && s.tasks[t].sessions != []
  }

  function Put(s: State, t: nat, task: Task): State
    requires t < |s.tasks|
  {
    s.(tasks := s.tasks[t := task])
  }

  function Merged(data: TaskData, patch: DataPatch): TaskData {
    TaskData(
      if patch.forcedPickup.Some? then patch.forcedPickup.value else data.forcedPickup,
      if patch.resumeSession.Some? then patch.resumeSession.value else data.resumeSession,
      if patch.errorSubtype.Some? then patch.errorSubtype.value else data.errorSubtype)
  }

  function Step(s: State, e: Event): (r: State)
    ensures |r.tasks| == |s.tasks|
  {
    match e
    case Resolve(picked) => s.(tasks := Resolved(s.tasks, picked))
    case Claim(t) => if Claimable(s, t) then Put(s, t, Claimed(s.tasks[t])) else s
    case Complete(t, success, subtype) =>
      if t < |s.tasks| && s.tasks[t].status == InProgress
      then Put(s, t, Finished(s.tasks[t], success, subtype)) else s
    case Recover(stale) => s.(tasks := Recovered(s.tasks, stale))
    case Resume(t) =>
      if Resumable(s, t)
      then Put(s, t, s.tasks[t].(status := Ready, data := s.tasks[t].data.(resumeSession := true))) else s
    case ClearResume(t) =>
      if t < |s.tasks|
      then Put(s, t, s.tasks[t].(data := s.tasks[t].data.(resumeSession := false, errorSubtype := None))) else s
    case AddSession(t, session) =>
      if t < |s.tasks| then Put(s, t, s.tasks[t].(sessions := s.tasks[t].sessions + [session])) else s
    case ForcePickup(t) =>
      if ForceAllowed(s, t) then Put(s, t, s.tasks[t].(data := s.tasks[t].data.(forcedPickup := true))) else s
    case WriteData(t, patch) =>
      if t < |s.tasks| && !s.tasks[t].deleted
      then Put(s, t, s.tasks[t].(data := Merged(s.tasks[t].data, patch))) else s
    case SetProject(p, status) =>
      if p < |s.projects| then s.(projects := s.projects[p := s.projects[p].(status := status)]) else s
    case SoftDelete(t) => if t < |s.tasks| then Put(s, t, s.tasks[t].(deleted := true)) else s
  }

  predicate ForceAllowed(s: State, t: nat) {
    && t < |s.tasks|
    && s.tasks[t].status == Ready
    && s.tasks[t].project < |s.projects|
    && s.projects[s.tasks[t].project].status == Paused
  }

  /** The state after a whole interleaving of steps. */
  function Run(s: State, es: seq<Event>): (r: State)
    ensures |r.tasks| == |s.tasks|
  {
    if es == [] then s else Step(Run(s, es[..|es| - 1]), es[|es| - 1])
  }

  // ---------------------------------------------------------------- what no step changes

  ghost predicate SameGraph(a: State, b: State) {
    && |a.tasks| == |b.tasks|
    && |a.projects| == |b.projects|
    && forall t :: 0 <= t < |a.tasks| ==>
         a.tasks[t].dependsOn == b.tasks[t].dependsOn && a.tasks[t].project == b.tasks[t].project
  }

  lemma {:induction false} StepKeepsGraph(s: State, e: Event)
    ensures SameGraph(s, Step(s, e))
  {}

  lemma {:induction false} RunKeepsGraph(s: State, es: seq<Event>)
    ensures SameGraph(s, Run(s, es))
  {
    if es != [] {
      RunKeepsGraph(s, es[..|es| - 1]);
      StepKeepsGraph(Run(s, es[..|es| - 1]), es[|es| - 1]);
    }
  }

  /** The table of allowed transitions that the task tools share with the executor. */
  function ValidTransitions(from: TaskStatus): set<TaskStatus> {
    match from
    case Pending => {Blocked, Ready, Cancelled}
    case Blocked => {Ready, Pending, Cancelled}
    case Ready => {InProgress, Cancelled, Blocked, Pending}
    case InProgress => {Completed, Failed, Cancelled, Ready, Pending, InReview}
    case InReview => {Completed, Failed, Cancelled, Pending}
    case Completed => {Pending, Failed}
    case Failed => {Pending, Ready}
    case Cancelled => {Pending}
  }

  predicate Moves(s: State, e: Event, t: nat, from: TaskStatus, to: TaskStatus) {
    t < |s.tasks| && from != to && s.tasks[t].status == from && Step(s, e).tasks[t].status == to
  }

  /** The part of the table that the executor uses. */
  function ExecutorTransitions(from: TaskStatus): set<TaskStatus> {
    match from
    case Pending => {Ready}
    case Blocked => {Ready}
    case Ready => {InProgress}
    case InProgress => {Completed, Failed, Ready}
    case Failed => {Ready}
    case _ => {}
  }

  /** The event that moves task 0. */
  function Mover(from: TaskStatus, to: TaskStatus): Event {
    match from
    case Ready => Claim(0)
    case InProgress => if to == Ready then Recover({0}) else Complete(0, to == Completed, None)
    case Failed => Resume(0)
    case _ => Resolve({0})
  }

  lemma {:induction false} StepFollowsTransitionTable(s: State, e: Event, t: nat)
    requires t < |s.tasks|
    ensures var from, to := s.tasks[t].status, Step(s, e).tasks[t].status;
            from == to || (to in ExecutorTransitions(from) && to in ValidTransitions(from))
  {}

  /** Which status changes the executor makes, exactly: each of these edges is taken by some step from some
      state, no step takes another, and all of them are in the shared table. */
  lemma {:induction false} ExecutorTransitionsExactly(from: TaskStatus, to: TaskStatus)
    ensures (exists s: State, e: Event, t: nat :: Moves(s, e, t, from, to)) <==> to in ExecutorTransitions(from)
    ensures to in ExecutorTransitions(from) ==> to in ValidTransitions(from)
  {
    if s: State, e: Event, t: nat :| Moves(s, e, t, from, to) {
      StepFollowsTransitionTable(s, e, t);
    }
    if to in ExecutorTransitions(from) {
      var subtype := "error_max_turns";
      var s := State([Task(from, 0, [], false, TaskData(false, false, Some(subtype)), [""])], [Project(Active, false)]);
      assert Moves(s, Mover(from, to), 0, from, to);
    }
  }

  // ---------------------------------------------------------------- safety

  predicate Started(task: Task) {
    task.status in {Ready, InProgress, Completed, Failed}
  }

  /** How the task tools create rows: nothing has run, and only a task without dependencies is READY. Their
      task_data is whatever the caller sent. */
  ghost predicate Created(s: State) {
    forall t :: 0 <= t < |s.tasks| ==>
      && s.tasks[t].status in {Pending, Blocked, Ready, Cancelled}
      && (s.tasks[t].status == Ready ==> s.tasks[t].dependsOn == [])
  }

  ghost predicate DependenciesDone(tasks: seq<Task>, ids: seq<nat>) {
    Distinct(ids) && forall d :: d in ids ==> d < |tasks| && tasks[d].status == Completed
  }

  ghost predicate Ordered(s: State) {
    forall t :: 0 <= t < |s.tasks| && Started(s.tasks[t]) ==> DependenciesDone(s.tasks, s.tasks[t].dependsOn)
  }

  lemma {:induction false} StepKeepsCompleted(s: State, e: Event, t: nat)
    requires t < |s.tasks| && s.tasks[t].status == Completed
    ensures Step(s, e).tasks[t].status == Completed
  {}

  /** COMPLETED is absorbing, from any state and over any run. */
  lemma {:induction false} CompletedIsAbsorbing(s: State, es: seq<Event>, t: nat)
    requires t < |s.tasks| && s.tasks[t].status == Completed
    ensures t < |Run(s, es).tasks| && Run(s, es).tasks[t].status == Completed
  {
    if es != [] {
      CompletedIsAbsorbing(s, es[..|es| - 1], t);
      StepKeepsCompleted(Run(s, es[..|es| - 1]), es[|es| - 1], t);
    }
  }

  lemma {:induction false} StepKeepsOrdered(s: State, e: Event)
    requires Ordered(s)
    ensures Ordered(Step(s, e))
  {
    var s' := Step(s, e);
    forall t | 0 <= t < |s'.tasks| && Started(s'.tasks[t])
      ensures DependenciesDone(s'.tasks, s'.tasks[t].dependsOn)
    {
      StepKeepsGraph(s, e);
      var ids := s.tasks[t].dependsOn;
      DependenciesCompletedExactly(s.tasks, ids);
      assert DependenciesDone(s.tasks, ids);
      forall d | d in ids ensures d < |s'.tasks| && s'.tasks[d].status == Completed {
        StepKeepsCompleted(s, e, d);
      }
    }
  }

  lemma {:induction false} CreatedIsOrdered(s: State)
    requires Created(s)
    ensures Ordered(s)
  {}

  /** From rows as created, or any rows in order, in every reachable state a task that is READY, IN_PROGRESS,
      COMPLETED or FAILED has every dependency COMPLETED, whatever is claimed, recovered, resumed, paused or
      deleted meanwhile. */
  lemma {:induction false} StartedTasksHaveCompletedDependencies(s: State, es: seq<Event>)
    requires Ordered(s)
    ensures Ordered(Run(s, es))
  {
    if es == [] {
    } else {
      StartedTasksHaveCompletedDependencies(s, es[..|es| - 1]);
      StepKeepsOrdered(Run(s, es[..|es| - 1]), es[|es| - 1]);
    }
  }

  // ---------------------------------------------------------------- completion order

  predicate Completes(s: State, e: Event) {
    e.Complete? && e.success && e.t < |s.tasks| && s.tasks[e.t].status == InProgress
  }

  /** The tasks in the order in which the run completed them. */
  function CompletionOrder(s: State, es: seq<Event>): seq<nat> {
    if es == [] then []
    else
      var before, last := es[..|es| - 1], es[|es| - 1];
      CompletionOrder(s, before) + (if Completes(Run(s, before), last) then [last.t] else [])
  }

  lemma {:induction false} CompletionOrderIsCompletedSet(s: State, es: seq<Event>)
    requires forall t :: 0 <= t < |s.tasks| ==> s.tasks[t].status != Completed
    ensures forall t: nat :: t in CompletionOrder(s, es) <==>
              t < |s.tasks| && Run(s, es).tasks[t].status == Completed
    ensures Distinct(CompletionOrder(s, es))
  {
    RunKeepsGraph(s, es);
    if es != [] {
      var before, last := es[..|es| - 1], es[|es| - 1];
      CompletionOrderIsCompletedSet(s, before);
      RunKeepsGraph(s, before);
      var mid := Run(s, before);
      assert Run(s, es) == Step(mid, last);
      forall t: nat | t < |s.tasks|
        ensures Step(mid, last).tasks[t].status == Completed <==>
                mid.tasks[t].status == Completed || (Completes(mid, last) && last.t == t)
      {}
    }
  }

  /** Completion order is a topological order: each dependency of a completed task completed
      strictly earlier, and no task completes twice. */
  lemma {:induction false} CompletionOrderIsTopological(s: State, es: seq<Event>)
    requires Created(s)
    ensures var order := CompletionOrder(s, es);
            && Distinct(order)
            && forall i :: 0 <= i < |order| ==>
                 order[i] < |s.tasks| && forall d :: d in s.tasks[order[i]].dependsOn ==> d in order[..i]
  {
    CompletionOrderIsCompletedSet(s, es);
    if es != [] {
      var before, last := es[..|es| - 1], es[|es| - 1];
      CompletionOrderIsTopological(s, before);
      var mid, done := Run(s, before), CompletionOrder(s, before);
      var order := CompletionOrder(s, es);
      if !Completes(mid, last) {
        assert order == done;
      } else {
        assert order == done + [last.t];
        forall i | 0 <= i < |order|
          ensures order[i] < |s.tasks| && forall d :: d in s.tasks[order[i]].dependsOn ==> d in order[..i]
        {
          if i < |done| {
            assert order[..i] == done[..i];
          } else {
            assert order[..i] == done;
            CreatedIsOrdered(s);
            StartedTasksHaveCompletedDependencies(s, before);
            CompletionOrderIsCompletedSet(s, before);
            RunKeepsGraph(s, before);
            assert DependenciesDone(mid.tasks, mid.tasks[last.t].dependsOn);
          }
        }
      }
    }
  }

  // ---------------------------------------------------------------- tasks that can never run

  /** Each member waits for a missing task, for another member, or lists a dependency twice. */
  ghost predicate Stuck(tasks: seq<Task>, members: set<nat>) {
    forall t :: t in members ==>
      && t < |tasks|
      && (|| !Distinct(tasks[t].dependsOn)
          || exists d :: d in tasks[t].dependsOn && (d >= |tasks| || d in members))
  }

  lemma {:induction false} StuckTasksNeverStart(s: State, es: seq<Event>, members: set<nat>)
    requires Created(s) && Stuck(s.tasks, members)
    ensures forall t :: t in members ==>
              t < |Run(s, es).tasks| && !Started(Run(s, es).tasks[t]) && !Claimable(Run(s, es), t)
  {
    RunKeepsGraph(s, es);
    if es != [] {
      var before, last := es[..|es| - 1], es[|es| - 1];
      StuckTasksNeverStart(s, before, members);
      RunKeepsGraph(s, before);
      var mid := Run(s, before);
      assert Run(s, es) == Step(mid, last);
      forall t | t in members ensures !Started(Step(mid, last).tasks[t]) {
        DependenciesCompletedExactly(mid.tasks, mid.tasks[t].dependsOn);
      }
    }
  }

  /** p walks from task to dependency and ends on a task it has already visited. */
  ghost predicate WalksIntoCycle(tasks: seq<Task>, p: seq<nat>) {
    && |p| >= 2
    && (forall i :: 0 <= i < |p| - 1 ==> p[i] < |tasks| && p[i + 1] in tasks[p[i]].dependsOn)
    && p[|p| - 1] in p[..|p| - 1]
  }

  lemma {:induction false} CycleIsStuck(tasks: seq<Task>, p: seq<nat>)
    requires WalksIntoCycle(tasks, p)
    ensures Stuck(tasks, Elements(p))
  {
    forall t | t in Elements(p)
      ensures t < |tasks| && exists d :: d in tasks[t].dependsOn && d in Elements(p)
    {
      assert t in p[..|p| - 1];
      var i :| 0 <= i < |p| - 1 && p[i] == t;
      assert p[i + 1] in Elements(p);
    }
  }

  /** No task on a dependency cycle, or that reaches one, is ever claimed. */
  lemma {:induction false} TasksReachingCycleAreNeverClaimed(s: State, p: seq<nat>, es: seq<Event>)
    requires Created(s) && WalksIntoCycle(s.tasks, p)
    ensures forall t :: t in p ==>
              t < |s.tasks| && !Claimable(Run(s, es), t) && !Started(Run(s, es).tasks[t])
  {
    CycleIsStuck(s.tasks, p);
    StuckTasksNeverStart(s, es, Elements(p));
    forall t | t in p
      ensures t < |s.tasks| && !Claimable(Run(s, es), t) && !Started(Run(s, es).tasks[t])
    {
      assert t in Elements(p);
    }
  }

  // ---------------------------------------------------------------- progress

  /** The scheduler's own moves when every execution succeeds. */
  predicate Productive(e: Event) {
    e.Resolve? || e.Claim? || (e.Complete? && e.success)
  }

  ghost predicate Quiescent(s: State) {
    forall e: Event :: Productive(e) ==> Step(s, e) == s
  }

  /** Nothing failed, cancelled, deleted or under review, and every project runs. */
  ghost predicate Healthy(s: State) {
    && (forall t :: 0 <= t < |s.tasks| ==>
          && s.tasks[t].status !in {Failed, Cancelled, InReview}
          && !s.tasks[t].deleted
          && s.tasks[t].project < |s.projects|)
    && (forall p :: 0 <= p < |s.projects| ==> s.projects[p].status == Active && !s.projects[p].deleted)
  }

  function Rank(status: TaskStatus): nat {
    match status
    case Pending => 3 case Blocked => 3
    case Ready => 2
    case InProgress => 1
    case _ => 0
  }

  function Work(tasks: seq<Task>): nat {
    if tasks == [] then 0 else Work(tasks[..|tasks| - 1]) + Rank(tasks[|tasks| - 1].status)
  }

  lemma {:induction false} WorkFalls(a: seq<Task>, b: seq<Task>)
    requires |a| == |b| && forall t :: 0 <= t < |a| ==> Rank(b[t].status) <= Rank(a[t].status)
    ensures Work(b) <= Work(a) <= 3 * |a|
    ensures (exists t :: 0 <= t < |a| && Rank(b[t].status) < Rank(a[t].status)) ==> Work(b) < Work(a)
  {
    if a != [] {
      WorkFalls(a[..|a| - 1], b[..|b| - 1]);
      if t :| 0 <= t < |a| && Rank(b[t].status) < Rank(a[t].status) {
        if t < |a| - 1 {
          assert Rank(b[..|b| - 1][t].status) < Rank(a[..|a| - 1][t].status);
        }
      }
    }
  }

  /** A productive step that changes anything lowers the total rank. */
  lemma {:induction false} ProductiveStepFalls(s: State, e: Event)
    requires Productive(e) && Step(s, e) != s
    ensures Work(Step(s, e).tasks) < Work(s.tasks)
  {
    var s' := Step(s, e);
    assert s'.projects == s.projects;
    var t :| 0 <= t < |s.tasks| && s'.tasks[t] != s.tasks[t];
    assert Rank(s'.tasks[t].status) < Rank(s.tasks[t].status);
    WorkFalls(s.tasks, s'.tasks);
  }

  ghost predicate AllEffective(s: State, es: seq<Event>) {
    forall i :: 0 <= i < |es| ==> Productive(es[i]) && Run(s, es[..i + 1]) != Run(s, es[..i])
  }

  /** So a run in which every step does something is at most three steps a task long. */
  lemma {:induction false} EffectiveRunsAreShort(s: State, es: seq<Event>)
    requires AllEffective(s, es)
    ensures |es| + Work(Run(s, es).tasks) <= Work(s.tasks) <= 3 * |s.tasks|
  {
    WorkFalls(s.tasks, s.tasks);
    if es != [] {
      var before := es[..|es| - 1];
      forall i | 0 <= i < |before| ensures Productive(before[i]) && Run(s, before[..i + 1]) != Run(s, before[..i]) {
        assert before[..i + 1] == es[..i + 1] && before[..i] == es[..i];
      }
      EffectiveRunsAreShort(s, before);
      assert es[..|es| - 1 + 1] == es;
      ProductiveStepFalls(Run(s, before), es[|es| - 1]);
    }
  }

  lemma {:induction false} ProductiveRunsStayHealthy(s: State, es: seq<Event>)
    requires Healthy(s) && forall i :: 0 <= i < |es| ==> Productive(es[i])
    ensures Healthy(Run(s, es))
  {
    if es != [] {
      ProductiveRunsStayHealthy(s, es[..|es| - 1]);
    }
  }

  ghost predicate AllCompleted(s: State) {
    forall t :: 0 <= t < |s.tasks| ==> s.tasks[t].status == Completed
  }

  ghost function Unfinished(s: State): set<nat> {
    set t: nat | t < |s.tasks| && s.tasks[t].status != Completed
  }

  /** If the scheduler has nothing left to do, the unfinished tasks hold each other up. */
  lemma {:induction false} QuiescentMeansStuck(s: State)
    requires Healthy(s) && Quiescent(s)
    ensures Stuck(s.tasks, Unfinished(s))
  {
    forall t | t in Unfinished(s)
      ensures || !Distinct(s.tasks[t].dependsOn)
              || exists d :: d in s.tasks[t].dependsOn && (d >= |s.tasks| || d in Unfinished(s))
    {
      assert Step(s, Claim(t)) == s;
      assert Step(s, Complete(t, true, None)) == s;
      assert Step(s, Resolve({t})).tasks[t] == s.tasks[t];
      DependenciesCompletedExactly(s.tasks, s.tasks[t].dependsOn);
      if DependenciesCompleted(s.tasks, s.tasks[t].dependsOn) {
        CompletedExcludesFailed(s.tasks, s.tasks[t].dependsOn);
      }
    }
  }

  /** Progress, exactly: when every execution succeeds and the scheduler has run to a standstill,
      all tasks are COMPLETED if and only if no group of tasks was stuck from the start. */
  lemma {:induction false} AllTasksFinishExactly(s: State, es: seq<Event>)
    requires Created(s) && Healthy(s)
    requires (forall i :: 0 <= i < |es| ==> Productive(es[i])) && Quiescent(Run(s, es))
    ensures AllCompleted(Run(s, es)) <==> (forall members: set<nat> :: Stuck(s.tasks, members) ==> members == {})
  {
    var end := Run(s, es);
    RunKeepsGraph(s, es);
    ProductiveRunsStayHealthy(s, es);
    QuiescentMeansStuck(end);
    assert Stuck(s.tasks, Unfinished(end)) by { StuckIsAboutTheGraph(s, end, Unfinished(end)); }
    if !AllCompleted(end) {
      var t :| 0 <= t < |end.tasks| && end.tasks[t].status != Completed;
      assert t in Unfinished(end);
    }
    forall members: set<nat> | Stuck(s.tasks, members) && members != {} ensures !AllCompleted(end) {
      StuckTasksNeverStart(s, es, members);
      var t :| t in members;
      assert !Started(end.tasks[t]);
    }
  }

  lemma {:induction false} StuckIsAboutTheGraph(a: State, b: State, members: set<nat>)
    requires SameGraph(a, b) && Stuck(b.tasks, members)
    ensures Stuck(a.tasks, members)
  {}

  ghost predicate NothingMissing(tasks: seq<Task>) {
    forall t :: 0 <= t < |tasks| ==> forall d :: d in tasks[t].dependsOn ==> d < |tasks|
  }

  ghost predicate NothingRepeated(tasks: seq<Task>) {
    forall t :: 0 <= t < |tasks| ==> Distinct(tasks[t].dependsOn)
  }

  ghost predicate Acyclic(tasks: seq<Task>) {
    forall p: seq<nat> :: !WalksIntoCycle(tasks, p)
  }

  /** p walks from task to dependency inside members. */
  ghost predicate WalksInside(tasks: seq<Task>, members: set<nat>, p: seq<nat>) {
    && (forall i :: 0 <= i < |p| ==> p[i] in members && p[i] < |tasks|)
    && forall i :: 0 <= i < |p| - 1 ==> p[i + 1] in tasks[p[i]].dependsOn
  }

  /** In a stuck group where nothing is missing or repeated one can walk on for ever. */
  lemma {:induction false} WalkOn(tasks: seq<Task>, members: set<nat>, t: nat, n: nat) returns (p: seq<nat>)
    requires Stuck(tasks, members) && NothingMissing(tasks) && NothingRepeated(tasks) && t in members
    ensures |p| == n + 1 && WalksInside(tasks, members, p)
  {
    if n == 0 {
      p := [t];
    } else {
      var before := WalkOn(tasks, members, t, n - 1);
      p := WalkOnce(tasks, members, before);
    }
  }

  lemma {:induction false} WalkOnce(tasks: seq<Task>, members: set<nat>, before: seq<nat>) returns (p: seq<nat>)
    requires Stuck(tasks, members) && NothingMissing(tasks) && NothingRepeated(tasks)
    requires before != [] && WalksInside(tasks, members, before)
    ensures |p| == |before| + 1 && WalksInside(tasks, members, p)
  {
    var d := NextMember(tasks, members, before[|before| - 1]);
    p := before + [d];
    WalkExtends(tasks, members, before, d);
  }

  lemma {:induction false} NextMember(tasks: seq<Task>, members: set<nat>, t: nat) returns (d: nat)
    requires Stuck(tasks, members) && NothingMissing(tasks) && NothingRepeated(tasks) && t in members
    ensures t < |tasks| && d in tasks[t].dependsOn && d in members && d < |tasks|
  {
    d :| d in tasks[t].dependsOn && (d >= |tasks| || d in members);
  }

  lemma {:induction false} WalkExtends(tasks: seq<Task>, members: set<nat>, p: seq<nat>, d: nat)
    requires WalksInside(tasks, members, p) && p != []
    requires d in members && d < |tasks| && d in tasks[p[|p| - 1]].dependsOn
    ensures WalksInside(tasks, members, p + [d])
  {
    var q := p + [d];
    forall i | 0 <= i < |q| - 1 ensures q[i + 1] in tasks[q[i]].dependsOn {
      if i + 1 < |p| {
        assert q[i] == p[i] && q[i + 1] == p[i + 1];
      }
    }
  }

  /** A walk longer than the table visits some task twice. */
  lemma {:induction false} LongWalkRepeats(tasks: seq<Task>, members: set<nat>, p: seq<nat>)
    requires WalksInside(tasks, members, p) && |p| > |tasks|
    ensures !Acyclic(tasks)
  {
    DistinctByCount(p);
    assert Elements(p) <= Below(|tasks|);
    SubsetSize(Elements(p), Below(|tasks|));
    var i, j :| 0 <= i < j < |p| && p[i] == p[j];
    var q := p[..j + 1];
    assert q[|q| - 1] == q[i] && q[i] in q[..|q| - 1];
    assert WalksIntoCycle(tasks, q);
  }

  /** An acyclic graph over existing tasks, each dependency listed once, has no stuck group. */
  lemma {:induction false} AcyclicGraphIsNeverStuck(tasks: seq<Task>, members: set<nat>)
    requires NothingMissing(tasks) && NothingRepeated(tasks) && Acyclic(tasks) && Stuck(tasks, members)
    ensures members == {}
  {
    if t :| t in members {
      var p := WalkOn(tasks, members, t, |tasks|);
      LongWalkRepeats(tasks, members, p);
    }
  }

  /** Some group of tasks is stuck exactly when a dependency is missing or repeated or there is a cycle. */
  lemma {:induction false} StuckGroupExactly(tasks: seq<Task>)
    ensures (exists members: set<nat> :: Stuck(tasks, members) && members != {})
            <==> !(NothingMissing(tasks) && NothingRepeated(tasks) && Acyclic(tasks))
  {
    if NothingMissing(tasks) && NothingRepeated(tasks) && Acyclic(tasks) {
      forall members: set<nat> | Stuck(tasks, members) ensures members == {} {
        AcyclicGraphIsNeverStuck(tasks, members);
      }
    } else if !Acyclic(tasks) {
      var p: seq<nat> :| WalksIntoCycle(tasks, p);
      CycleIsStuck(tasks, p);
      assert p[0] in Elements(p);
    } else {
      var t: nat :| t < |tasks| && (|| !Distinct(tasks[t].dependsOn)
                                    || exists d :: d in tasks[t].dependsOn && d >= |tasks|);
      assert Stuck(tasks, {t});
    }
  }

  /** Progress in terms of the graph alone: when every execution succeeds and the scheduler has run to a
      standstill, all tasks are COMPLETED if and only if every dependency exists, none is listed twice, and
      there is no cycle. */
  lemma {:induction false} AllTasksFinishOnSoundGraphs(s: State, es: seq<Event>)
    requires Created(s) && Healthy(s)
    requires (forall i :: 0 <= i < |es| ==> Productive(es[i])) && Quiescent(Run(s, es))
    ensures AllCompleted(Run(s, es))
            <==> NothingMissing(s.tasks) && NothingRepeated(s.tasks) && Acyclic(s.tasks)
  {
    AllTasksFinishExactly(s, es);
    StuckGroupExactly(s.tasks);
  }

  // ---------------------------------------------------------------- accounting

  datatype Tally = Claims | PausedClaims | Completions | Recoveries | ForcedSets

  ghost predicate Counts(what: Tally, t: nat, s: State, e: Event) {
    t < |s.tasks| &&
    match what
    case Claims => e == Claim(t) && Claimable(s, t)
    case PausedClaims => e == Claim(t) && Claimable(s, t) && s.projects[s.tasks[t].project].status == Paused
    case Completions => e.Complete? && e.t == t && s.tasks[t].status == InProgress
    case Recoveries => e.Recover? && Stale(s.tasks, t, e.stale)
    case ForcedSets =>
      || (e == ForcePickup(t) && ForceAllowed(s, t))
      || (e.WriteData? && e.t == t && !s.tasks[t].deleted && !s.tasks[t].data.forcedPickup
          && e.patch.forcedPickup == Some(true))
  }

  ghost function Count(what: Tally, t: nat, s: State, es: seq<Event>): nat {
    if es == [] then 0
    else Count(what, t, s, es[..|es| - 1]) +
         One(Counts(what, t, Run(s, es[..|es| - 1]), es[|es| - 1]))
  }

  /** From any state and over any run: every claim of a task, with the one in progress at the start, ends in
      exactly one effective completion or one stale recovery, except the one still in progress; and each claim
      made while its project was PAUSED used up one setting of forced_pickup, made during the run or before. */
  lemma {:induction false} ClaimsAreConserved(s: State, es: seq<Event>, t: nat)
    requires t < |s.tasks|
    ensures Count(Claims, t, s, es) + One(s.tasks[t].status == InProgress) ==
            Count(Completions, t, s, es) + Count(Recoveries, t, s, es) +
            One(Run(s, es).tasks[t].status == InProgress)
    ensures Count(PausedClaims, t, s, es) + One(Run(s, es).tasks[t].data.forcedPickup)
            <= Count(ForcedSets, t, s, es) + One(s.tasks[t].data.forcedPickup)
  {
    if es != [] {
      ClaimsAreConserved(s, es[..|es| - 1], t);
      StepBalances(Run(s, es[..|es| - 1]), es[|es| - 1], t);
    }
  }

  lemma {:induction false} StepBalances(s: State, e: Event, t: nat)
    requires t < |s.tasks|
    ensures var s' := Step(s, e);
            && One(Counts(Claims, t, s, e)) + One(s.tasks[t].status == InProgress) ==
               One(Counts(Completions, t, s, e)) + One(Counts(Recoveries, t, s, e)) +
               One(s'.tasks[t].status == InProgress)
            && One(Counts(PausedClaims, t, s, e)) + One(s'.tasks[t].data.forcedPickup) <=
               One(Counts(ForcedSets, t, s, e)) + One(s.tasks[t].data.forcedPickup)
  {}
}
