/**
 * Replacing a task's dependency list through the project service: the checks, the search that refuses a
 * cycle, and the status that follows.
 */
module DependencyEdits {
  import opened Common
  import opened Tasks

  /** The dependency lists of a project's tasks; a task without a row has none. */
  type Graph = map<nat, seq<nat>>

  function Next(g: Graph, n: nat): seq<nat> {
    if n in g then g[n] else []
  }

  ghost predicate Walk(g: Graph, p: seq<nat>) {
    |p| >= 2 && forall i :: 0 <= i < |p| - 1 ==> p[i + 1] in Next(g, p[i])
  }

  ghost predicate Reaches(g: Graph, a: nat, b: nat) {
    exists p: seq<nat> :: Walk(g, p) && p[0] == a && p[|p| - 1] == b
  }

  ghost predicate NoCycle(g: Graph) {
    forall n: nat :: !Reaches(g, n, n)
  }

  // ---------------------------------------------------------------- the search

  ghost function Nodes(g: Graph): set<nat> {
    set k, d | k in g && d in g[k] :: d
  }

  /** Everything seen is reachable from the start, and everything one step from what has been expanded is
      expanded or on the stack. */
  ghost predicate Searching(g: Graph, start: nat, visited: set<nat>, stack: seq<nat>) {
    && start !in visited && visited <= Nodes(g)
    && (forall x :: x in visited || x in stack ==> Reaches(g, start, x))
    && forall x, y :: (x == start || x in visited) && y in Next(g, x) ==> y in visited || y in stack
  }

  lemma {:induction false} OneStep(g: Graph, a: nat, b: nat)
    requires b in Next(g, a)
    ensures Reaches(g, a, b) && b in Nodes(g)
  {
    var p := [a, b];
    assert Walk(g, p) && p[0] == a && p[|p| - 1] == b;
  }

  lemma {:induction false} StepOn(g: Graph, a: nat, b: nat, c: nat)
    requires Reaches(g, a, b) && c in Next(g, b)
    ensures Reaches(g, a, c)
  {
    var p: seq<nat> :| Walk(g, p) && p[0] == a && p[|p| - 1] == b;
    var q := p + [c];
    forall i | 0 <= i < |q| - 1 ensures q[i + 1] in Next(g, q[i]) {
      if i + 1 < |p| { assert p[i + 1] in Next(g, p[i]); }
    }
    assert Walk(g, q) && q[0] == a && q[|q| - 1] == c;
  }

  lemma {:induction false} ReachedIsNode(g: Graph, a: nat, b: nat)
    requires Reaches(g, a, b)
    ensures b in Nodes(g)
  {
    var p: seq<nat> :| Walk(g, p) && p[0] == a && p[|p| - 1] == b;
    OneStep(g, p[|p| - 2], b);
  }

  lemma {:induction false} StartSearch(g: Graph, start: nat)
    ensures Searching(g, start, {}, Next(g, start))
  {
    forall x | x in Next(g, start) ensures Reaches(g, start, x) {
      OneStep(g, start, x);
    }
  }

  lemma {:induction false} SkipNode(g: Graph, start: nat, visited: set<nat>, rest: seq<nat>, node: nat)
    requires Searching(g, start, visited, rest + [node]) && node in visited
    ensures Searching(g, start, visited, rest)
  {
    forall x | x in rest ensures x in rest + [node] {}
  }

  lemma {:induction false} ExpandNode(g: Graph, start: nat, visited: set<nat>, rest: seq<nat>, node: nat)
    requires Searching(g, start, visited, rest + [node]) && node != start && node !in visited
    ensures Searching(g, start, visited + {node}, rest + Next(g, node))
    ensures |visited| < |visited + {node}| <= |Nodes(g)|
  {
    var stack := rest + [node];
    assert node in stack;
    ReachedIsNode(g, start, node);
    SubsetSize(visited + {node}, Nodes(g));
    forall x | x in visited + {node} || x in rest + Next(g, node) ensures Reaches(g, start, x) {
      if x in Next(g, node) {
        StepOn(g, start, node, x);
      } else {
        assert x in visited || x in stack;
      }
    }
    forall x, y | (x == start || x in visited + {node}) && y in Next(g, x)
      ensures y in visited + {node} || y in rest + Next(g, node)
    {
      if x != node {
        assert y in visited || y in stack;
      }
    }
  }

  /** A walk from the start stays in what was visited. */
  lemma {:induction false} SearchedWalk(g: Graph, start: nat, visited: set<nat>, p: seq<nat>)
    requires Searching(g, start, visited, []) && Walk(g, p) && p[0] == start
    ensures p[|p| - 1] in visited
  {
    var n := |p| - 1;
    assert p[n] in Next(g, p[n - 1]);
    if n > 1 {
      var q := p[..n];
      forall i | 0 <= i < |q| - 1 ensures q[i + 1] in Next(g, q[i]) {
        assert p[i + 1] in Next(g, p[i]);
      }
      SearchedWalk(g, start, visited, q);
    }
  }

  lemma {:induction false} NothingLeft(g: Graph, start: nat, visited: set<nat>)
    requires Searching(g, start, visited, [])
    ensures !Reaches(g, start, start)
  {
    if p: seq<nat> :| Walk(g, p) && p[0] == start && p[|p| - 1] == start {
      SearchedWalk(g, start, visited, p);
    }
  }

  /** The depth-first search over the stack answers exactly whether the task depends on itself. */
  method DependsOnItself(g: Graph, task: nat) returns (cycle: bool)
    ensures cycle <==> Reaches(g, task, task)
  {
    var visited: set<nat> := {};
    var stack := Next(g, task);
    StartSearch(g, task);
    while stack != []
      invariant Searching(g, task, visited, stack)
      decreases |Nodes(g)| - |visited|, |stack|
    {
      var node, rest := stack[|stack| - 1], stack[..|stack| - 1];
      assert stack == rest + [node];
      if node == task {
        assert node in stack;
        return true;
      }
      if node in visited {
        SkipNode(g, task, visited, rest, node);
        stack := rest;
      } else {
        ExpandNode(g, task, visited, rest, node);
        visited := visited + {node};
        stack := rest + Next(g, node);
      }
    }
    NothingLeft(g, task, visited);
    return false;
  }

  // ---------------------------------------------------------------- what the check keeps

  lemma {:induction false} RotatedStep(g: Graph, p: seq<nat>, i: nat, q: seq<nat>, k: nat)
    requires Walk(g, p) && p[0] == p[|p| - 1] && i < |p| - 1
    requires q == p[i..] + p[1..i + 1] && k < |q| - 1
    ensures q[k + 1] in Next(g, q[k])
  {
    var n := |p| - i;
    if k + 1 < n {
      assert q[k] == p[i + k] && q[k + 1] == p[i + k + 1];
    } else {
      assert q[k] == p[k + 1 - n] && q[k + 1] == p[k + 2 - n];
    }
  }

  lemma {:induction false} Rotate(g: Graph, p: seq<nat>, i: nat)
    requires Walk(g, p) && p[0] == p[|p| - 1] && i < |p| - 1
    ensures Reaches(g, p[i], p[i])
  {
    var q := p[i..] + p[1..i + 1];
    forall k | 0 <= k < |q| - 1 ensures q[k + 1] in Next(g, q[k]) {
      RotatedStep(g, p, i, q, k);
    }
    assert Walk(g, q) && q[0] == p[i] && q[|q| - 1] == p[i];
  }

  /** A cycle that a new list brings in goes through the edited task, so that searching from it is enough: the
      edited graph is acyclic exactly when the search finds nothing. */
  lemma {:induction false} EditKeepsAcyclicExactly(g: Graph, task: nat, deps: seq<nat>)
    requires NoCycle(g)
    ensures NoCycle(g[task := deps]) <==> !Reaches(g[task := deps], task, task)
  {
    var edited := g[task := deps];
    if !Reaches(edited, task, task) {
      forall n: nat ensures !Reaches(edited, n, n) {
        if p: seq<nat> :| Walk(edited, p) && p[0] == n && p[|p| - 1] == n {
          CycleAvoids(g, edited, task, p);
        }
      }
    }
  }

  lemma {:induction false} CycleAvoids(g: Graph, edited: Graph, task: nat, p: seq<nat>)
    requires Walk(edited, p) && p[0] == p[|p| - 1] && !Reaches(edited, task, task)
    requires forall n :: n != task ==> Next(edited, n) == Next(g, n)
    ensures !NoCycle(g)
  {
    forall i | 0 <= i < |p| - 1 ensures p[i] != task {
      if p[i] == task {
        Rotate(edited, p, i);
      }
    }
    assert Walk(g, p);
    assert Reaches(g, p[0], p[0]);
  }

  // ---------------------------------------------------------------- the edit

  datatype EditError = SelfDependency | NotFound | Missing | Cycle

  predicate InProject(tasks: seq<Task>, project: nat, t: nat) {
    t < |tasks| && tasks[t].project == project && !tasks[t].deleted
  }

  function GraphOf(tasks: seq<Task>, project: nat): Graph {
    map t: nat | t < |tasks| && InProject(tasks, project, t) :: tasks[t].dependsOn
  }

  /** Each request once, in the order of first mention. */
  function Deduplicated(ids: seq<nat>): seq<nat> {
    if ids == [] then []
    else
      var before, last := Deduplicated(ids[..|ids| - 1]), ids[|ids| - 1];
      if last in ids[..|ids| - 1] then before else before + [last]
  }

  lemma {:induction false} DeduplicatedKeeps(ids: seq<nat>)
    ensures Distinct(Deduplicated(ids)) && forall d :: d in Deduplicated(ids) <==> d in ids
  {
    if ids != [] {
      DeduplicatedKeeps(ids[..|ids| - 1]);
      assert ids == ids[..|ids| - 1] + [ids[|ids| - 1]];
    }
  }

  /** The first mentions come in the order of the request: before every mention of a later item there is one of
      each earlier item. */
  ghost predicate InOrderOfMention(deps: seq<nat>, ids: seq<nat>) {
    forall i, j, q :: 0 <= i < j < |deps| && 0 <= q < |ids| && ids[q] == deps[j] ==> deps[i] in ids[..q]
  }

  lemma {:induction false} DeduplicatedKeepsOrder(ids: seq<nat>)
    ensures InOrderOfMention(Deduplicated(ids), ids)
  {
    if ids != [] {
      var front, last := ids[..|ids| - 1], ids[|ids| - 1];
      var before, deps := Deduplicated(front), Deduplicated(ids);
      DeduplicatedKeeps(front);
      DeduplicatedKeepsOrder(front);
      forall i, j, q | 0 <= i < j < |deps| && 0 <= q < |ids| && ids[q] == deps[j] ensures deps[i] in ids[..q] {
        assert q < |front| ==> ids[q] == front[q] && front[q] in front && ids[..q] == front[..q];
        assert deps[i] == before[i] && before[i] in before;
        if q == |front| {
          assert ids[..q] == front;
        } else if j == |before| {
          assert false;
        }
      }
    }
  }

  method Deduplicate(ids: seq<nat>) returns (deps: seq<nat>)
    ensures deps == Deduplicated(ids)
  {
    deps := [];
    var seen: set<nat> := {};
    for i := 0 to |ids|
      invariant deps == Deduplicated(ids[..i])
      invariant forall d :: d in seen <==> d in ids[..i]
    {
      assert ids[..i + 1][..i] == ids[..i] && ids[..i + 1] == ids[..i] + [ids[i]];
      if ids[i] !in seen {
        seen := seen + {ids[i]};
        deps := deps + [ids[i]];
      }
    }
    assert ids[..|ids|] == ids;
  }

  predicate AllCompletedIn(tasks: seq<Task>, deps: seq<nat>) {
    forall d :: d in deps && d < |tasks| ==> tasks[d].status == Completed
  }

  function StatusAfterEdit(tasks: seq<Task>, status: TaskStatus, deps: seq<nat>): TaskStatus {
    if status in {Completed, Failed, Cancelled, InProgress, InReview} then status
    else if deps != [] && !AllCompletedIn(tasks, deps) then Blocked
    else Ready
  }

  /** Each answer exactly, and the row that an accepted edit leaves. */
  method SetTaskDependencies(tasks: seq<Task>, project: nat, t: nat, requested: seq<nat>)
    returns (r: Result<Task, EditError>)
    ensures r == Err(SelfDependency) <==> t in requested
    ensures r == Err(NotFound) <==> t !in requested && !InProject(tasks, project, t)
    ensures r == Err(Missing) <==>
            && t !in requested && InProject(tasks, project, t)
            && exists d :: d in requested && !InProject(tasks, project, d)
    ensures r == Err(Cycle) <==>
            && t !in requested && InProject(tasks, project, t)
            && (forall d :: d in requested ==> InProject(tasks, project, d))
            && Reaches(GraphOf(tasks, project)[t := Deduplicated(requested)], t, t)
    ensures r.Ok? ==>
            var deps := Deduplicated(requested);
            r.value == tasks[t].(dependsOn := deps, status := StatusAfterEdit(tasks, tasks[t].status, deps))
  {
    var deps := Deduplicate(requested);
    DeduplicatedKeeps(requested);
    if t in deps {
      return Err(SelfDependency);
    }
    if !InProject(tasks, project, t) {
      return Err(NotFound);
    }
    if deps != [] {
      if exists d :: d in deps && !InProject(tasks, project, d) {
        return Err(Missing);
      }
      var cycle := DependsOnItself(GraphOf(tasks, project)[t := deps], t);
      if cycle {
        return Err(Cycle);
      }
    } else {
      NoListNoCycle(GraphOf(tasks, project)[t := deps], t);
    }
    r := Ok(tasks[t].(dependsOn := deps, status := StatusAfterEdit(tasks, tasks[t].status, deps)));
  }

  lemma {:induction false} NoListNoCycle(g: Graph, t: nat)
    requires Next(g, t) == []
    ensures !Reaches(g, t, t)
  {
    forall p: seq<nat> | |p| >= 2 && p[0] == t ensures !Walk(g, p) {
      assert p[1] !in Next(g, p[0]);
    }
  }

  function Edited(tasks: seq<Task>, t: nat, requested: seq<nat>): seq<Task>
    requires t < |tasks|
  {
    var deps := Deduplicated(requested);
    tasks[t := tasks[t].(dependsOn := deps, status := StatusAfterEdit(tasks, tasks[t].status, deps))]
  }

  /** An accepted edit leaves the project's graph acyclic, its own list without repetition or missing tasks,
      and a task that it makes READY has met all its dependencies by the sweep's own test. */
  lemma {:induction false} AcceptedEditIsSound(tasks: seq<Task>, project: nat, t: nat, requested: seq<nat>)
    requires NoCycle(GraphOf(tasks, project)) && t !in requested && InProject(tasks, project, t)
    requires forall d :: d in requested ==> InProject(tasks, project, d)
    requires !Reaches(GraphOf(tasks, project)[t := Deduplicated(requested)], t, t)
    ensures var after, deps := Edited(tasks, t, requested), Deduplicated(requested);
            && NoCycle(GraphOf(after, project)) && Distinct(deps)
            && (tasks[t].status in {Pending, Blocked, Ready} ==>
                  (after[t].status == Ready <==> DependenciesCompleted(after, deps)))
  {
    EditedGraph(tasks, project, t, requested);
    EditKeepsAcyclicExactly(GraphOf(tasks, project), t, Deduplicated(requested));
    EditedStatus(tasks, project, t, requested);
  }

  lemma {:induction false} EditedGraph(tasks: seq<Task>, project: nat, t: nat, requested: seq<nat>)
    requires InProject(tasks, project, t)
    ensures GraphOf(Edited(tasks, t, requested), project) == GraphOf(tasks, project)[t := Deduplicated(requested)]
  {}

  lemma {:induction false} EditedStatus(tasks: seq<Task>, project: nat, t: nat, requested: seq<nat>)
    requires t !in requested && InProject(tasks, project, t)
    requires forall d :: d in requested ==> InProject(tasks, project, d)
    ensures var after, deps := Edited(tasks, t, requested), Deduplicated(requested);
            && Distinct(deps)
            && (tasks[t].status in {Pending, Blocked, Ready} ==>
                  (after[t].status == Ready <==> DependenciesCompleted(after, deps)))
  {
    DeduplicatedKeeps(requested);
    DependenciesCompletedExactly(Edited(tasks, t, requested), Deduplicated(requested));
  }

  /** What an accepted edit leaves in the row, in every status: the requested tasks in order of first mention, and
      the status recomputed for a task that has not run, BLOCKED while a requested task is not COMPLETED. */
  lemma {:induction false} EditedRowExactly(tasks: seq<Task>, project: nat, t: nat, requested: seq<nat>)
    requires t !in requested && InProject(tasks, project, t)
    requires forall d :: d in requested ==> InProject(tasks, project, d)
    ensures var row, after := tasks[t], Edited(tasks, t, requested)[t];
            var unmet := exists d :: d in requested && d < |tasks| && tasks[d].status != Completed;
            && after == row.(dependsOn := after.dependsOn, status := after.status)
            && Distinct(after.dependsOn) && InOrderOfMention(after.dependsOn, requested)
            && (forall d :: d in after.dependsOn <==> d in requested)
            && (row.status in {Completed, Failed, Cancelled, InProgress, InReview} ==> after.status == row.status)
            && (row.status in {Pending, Blocked, Ready} ==> after.status == if unmet then Blocked else Ready)
  {
    DeduplicatedKeeps(requested);
    DeduplicatedKeepsOrder(requested);
    var deps := Deduplicated(requested);
    if d :| d in requested && d < |tasks| && tasks[d].status != Completed {
      assert d in deps;
    }
  }

  /** In which states an accepted edit keeps the order of the executor, in every status: a task that has run,
      whose status the edit leaves alone, must not be given a dependency that is not COMPLETED. */
  lemma {:induction false} EditKeepsOrderedExactly(s: State, project: nat, t: nat, requested: seq<nat>)
    requires Ordered(s) && t !in requested && InProject(s.tasks, project, t)
    requires forall d :: d in requested ==> InProject(s.tasks, project, d)
    ensures Ordered(s.(tasks := Edited(s.tasks, t, requested))) <==>
            (s.tasks[t].status in {InProgress, Completed, Failed} ==> AllCompletedIn(s.tasks, requested))
  {
    var after, deps := Edited(s.tasks, t, requested), Deduplicated(requested);
    DeduplicatedKeeps(requested);
    assert DependenciesDone(after, deps) <==> AllCompletedIn(s.tasks, requested);
    assert Started(after[t]) && s.tasks[t].status !in {InProgress, Completed, Failed} ==> DependenciesDone(after, deps);
    forall u | 0 <= u < |after| && u != t && Started(after[u]) ensures DependenciesDone(after, after[u].dependsOn) {
      assert DependenciesDone(s.tasks, s.tasks[u].dependsOn);
      if t in after[u].dependsOn {
        assert after[t].status == Completed;
      }
    }
  }

  /** The run: a FAILED task that can be resumed is given an unfinished dependency, resumed, and can be claimed. */
  lemma {:induction false} EditedFailureIsClaimable(s: State, t: nat, d: nat)
    requires Resumable(s, t) && ProjectAllowsPickup(s.projects, s.tasks[t]) && t != d
    requires InProject(s.tasks, s.tasks[t].project, d) && s.tasks[d].status != Completed
    ensures var after := Step(s.(tasks := Edited(s.tasks, t, [d])), Resume(t));
            Claimable(after, t) && !DependenciesCompleted(after.tasks, after.tasks[t].dependsOn)
  {
    DeduplicatedKeeps([d]);
    var after := Step(s.(tasks := Edited(s.tasks, t, [d])), Resume(t));
    DependenciesCompletedExactly(after.tasks, after.tasks[t].dependsOn);
    assert d in after.tasks[t].dependsOn;
  }

  // ---------------------------------------------------------------- from edits to progress

  /** Every dependency is a task of the same project that is still there. */
  ghost predicate WithinProjects(tasks: seq<Task>) {
    forall t: nat :: t < |tasks| ==> forall d :: d in tasks[t].dependsOn ==> InProject(tasks, tasks[t].project, d)
  }

  ghost predicate ProjectsHaveNoCycle(tasks: seq<Task>) {
    forall project: nat :: NoCycle(GraphOf(tasks, project))
  }

  lemma {:induction false} WalkStaysInProject(tasks: seq<Task>, p: seq<nat>, i: nat)
    requires WithinProjects(tasks) && WalksIntoCycle(tasks, p) && 0 < i < |p|
    ensures InProject(tasks, tasks[p[0]].project, p[i])
  {
    if i > 1 {
      WalkStaysInProject(tasks, p, i - 1);
    }
    assert p[i] in tasks[p[i - 1]].dependsOn;
  }

  /** The service's notion of a cycle is the executor's: where no project has one, no walk returns. */
  lemma {:induction false} ProjectsAreAcyclic(tasks: seq<Task>)
    requires WithinProjects(tasks) && ProjectsHaveNoCycle(tasks)
    ensures Acyclic(tasks)
  {
    forall p: seq<nat> ensures !WalksIntoCycle(tasks, p) {
      if WalksIntoCycle(tasks, p) {
        CycleInProject(tasks, p);
      }
    }
  }

  lemma {:induction false} CycleInProject(tasks: seq<Task>, p: seq<nat>)
    requires WithinProjects(tasks) && WalksIntoCycle(tasks, p)
    ensures !NoCycle(GraphOf(tasks, tasks[p[0]].project))
  {
    var n, project := |p| - 1, tasks[p[0]].project;
    var a :| 0 <= a < n && p[a] == p[n];
    forall i | a <= i < n ensures InProject(tasks, project, p[i]) {
      WalkStaysInProject(tasks, p, if i == 0 then n else i);
    }
    WalkInGraph(tasks, project, p, a, p[a..]);
    assert Reaches(GraphOf(tasks, project), p[a], p[a]);
  }

  lemma {:induction false} WalkInGraph(tasks: seq<Task>, project: nat, p: seq<nat>, a: nat, q: seq<nat>)
    requires a < |p| - 1 && q == p[a..]
    requires forall i :: a <= i < |p| - 1 ==> InProject(tasks, project, p[i]) && p[i + 1] in tasks[p[i]].dependsOn
    ensures Walk(GraphOf(tasks, project), q) && q[0] == p[a] && q[|q| - 1] == p[|p| - 1]
  {
    forall i | 0 <= i < |q| - 1 ensures q[i + 1] in Next(GraphOf(tasks, project), q[i]) {
      assert q[i] == p[a + i] && q[i + 1] == p[a + i + 1];
    }
  }

  /** An accepted edit keeps all of that, project by project. */
  lemma {:induction false} EditKeepsGraphSound(tasks: seq<Task>, t: nat, requested: seq<nat>)
    requires t < |tasks| && WithinProjects(tasks) && ProjectsHaveNoCycle(tasks) && NothingRepeated(tasks)
    requires var project := tasks[t].project;
             && t !in requested && InProject(tasks, project, t)
             && (forall d :: d in requested ==> InProject(tasks, project, d))
             && !Reaches(GraphOf(tasks, project)[t := Deduplicated(requested)], t, t)
    ensures var after := Edited(tasks, t, requested);
            WithinProjects(after) && ProjectsHaveNoCycle(after) && NothingRepeated(after)
  {
    var project, after := tasks[t].project, Edited(tasks, t, requested);
    DeduplicatedKeeps(requested);
    forall other: nat ensures NoCycle(GraphOf(after, other)) {
      if other == project {
        EditKeepsAcyclicExactly(GraphOf(tasks, project), t, Deduplicated(requested));
        EditedGraph(tasks, project, t, requested);
      } else {
        assert GraphOf(after, other) == GraphOf(tasks, other);
      }
    }
    forall u: nat, d | u < |after| && d in after[u].dependsOn ensures InProject(after, after[u].project, d) {
      assert d in if u == t then requested else tasks[u].dependsOn;
    }
  }

  /** Before anything has run, an accepted edit leaves rows such as the task tools create. */
  lemma {:induction false} EditKeepsCreated(s: State, project: nat, t: nat, requested: seq<nat>)
    requires Created(s) && InProject(s.tasks, project, t)
    requires forall d :: d in requested ==> InProject(s.tasks, project, d)
    ensures Created(s.(tasks := Edited(s.tasks, t, requested)))
  {
    DeduplicatedKeeps(requested);
    var deps := Deduplicated(requested);
    if deps != [] {
      assert deps[0] in deps && deps[0] in requested;
      assert s.tasks[deps[0]].status != Completed;
    }
  }

  /** So after any accepted edits of rows as created, when every execution succeeds, the scheduler comes to a
      standstill only with all tasks COMPLETED. */
  lemma {:induction false} SoundProjectsFinish(s: State, es: seq<Event>)
    requires WithinProjects(s.tasks) && ProjectsHaveNoCycle(s.tasks) && NothingRepeated(s.tasks)
    requires Created(s) && Healthy(s)
    requires (forall i :: 0 <= i < |es| ==> Productive(es[i])) && Quiescent(Run(s, es))
    ensures AllCompleted(Run(s, es))
  {
    ProjectsAreAcyclic(s.tasks);
    AllTasksFinishOnSoundGraphs(s, es);
  }
}
