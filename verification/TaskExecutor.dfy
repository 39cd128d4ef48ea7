/**
 * The executor's transactions as they are written: row by row, in place. Each method is
 * tied to one Step of the Tasks state machine.
 */
module TaskExecutor {
  import opened Common
  import opened Tasks

  datatype ResumeError = NotFound | InvalidStatus | NotResumable | NoSession

  /** Promoting rows to READY is invisible to the dependency tests, which look for other statuses. */
  lemma {:induction false} PromotionIsInvisible(tasks: seq<Task>, picked: set<nat>, ids: seq<nat>,
                                                statuses: set<TaskStatus>)
    requires statuses !! {Pending, Blocked, Ready}
    ensures RowsWithStatus(Resolved(tasks, picked), ids, statuses) == RowsWithStatus(tasks, ids, statuses)
  {}

  ghost predicate Selected(tasks: seq<Task>, rows: seq<nat>) {
    Distinct(rows) && forall r :: r in rows ==> r < |tasks| && Waiting(tasks[r])
  }

  /** The picked rows that one simultaneous update promotes. */
  ghost function Promoted(tasks: seq<Task>, picked: set<nat>): set<nat> {
    set t | t in picked && t < |tasks| && Resolvable(tasks, t)
  }

  /** Judging the next row on the half-updated table agrees with judging it at the start. */
  lemma {:induction false} SweepOneRow(tasks: seq<Task>, rows: seq<nat>, i: nat)
    requires Selected(tasks, rows) && i < |rows|
    ensures var before, after := Elements(rows[..i]), Elements(rows[..i + 1]);
            var now, t := Resolved(tasks, before), rows[i];
            && t < |now|
            && now[t] == tasks[t]
            && (if !HasFailedDependency(now, now[t].dependsOn) && DependenciesCompleted(now, now[t].dependsOn)
                then Resolved(tasks, after) == now[t := now[t].(status := Ready)]
                     && |Promoted(tasks, after)| == |Promoted(tasks, before)| + 1
                else Resolved(tasks, after) == now && Promoted(tasks, after) == Promoted(tasks, before))
  {
    var before, t := Elements(rows[..i]), rows[i];
    assert t in rows && t !in rows[..i];
    assert rows[..i + 1] == rows[..i] + [t];
    assert Elements(rows[..i + 1]) == before + {t};
    ResolvedWithOneMore(tasks, before, t);
    assert Promoted(tasks, before + {t}) == Promoted(tasks, before) + if Resolvable(tasks, t) then {t} else {};
  }

  lemma {:induction false} ResolvedWithOneMore(tasks: seq<Task>, before: set<nat>, t: nat)
    requires t < |tasks| && Waiting(tasks[t]) && t !in before
    ensures var now := Resolved(tasks, before);
            && now[t] == tasks[t]
            && Resolvable(tasks, t) == Resolvable(now, t)
            && Resolved(tasks, before + {t})
                == if Resolvable(tasks, t) then now[t := tasks[t].(status := Ready)] else now
  {
    PromotionIsInvisible(tasks, before, tasks[t].dependsOn, {Failed, Cancelled});
    PromotionIsInvisible(tasks, before, tasks[t].dependsOn, {Completed});
  }

  /** A second sweep over any rows changes nothing that one sweep over all rows left. */
  lemma {:induction false} SweepIsIdempotent(tasks: seq<Task>, all: set<nat>, again: set<nat>)
    requires forall t :: 0 <= t < |tasks| ==> t in all
    ensures Resolved(Resolved(tasks, all), again) == Resolved(tasks, all)
  {
    var once := Resolved(tasks, all);
    forall t: nat | t < |tasks| ensures !Resolvable(once, t) {
      if Waiting(once[t]) {
        PromotionIsInvisible(tasks, all, tasks[t].dependsOn, {Failed, Cancelled});
        PromotionIsInvisible(tasks, all, tasks[t].dependsOn, {Completed});
      }
    }
  }

  predicate HasResumableError(task: Task) {
    task.data.errorSubtype.Some? && task.data.errorSubtype.value in RESUMABLE_ERROR_SUBTYPES
  }

  class TaskTable {
    var tasks: seq<Task>
    var projects: seq<Project>

    ghost function Snapshot(): State
      reads this
    {
      State(tasks, projects)
    }

    constructor (tasks: seq<Task>, projects: seq<Project>)
      ensures Snapshot() == State(tasks, projects)
    {
      this.tasks, this.projects := tasks, projects;
    }

    /** The body of the sweep for one row, on the half-updated table. */
    method ResolveRow(ghost start: seq<Task>, rows: seq<nat>, i: nat) returns (promoted: bool)
      requires Selected(start, rows) && i < |rows| && tasks == Resolved(start, Elements(rows[..i]))
      modifies `tasks
      ensures tasks == Resolved(start, Elements(rows[..i + 1]))
      ensures |Promoted(start, Elements(rows[..i + 1]))| == |Promoted(start, Elements(rows[..i]))| + One(promoted)
    {
      SweepOneRow(start, rows, i);
      promoted := false;
      var t := rows[i];
      if HasFailedDependency(tasks, tasks[t].dependsOn) {
        // left BLOCKED for a human
      } else if DependenciesCompleted(tasks, tasks[t].dependsOn) {
        tasks := tasks[t := tasks[t].(status := Ready)];
        promoted := true;
      }
    }

    /** rows is what the locking query selects: waiting rows that no one else holds, in any order.
        Judging each row on the half-updated table gives the simultaneous update. */
    method ResolveTaskDependencies(rows: seq<nat>) returns (transitioned: nat)
      requires Selected(tasks, rows)
      modifies `tasks
      ensures Snapshot() == Step(old(Snapshot()), Resolve(Elements(rows)))
      ensures transitioned == |Promoted(old(tasks), Elements(rows))|
    {
      transitioned := 0;
      ghost var start := tasks;
      for i := 0 to |rows|
        invariant tasks == Resolved(start, Elements(rows[..i]))
        invariant transitioned == |Promoted(start, Elements(rows[..i]))|
      {
        var promoted := ResolveRow(start, rows, i);
        if promoted {
          transitioned := transitioned + 1;
        }
      }
      assert rows[..|rows|] == rows;
    }

    method ClaimTask(t: nat) returns (claimed: Option<Task>)
      modifies `tasks
      ensures Snapshot() == Step(old(Snapshot()), Claim(t))
      ensures claimed.Some? <==> Claimable(old(Snapshot()), t)
      ensures claimed.Some? ==> claimed.value == tasks[t]
    {
      claimed := None;
      if t < |tasks| && tasks[t].status == Ready && !tasks[t].deleted && ProjectAllowsPickup(projects, tasks[t]) {
        var task := tasks[t].(status := InProgress);
        if task.data.forcedPickup {
          task := task.(data := task.data.(forcedPickup := false));
        }
        tasks := tasks[t := task];
        claimed := Some(task);
      }
    }

    method UpdateTaskCompletion(t: nat, success: bool, subtype: Option<string>)
      modifies `tasks
      ensures Snapshot() == Step(old(Snapshot()), Complete(t, success, subtype))
    {
      if t >= |tasks| || tasks[t].status != InProgress {
        return;
      }
      var data := tasks[t].data;
      if success {
        data := data.(errorSubtype := None);
      } else if subtype.Some? && subtype.value in RESUMABLE_ERROR_SUBTYPES {
        data := data.(errorSubtype := subtype);
      } else {
        data := data.(errorSubtype := None);
      }
      tasks := tasks[t := tasks[t].(data := data)];
      tasks := tasks[t := tasks[t].(status := if success then Completed else Failed)];
    }

    /** rows is what the locking query selects: old IN_PROGRESS rows. */
    method RecoverStaleInProgressTasks(rows: seq<nat>) returns (recovered: nat)
      requires forall r :: r in rows ==> r < |tasks| && tasks[r].status == InProgress && !tasks[r].deleted
      modifies `tasks
      ensures Snapshot() == Step(old(Snapshot()), Recover(Elements(rows)))
      ensures recovered == |rows|
    {
      ghost var start := tasks;
      for i := 0 to |rows|
        invariant |tasks| == |start|
        invariant tasks == Recovered(start, Elements(rows[..i]))
      {
        assert rows[i] in rows && rows[..i + 1] == rows[..i] + [rows[i]];
        tasks := tasks[rows[i] := tasks[rows[i]].(status := Ready)];
      }
      assert rows[..|rows|] == rows;
      recovered := |rows|;
    }

    /** The update tools' merge of caller-supplied task_data. */
    method UpdateTaskData(t: nat, patch: DataPatch) returns (found: bool)
      modifies `tasks
      ensures Snapshot() == Step(old(Snapshot()), WriteData(t, patch))
      ensures found <==> t < |old(tasks)| && !old(tasks)[t].deleted
    {
      found := t < |tasks| && !tasks[t].deleted;
      if found {
        var data := tasks[t].data;
        if patch.forcedPickup.Some? {
          data := data.(forcedPickup := patch.forcedPickup.value);
        }
        if patch.resumeSession.Some? {
          data := data.(resumeSession := patch.resumeSession.value);
        }
        if patch.errorSubtype.Some? {
          data := data.(errorSubtype := patch.errorSubtype.value);
        }
        tasks := tasks[t := tasks[t].(data := data)];
      }
    }

    method ResumeTask(t: nat) returns (r: Result<string, ResumeError>)
      modifies `tasks
      ensures Snapshot() == Step(old(Snapshot()), Resume(t))
      ensures r.Ok? <==> Resumable(old(Snapshot()), t)
      ensures r.Ok? ==> var sessions := old(tasks)[t].sessions; r.value == sessions[|sessions| - 1]
      ensures r == Err(NotFound) <==> t >= |old(tasks)| || old(tasks)[t].deleted
      ensures var found := t < |old(tasks)| && !old(tasks)[t].deleted;
              && (r == Err(InvalidStatus) <==> found && old(tasks)[t].status != Failed)
              && (r == Err(NotResumable) <==>
                  found && old(tasks)[t].status == Failed && !HasResumableError(old(tasks)[t]))
              && (r == Err(NoSession) <==> found && old(tasks)[t].status == Failed
                                           && HasResumableError(old(tasks)[t]) && old(tasks)[t].sessions == [])
    {
      if t >= |tasks| || tasks[t].deleted {
        return Err(NotFound);
      }
      if tasks[t].status != Failed {
        return Err(InvalidStatus);
      }
      var data := tasks[t].data;
      if data.errorSubtype.None? || data.errorSubtype.value !in RESUMABLE_ERROR_SUBTYPES {
        return Err(NotResumable);
      }
      var sessions := tasks[t].sessions;
      if sessions == [] {
        return Err(NoSession);
      }
      data := data.(resumeSession := true);
      tasks := tasks[t := tasks[t].(status := Ready, data := data)];
      r := Ok(sessions[|sessions| - 1]);
    }
  }
}
