/**
 * When a task can be claimed, and what a soft deletion leaves of it: the forced_pickup flag told by its writes,
 * and the steps that still touch a deleted row.
 */
module Pickup {
  import opened Common
  import opened Tasks

  /** What a step writes to the forced_pickup flag of t: a claim uses it up, the manual trigger sets it on a READY
      task of a PAUSED project, and the update tools merge what they are sent. */
  function FlagWrite(s: State, e: Event, t: nat): Option<bool> {
    if t >= |s.tasks| then None
    else
      var task := s.tasks[t];
      match e
      case Claim(u) => if u == t && MayStart(s, t, task.data.forcedPickup) then Some(false) else None
      case ForcePickup(u) =>
        if u == t && task.status == Ready && task.project < |s.projects| && s.projects[task.project].status == Paused
        then Some(true) else None
      case WriteData(u, patch) => if u == t && !task.deleted then patch.forcedPickup else None
      case _ => None
  }

  /** The rule for claims: READY, not deleted, in a project that is not deleted and is ACTIVE, or PAUSED when the
      pickup is forced. */
  predicate MayStart(s: State, t: nat, forced: bool) {
    && t < |s.tasks| && s.tasks[t].status == Ready && !s.tasks[t].deleted
    && s.tasks[t].project < |s.projects|
    && var project := s.projects[s.tasks[t].project];
       !project.deleted && (project.status == Active || (project.status == Paused && forced))
  }

  function FlagWrites(s: State, es: seq<Event>, t: nat): seq<Option<bool>> {
    if es == [] then []
    else
      var before := es[..|es| - 1];
      FlagWrites(s, before, t) + [FlagWrite(Run(s, before), es[|es| - 1], t)]
  }

  lemma {:induction false} StepWritesFlag(s: State, e: Event, t: nat)
    requires t < |s.tasks|
    ensures var w := FlagWrite(s, e, t);
            Step(s, e).tasks[t].data.forcedPickup == if w.Some? then w.value else s.tasks[t].data.forcedPickup
  {}

  lemma {:induction false} FlagIsLastWrite(s: State, es: seq<Event>, t: nat)
    requires t < |s.tasks|
    ensures Run(s, es).tasks[t].data.forcedPickup == LastWrite(FlagWrites(s, es, t), s.tasks[t].data.forcedPickup)
  {
    if es != [] {
      var before, e := es[..|es| - 1], es[|es| - 1];
      FlagIsLastWrite(s, before, t);
      StepWritesFlag(Run(s, before), e, t);
      LastWriteSnoc(FlagWrites(s, before, t), FlagWrite(Run(s, before), e, t), s.tasks[t].data.forcedPickup);
    }
  }

  /** After any run a claim starts the task exactly when the rule allows it, the pickup being forced exactly when
      the last write of forced_pickup, a claim's clearing included, turned it on; and it uses the flag up. */
  lemma {:induction false} ClaimStartsExactly(s: State, es: seq<Event>, t: nat)
    requires t < |s.tasks|
    ensures var now, forced := Run(s, es), LastWrite(FlagWrites(s, es, t), s.tasks[t].data.forcedPickup);
            var next := Step(now, Claim(t));
            && (MayStart(now, t, forced) ==>
                  next.tasks[t] == now.tasks[t].(status := InProgress,
                                                 data := now.tasks[t].data.(forcedPickup := false)))
            && (!MayStart(now, t, forced) ==> next == now)
  {
    FlagIsLastWrite(s, es, t);
  }

  lemma {:induction false} RunTwo(s: State, a: Event, b: Event)
    ensures Run(s, [a]) == Step(s, a) && Run(s, [a, b]) == Step(Step(s, a), b)
  {
    assert [a, b][..1] == [a] && [a][..0] == [];
    assert Run(s, [a]) == Step(Run(s, []), a);
  }

  /** The manual trigger works: a READY task of a PAUSED project is started by the next claim, and only once for
      each trigger. */
  lemma {:induction false} ForcedPickupIsClaimed(s: State, t: nat)
    requires t < |s.tasks| && s.tasks[t].status == Ready && !s.tasks[t].deleted && s.tasks[t].project < |s.projects|
    requires var project := s.projects[s.tasks[t].project]; project.status == Paused && !project.deleted
    ensures var s' := Run(s, [ForcePickup(t), Claim(t)]);
            && s'.tasks[t].status == InProgress && !s'.tasks[t].data.forcedPickup
            && Step(Step(s', Recover({t})), Claim(t)).tasks[t].status == Ready
    ensures !s.tasks[t].data.forcedPickup ==> Run(s, [Claim(t)]) == s
  {
    RunTwo(s, ForcePickup(t), Claim(t));
    RunTwo(s, Claim(t), Claim(t));
  }

  // ---------------------------------------------------------------- deleted tasks

  /** The one step that still changes the status of a deleted task is the completion of a running execution. */
  predicate EndsDeleted(s: State, e: Event, t: nat) {
    t < |s.tasks| && e.Complete? && e.t == t && s.tasks[t].status == InProgress
  }

  lemma {:induction false} DeletedStep(s: State, e: Event, t: nat)
    requires t < |s.tasks| && s.tasks[t].deleted
    ensures var s' := Step(s, e);
            && s'.tasks[t].deleted
            && s'.tasks[t].status == (if !EndsDeleted(s, e, t) then s.tasks[t].status
                                      else if e.success then Completed else Failed)
  {}

  /** A deleted task is never promoted, claimed, recovered or resumed: its status changes at most once, and
      exactly when an execution that was running when it was deleted completes. */
  lemma {:induction false} DeletedTaskMovesExactly(s: State, es: seq<Event>, t: nat)
    requires t < |s.tasks| && s.tasks[t].deleted
    ensures Run(s, es).tasks[t].deleted
    ensures var status := Run(s, es).tasks[t].status;
            && (s.tasks[t].status != InProgress ==> status == s.tasks[t].status)
            && (s.tasks[t].status == InProgress ==>
                  status in {InProgress, Completed, Failed}
                  && (status == InProgress <==> forall i :: 0 <= i < |es| ==> !(es[i].Complete? && es[i].t == t)))
  {
    if es != [] {
      var before, e := es[..|es| - 1], es[|es| - 1];
      DeletedTaskMovesExactly(s, before, t);
      DeletedStep(Run(s, before), e, t);
      assert es == before + [e];
      assert forall i :: 0 <= i < |before| ==> es[i] == before[i];
    }
  }

  /** A task is deleted exactly once a soft deletion has come. */
  lemma {:induction false} DeletedExactly(s: State, es: seq<Event>, t: nat)
    requires t < |s.tasks|
    ensures Run(s, es).tasks[t].deleted <==>
            s.tasks[t].deleted || SoftDelete(t) in es
  {
    if es != [] {
      DeletedExactly(s, es[..|es| - 1], t);
      DeleteStep(Run(s, es[..|es| - 1]), es[|es| - 1], t);
      assert es == es[..|es| - 1] + [es[|es| - 1]];
    }
  }

  lemma {:induction false} DeleteStep(s: State, e: Event, t: nat)
    requires t < |s.tasks|
    ensures Step(s, e).tasks[t].deleted <==> s.tasks[t].deleted || e == SoftDelete(t)
  {}

  /** The statuses a run sets for project p. */
  function StatusWrites(es: seq<Event>, p: nat): seq<Option<ProjectStatus>> {
    if es == [] then []
    else
      var e := es[|es| - 1];
      StatusWrites(es[..|es| - 1], p) + [if e.SetProject? && e.p == p then Some(e.status) else None]
  }

  /** A project's status is the last one set, and no step of a task changes it: so whether a task may be claimed
      after any run depends on its own row, on that status and on the last write of its flag. */
  lemma {:induction false} ProjectStatusIsLastSet(s: State, es: seq<Event>, p: nat)
    requires p < |s.projects|
    ensures |Run(s, es).projects| == |s.projects|
    ensures Run(s, es).projects[p]
         == s.projects[p].(status := LastWrite(StatusWrites(es, p), s.projects[p].status))
  {
    if es != [] {
      var before, e := es[..|es| - 1], es[|es| - 1];
      ProjectStatusIsLastSet(s, before, p);
      LastWriteSnoc(StatusWrites(before, p), if e.SetProject? && e.p == p then Some(e.status) else None,
                    s.projects[p].status);
    }
  }
}
