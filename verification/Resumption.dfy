/**
 * When a failed task can be resumed: what the completions, the executor's clearing of the resume flags and
 * the callers' merges leave in its error_subtype.
 */
module Resumption {
  import opened Common
  import opened Tasks
  import opened Workers

  predicate IsResumable(subtype: Option<string>) {
    subtype == Some("error_max_turns")
  }

  /** What a step writes to the error_subtype of t, if it writes it. */
  function Written(s: State, e: Event, t: nat): Option<Option<string>> {
    if t >= |s.tasks| then None
    else
      match e
      case Complete(u, success, x) =>
        if u == t && s.tasks[t].status == InProgress then Some(if !success && IsResumable(x) then x else None)
        else None
      case ClearResume(u) => if u == t then Some(None) else None
      case WriteData(u, patch) => if u == t && !s.tasks[t].deleted then patch.errorSubtype else None
      case _ => None
  }

  lemma {:induction false} StepWrites(s: State, e: Event, t: nat)
    requires t < |s.tasks|
    ensures var w := Written(s, e, t);
            Step(s, e).tasks[t].data.errorSubtype == if w.Some? then w.value else s.tasks[t].data.errorSubtype
  {}

  /** What each step of a run writes to the error_subtype of t. */
  function Writes(s: State, es: seq<Event>, t: nat): (ws: seq<Option<Option<string>>>)
    ensures |ws| == |es|
  {
    if es == [] then []
    else
      var before := es[..|es| - 1];
      Writes(s, before, t) + [Written(Run(s, before), es[|es| - 1], t)]
  }

  /** Write i is the last one, and it is resumable. */
  ghost predicate LastAt(ws: seq<Option<Option<string>>>, i: nat) {
    i < |ws| && ws[i].Some? && IsResumable(ws[i].value) && forall j :: i < j < |ws| ==> ws[j].None?
  }

  ghost predicate LastWriteResumable(ws: seq<Option<Option<string>>>) {
    exists i :: LastAt(ws, i)
  }

  ghost predicate NoWrite(ws: seq<Option<Option<string>>>) {
    forall j :: 0 <= j < |ws| ==> ws[j].None?
  }

  lemma {:induction false} LastWriteStep(ws: seq<Option<Option<string>>>, w: Option<Option<string>>,
                                         more: seq<Option<Option<string>>>)
    requires more == ws + [w]
    ensures LastWriteResumable(more) <==> if w.Some? then IsResumable(w.value) else LastWriteResumable(ws)
    ensures NoWrite(more) <==> NoWrite(ws) && w.None?
  {
    assert forall j :: 0 <= j < |ws| ==> ws[j] == more[j];
    if i: nat :| LastAt(ws, i) && w.None? {
      assert LastAt(more, i);
    }
    if i: nat :| LastAt(more, i) && w.None? {
      assert LastAt(ws, i);
    }
    if w.Some? && IsResumable(w.value) {
      assert LastAt(more, |ws|);
    }
    assert more[|ws|] == w;
  }

  lemma {:induction false} SubtypeIsLastWrite(s: State, es: seq<Event>, t: nat)
    requires t < |s.tasks|
    ensures IsResumable(Run(s, es).tasks[t].data.errorSubtype) <==>
            || LastWriteResumable(Writes(s, es, t))
            || (IsResumable(s.tasks[t].data.errorSubtype) && NoWrite(Writes(s, es, t)))
  {
    if es != [] {
      var before, e := es[..|es| - 1], es[|es| - 1];
      SubtypeIsLastWrite(s, before, t);
      StepWrites(Run(s, before), e, t);
      LastWriteStep(Writes(s, before, t), Written(Run(s, before), e, t), Writes(s, es, t));
    }
  }

  /** Over every run: a task can be resumed at the end exactly when it is FAILED, not deleted and has a session,
      and the last write of its error_subtype wrote a resumable one: an effective failing completion, or a
      caller's merge, with no later completion, no clearing by execute_task and no merge over it. */
  lemma {:induction false} ResumableExactly(s: State, es: seq<Event>, t: nat)
    requires t < |s.tasks| && !IsResumable(s.tasks[t].data.errorSubtype)
    ensures Resumable(Run(s, es), t) <==>
            && Run(s, es).tasks[t].status == Failed && !Run(s, es).tasks[t].deleted
            && Run(s, es).tasks[t].sessions != [] && LastWriteResumable(Writes(s, es, t))
  {
    SubtypeIsLastWrite(s, es, t);
  }

  /** After a resumed task is claimed and fails again, it can at that moment be resumed exactly when the
      failure reported a resumable subtype: a setup failure, which reports none, loses the session. */
  lemma {:induction false} ResumabilityAfterFailure(s: State, t: nat, subtype: Option<string>)
    requires Resumable(s, t) && ProjectAllowsPickup(s.projects, s.tasks[t])
    ensures var s' := Run(s, [Resume(t), Claim(t), Complete(t, false, subtype)]);
            Resumable(s', t) <==> IsResumable(subtype)
  {
    var a, b, c := Resume(t), Claim(t), Complete(t, false, subtype);
    RunFour(s, a, b, c, ClearResume(t));
    assert [a, b, c] == [a, b, c, ClearResume(t)][..3];
    assert Claimable(Step(s, a), t);
  }

  /** And even a failure that reports a resumable subtype is lost when execute_task clears the resume flags
      after the session has failed. */
  lemma {:induction false} LateClearLosesResumability(s: State, t: nat)
    requires Resumable(s, t) && ProjectAllowsPickup(s.projects, s.tasks[t])
    ensures var es := [Resume(t), Claim(t), Complete(t, false, Some("error_max_turns")), ClearResume(t)];
            && Resumable(Run(s, es[..3]), t)
            && Run(s, es).tasks[t].status == Failed && !Resumable(Run(s, es), t)
  {
    var a, b, c, d := Resume(t), Claim(t), Complete(t, false, Some("error_max_turns")), ClearResume(t);
    RunFour(s, a, b, c, d);
    assert Claimable(Step(s, a), t);
  }

  // ---------------------------------------------------------------- which session is resumed

  /** What a step writes to the resume_session flag of t. */
  function FlagWrite(s: State, e: Event, t: nat): Option<bool> {
    if t >= |s.tasks| then None
    else
      match e
      case Resume(u) => if u == t && Resumable(s, t) then Some(true) else None
      case ClearResume(u) => if u == t then Some(false) else None
      case WriteData(u, patch) => if u == t && !s.tasks[t].deleted then patch.resumeSession else None
      case _ => None
  }

  function FlagWrites(s: State, es: seq<Event>, t: nat): seq<Option<bool>> {
    if es == [] then []
    else
      var before := es[..|es| - 1];
      FlagWrites(s, before, t) + [FlagWrite(Run(s, before), es[|es| - 1], t)]
  }

  /** The sessions that a run assigns to t, oldest first. */
  function Assigned(es: seq<Event>, t: nat): seq<string> {
    if es == [] then []
    else
      var e := es[|es| - 1];
      Assigned(es[..|es| - 1], t) + (if e.AddSession? && e.t == t then [e.session] else [])
  }

  lemma {:induction false} StepAssigns(s: State, e: Event, t: nat)
    requires t < |s.tasks|
    ensures var w, task := FlagWrite(s, e, t), Step(s, e).tasks[t];
            && task.data.resumeSession == (if w.Some? then w.value else s.tasks[t].data.resumeSession)
            && task.sessions == s.tasks[t].sessions + (if e.AddSession? && e.t == t then [e.session] else [])
  {}

  /** Over every run: the flag is its last write, and a task's sessions are those assigned to it, in order; so what
      a resumption continues is the session assigned last. */
  lemma {:induction false} ResumesLastAssigned(s: State, es: seq<Event>, t: nat)
    requires t < |s.tasks|
    ensures var task := Run(s, es).tasks[t];
            && task.data.resumeSession == LastWrite(FlagWrites(s, es, t), s.tasks[t].data.resumeSession)
            && task.sessions == s.tasks[t].sessions + Assigned(es, t)
  {
    if es != [] {
      var before, e := es[..|es| - 1], es[|es| - 1];
      ResumesLastAssigned(s, before, t);
      StepAssigns(Run(s, before), e, t);
      LastWriteSnoc(FlagWrites(s, before, t), FlagWrite(Run(s, before), e, t), s.tasks[t].data.resumeSession);
    }
  }
}
