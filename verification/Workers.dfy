/**
 * Whose claim a completion ends. A worker's completion names the task and not the claim, so that it takes
 * effect on whatever claim is in force.
 */
module Workers {
  import opened Common
  import opened Tasks

  /** Event k of the run is an effective claim of t. */
  ghost predicate ClaimedAt(s: State, es: seq<Event>, t: nat, k: nat)
    requires k < |es|
  {
    Counts(Claims, t, Run(s, es[..k]), es[k])
  }

  ghost predicate CompletedAt(s: State, es: seq<Event>, t: nat, k: nat)
    requires k < |es|
  {
    Counts(Completions, t, Run(s, es[..k]), es[k])
  }

  /** Event k ends the claim in force: a completion, or a stale recovery. */
  ghost predicate EndedAt(s: State, es: seq<Event>, t: nat, k: nat)
    requires k < |es|
  {
    CompletedAt(s, es, t, k) || Counts(Recoveries, t, Run(s, es[..k]), es[k])
  }

  ghost predicate RunningAt(s: State, es: seq<Event>, t: nat, k: nat)
    requires k <= |es| && t < |s.tasks|
  {
    Run(s, es[..k]).tasks[t].status == InProgress
  }

  lemma {:induction false} StepOfClaim(s: State, e: Event, t: nat)
    requires t < |s.tasks|
    ensures var was, now := s.tasks[t].status == InProgress, Step(s, e).tasks[t].status == InProgress;
            var claim, end := Counts(Claims, t, s, e), Counts(Completions, t, s, e) || Counts(Recoveries, t, s, e);
            && (claim ==> !was) && (end ==> was)
            && (now <==> claim || (was && !end))
  {}

  /** The task runs after event k iff the event claims it, or it ran before and the event does not end that. */
  lemma {:induction false} RunningAfter(s: State, es: seq<Event>, t: nat, k: nat)
    requires k < |es| && t < |s.tasks|
    ensures ClaimedAt(s, es, t, k) ==> !RunningAt(s, es, t, k)
    ensures EndedAt(s, es, t, k) ==> RunningAt(s, es, t, k)
    ensures RunningAt(s, es, t, k + 1) <==>
            ClaimedAt(s, es, t, k) || (RunningAt(s, es, t, k) && !EndedAt(s, es, t, k))
  {
    assert es[..k + 1][..k] == es[..k];
    StepOfClaim(Run(s, es[..k]), es[k], t);
  }

  lemma {:induction false} RunningLasts(s: State, es: seq<Event>, t: nat, a: nat, j: nat)
    requires a <= j <= |es| && t < |s.tasks| && RunningAt(s, es, t, a)
    requires forall k :: a <= k < j ==> !EndedAt(s, es, t, k)
    ensures RunningAt(s, es, t, j) && forall k :: a <= k < j ==> !ClaimedAt(s, es, t, k)
  {
    if a < j {
      RunningLasts(s, es, t, a, j - 1);
      RunningAfter(s, es, t, j - 1);
    }
  }

  lemma {:induction false} IdleLasts(s: State, es: seq<Event>, t: nat, a: nat, j: nat)
    requires a <= j <= |es| && t < |s.tasks| && !RunningAt(s, es, t, a)
    requires forall k :: a <= k < j ==> !ClaimedAt(s, es, t, k)
    ensures !RunningAt(s, es, t, j)
  {
    if a < j {
      IdleLasts(s, es, t, a, j - 1);
      RunningAfter(s, es, t, j - 1);
    }
  }

  /** Event j is an effective completion, and the claim it ends is the one that event i made. */
  ghost predicate EndsClaim(s: State, es: seq<Event>, t: nat, i: nat, j: nat)
    requires i < j < |es|
  {
    CompletedAt(s, es, t, j) && forall k :: i < k < j ==> !ClaimedAt(s, es, t, k)
  }

  /** A completion ends the claim that its worker made exactly when nothing has ended that claim in between,
      neither a stale recovery nor the completion of another worker. */
  lemma {:induction false} CompletionEndsOwnClaimExactly(s: State, es: seq<Event>, t: nat, i: nat, j: nat)
    requires i < j < |es| && t < |s.tasks| && ClaimedAt(s, es, t, i)
    requires es[j].Complete? && es[j].t == t
    ensures EndsClaim(s, es, t, i, j) <==> forall k :: i < k < j ==> !EndedAt(s, es, t, k)
  {
    RunningAfter(s, es, t, i);
    assert CompletedAt(s, es, t, j) <==> RunningAt(s, es, t, j);
    if forall k :: i < k < j ==> !EndedAt(s, es, t, k) {
      RunningLasts(s, es, t, i + 1, j);
    }
    if EndsClaim(s, es, t, i, j) {
      forall k | i < k < j ensures !EndedAt(s, es, t, k) {
        if EndedAt(s, es, t, k) {
          RunningAfter(s, es, t, k);
          IdleLasts(s, es, t, k + 1, j);
        }
      }
    }
  }

  lemma {:induction false} RunFour(s: State, a: Event, b: Event, c: Event, d: Event)
    ensures var es := [a, b, c, d];
            && Run(s, es[..0]) == s && Run(s, es[..1]) == Step(s, a) && Run(s, es[..2]) == Step(Step(s, a), b)
            && Run(s, es[..3]) == Step(Step(Step(s, a), b), c) && Run(s, es) == Step(Step(Step(Step(s, a), b), c), d)
  {
    var es := [a, b, c, d];
    assert es[..1][..0] == es[..0] && es[..2][..1] == es[..1] && es[..3][..2] == es[..2];
    assert es[..0] == [];
  }

  /** The status guard does not stop a worker whose task was recovered and claimed again: its completion ends
      the other worker's claim. */
  lemma {:induction false} RecoveredWorkerStillCompletes(s: State, t: nat)
    requires Claimable(s, t) && s.projects[s.tasks[t].project].status == Active
    ensures var es := [Claim(t), Recover({t}), Claim(t), Complete(t, true, None)];
            && ClaimedAt(s, es, t, 0) && ClaimedAt(s, es, t, 2) && Run(s, es).tasks[t].status == Completed
            && !EndsClaim(s, es, t, 0, 3) && EndsClaim(s, es, t, 2, 3)
  {
    var a, b, d := Claim(t), Recover({t}), Complete(t, true, None);
    var es := [a, b, a, d];
    RunFour(s, a, b, a, d);
    var s1 := Step(s, a);
    var s2 := Step(s1, b);
    assert s1.tasks[t].status == InProgress && s2.tasks[t].status == Ready && Claimable(s2, t);
    assert ClaimedAt(s, es, t, 2);
  }
}
