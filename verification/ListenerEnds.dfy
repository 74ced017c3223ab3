/**
 When the loop behind `Listen` ends and when it goes on, told by what happened in the run so far: `stop` closed, the
 parent ended, a receive that failed, an offer that was rejected, a delivery that ended before its handler, or a
 completion that was not recorded.
 */
module ListenerEnds {
  import opened Outcomes
  import D = Deliveries
  import opened Listeners

  /** `Close` had begun before step `k`. */
  predicate StopClosedBy(acts: seq<Action>, k: nat)
    requires k <= |acts|
  {
    CloseStop in acts[..k]
  }

  predicate ParentEndedBy(acts: seq<Action>, k: nat)
    requires k <= |acts|
  {
    EndParent in acts[..k]
  }

  /** The steps in which `retryEvent` around `receive` returns or goes on trying. */
  predicate Fetches(a: Action) {
    a.CheckReceive? || a.ReceiveDelivery? || a.ReceiveNothing? || a == ReceiveFails(false)
  }

  /** An attempt that fails for good, or none because the receive was cancelled by then. */
  predicate Fails(acts: seq<Action>, i: nat)
    requires i < |acts|
  {
    || acts[i] == ReceiveFails(false)
    || (acts[i].CheckReceive? && (StopClosedBy(acts, i) || ParentEndedBy(acts, i)))
  }

  /** The last receive before step `k` failed. */
  ghost predicate FetchFailed(acts: seq<Action>, k: nat)
    requires k <= |acts|
  {
    exists i: nat :: i < k && Fails(acts, i) && forall m: nat :: i < m < k ==> !Fetches(acts[m])
  }

  /** Why step `k` of a run ends the loop. */
  ghost predicate EndsAt(states: seq<Listener>, acts: seq<Action>, k: nat)
    requires IsRun(states, acts) && k < |acts|
  {
    match acts[k]
    case Look => StopClosedBy(acts, k) || ParentEndedBy(acts, k)
    case Dispatch => FetchFailed(acts, k)
    case IdleEnds => ParentEndedBy(acts, k)
    case Reject => true
    case HandlerCutOff => states[k].work.delivery.context.Some?
    case CompletionReturns =>
      && CompletionAnswered(states[k].work)
      && states[k].work.delivery.calls[0].stage.answer != D.Stored(D.Completed)
    case _ => false
  }

  // ----- What the control knows of the past -----

  predicate InReceive(phase: Phase) {
    phase.Locking? || phase.Storing? || Receiving(phase)
  }

  /** The control against the steps so far. */
  ghost predicate Remembers(c: Control, acts: seq<Action>, k: nat)
    requires k <= |acts|
  {
    && (Stopped(c) <==> StopClosedBy(acts, k))
    && (c.parentEnded <==> ParentEndedBy(acts, k))
    && (InReceive(c.phase) && c.receiveCancelled ==> Stopped(c))
    && (c.phase.Returned? || c.phase.Cleared? ==> (c.phase.fetch.Broken? <==> FetchFailed(acts, k)))
  }

  lemma OneMore(acts: seq<Action>, k: nat)
    requires k < |acts|
    ensures StopClosedBy(acts, k + 1) <==> StopClosedBy(acts, k) || acts[k].CloseStop?
    ensures ParentEndedBy(acts, k + 1) <==> ParentEndedBy(acts, k) || acts[k].EndParent?
    ensures !Fetches(acts[k]) ==> (FetchFailed(acts, k + 1) <==> FetchFailed(acts, k))
    ensures Fetches(acts[k]) ==> (FetchFailed(acts, k + 1) <==> Fails(acts, k))
  {
    assert acts[..k + 1] == acts[..k] + [acts[k]];
    if Fetches(acts[k]) {
      assert Fails(acts, k) ==> FetchFailed(acts, k + 1);
    } else if i: nat :| i < k && Fails(acts, i) && forall m: nat :: i < m < k ==> !Fetches(acts[m]) {
      assert forall m: nat :: i < m < k + 1 ==> !Fetches(acts[m]);
    }
  }

  lemma RemembersStep(l: Listener, acts: seq<Action>, k: nat)
    requires k < |acts| && Remembers(l.control, acts, k) && Enabled(l, acts[k])
    ensures Remembers(ApplyControl(l, acts[k]), acts, k + 1)
  {
    OneMore(acts, k);
    hide StopClosedBy, ParentEndedBy, FetchFailed, D.Enabled;
    if Fetches(acts[k]) {
      FetchRemembered(l, acts, k);
    } else {
      hide Fails, CompletionAnswered;
    }
  }

  lemma FetchRemembered(l: Listener, acts: seq<Action>, k: nat)
    requires k < |acts| && Remembers(l.control, acts, k) && Enabled(l, acts[k]) && Fetches(acts[k])
    ensures Remembers(ApplyControl(l, acts[k]), acts, k + 1)
  {
    OneMore(acts, k);
    hide StopClosedBy, ParentEndedBy, FetchFailed, D.Enabled, CompletionAnswered;
  }

  lemma {:induction false} RunRemembers(states: seq<Listener>, acts: seq<Action>, k: nat)
    requires IsRun(states, acts) && k <= |acts|
    ensures Remembers(states[k].control, acts, k)
  {
    if k > 0 {
      RunRemembers(states, acts, k - 1);
      hide Remembers, ApplyControl, ApplyWork, Enabled;
      RemembersStep(states[k - 1], acts, k - 1);
    }
  }

  // ----- The loop -----

  /** The same, told by what the control knows. */
  predicate EndsNow(l: Listener, a: Action) {
    match a
    case Look => Stopped(l.control) || l.control.parentEnded
    case Dispatch => l.control.phase.Cleared? && l.control.phase.fetch.Broken?
    case IdleEnds => l.control.parentEnded
    case Reject => true
    case HandlerCutOff => l.work.delivery.context.Some?
    case CompletionReturns =>
      CompletionAnswered(l.work) && l.work.delivery.calls[0].stage.answer != D.Stored(D.Completed)
    case _ => false
  }

  lemma ControlEnds(l: Listener, a: Action)
    requires Enabled(l, a) && !l.control.phase.Ended?
    ensures ApplyControl(l, a).phase.Ended? <==> EndsNow(l, a)
  {
    hide D.Enabled, Stopped;
  }

  /** Every way the loop ends, and no other: a step ends it exactly for one of these causes. */
  lemma LoopEndsExactly(states: seq<Listener>, acts: seq<Action>, k: nat)
    requires IsRun(states, acts) && k < |acts| && !states[k].control.phase.Ended?
    ensures states[k + 1].control.phase.Ended? <==> EndsAt(states, acts, k)
  {
    RunRemembers(states, acts, k);
    ControlEnds(states[k], acts[k]);
    if acts[k].Dispatch? {
      EnabledDispatch(states[k], acts[k]);
    }
    hide StopClosedBy, ParentEndedBy, FetchFailed, Enabled, ApplyWork, ApplyControl, Stopped, CompletionAnswered;
  }

  lemma EnabledDispatch(l: Listener, a: Action)
    requires Enabled(l, a) && a.Dispatch?
    ensures l.control.phase.Cleared?
  {
  }

  /** A listener that has ended was ended by one step with its cause. */
  lemma {:induction false} EndHasACause(states: seq<Listener>, acts: seq<Action>, k: nat) returns (j: nat)
    requires IsRun(states, acts) && k < |states| && states[k].control.phase.Ended?
    ensures j < k && EndsAt(states, acts, j) && !states[j].control.phase.Ended?
  {
    hide ApplyControl, ApplyWork, Enabled, EndsAt;
    if states[k - 1].control.phase.Ended? {
      j := EndHasACause(states, acts, k - 1);
    } else {
      j := k - 1;
      LoopEndsExactly(states, acts, j);
    }
  }

  /** What ends the loop sooner or later. */
  predicate Cause(l: Listener, a: Action) {
    || a.CloseStop? || a.EndParent? || a == ReceiveFails(false) || a.Reject? || a.HandlerCutOff?
    || (&& a.CompletionReturns? && CompletionAnswered(l.work)
        && l.work.delivery.calls[0].stage.answer != D.Stored(D.Completed))
  }

  lemma EndsByCause(states: seq<Listener>, acts: seq<Action>, k: nat) returns (j: nat)
    requires IsRun(states, acts) && k < |acts| && EndsAt(states, acts, k)
    ensures j <= k && Cause(states[j], acts[j])
  {
    hide ApplyControl, ApplyWork, Enabled;
    if acts[k].Look? || acts[k].IdleEnds? {
      j := Happened(acts, k);
    } else if acts[k].Dispatch? {
      var i: nat :| i < k && Fails(acts, i);
      j := i;
      if acts[i].CheckReceive? {
        j := Happened(acts, i);
      }
    } else {
      j := k;
    }
  }

  lemma Happened(acts: seq<Action>, k: nat) returns (j: nat)
    requires k <= |acts| && (StopClosedBy(acts, k) || ParentEndedBy(acts, k))
    ensures j < k && (acts[j].CloseStop? || acts[j].EndParent?)
  {
    var before := acts[..k];
    j :| j < k && (before[j].CloseStop? || before[j].EndParent?);
  }

  /** While none of these has happened, the listener goes on, however many events it has handled. */
  lemma GoesOn(states: seq<Listener>, acts: seq<Action>, k: nat)
    requires IsRun(states, acts) && k < |states|
    requires forall j :: 0 <= j < k ==> !Cause(states[j], acts[j])
    ensures !states[k].control.phase.Ended?
  {
    hide ApplyControl, ApplyWork, Enabled, EndsAt, Cause;
    if states[k].control.phase.Ended? {
      var i := EndHasACause(states, acts, k);
      i := EndsByCause(states, acts, i);
    }
  }

  /** After an event was handled and its completion recorded, the loop is at its top again. */
  lemma NextRound(states: seq<Listener>, acts: seq<Action>, k: nat)
    requires IsRun(states, acts) && k < |acts| && acts[k].CompletionReturns? && CompletionAnswered(states[k].work)
    requires states[k].work.delivery.calls[0].stage.answer == D.Stored(D.Completed)
    ensures states[k + 1].control.phase.Top?
  {
  }

  /** From the top of its loop a listener that nobody closes puts a receive in flight in five steps of its own. */
  lemma ReceivesAgain(l: Listener) returns (next: Listener)
    requires l.control.phase.Top? && l.control.closer.NotBegun? && !l.control.parentEnded
    ensures next.control.phase.InFlight? && next.work == l.work
    ensures var path := [Look, TakeLock, ExamineStop, Unlock, CheckReceive];
            exists states: seq<Listener> ::
              && |states| == 6 && states[0] == l && states[5] == next
              && forall i :: 0 <= i < 5 ==> Enabled(states[i], path[i]) && states[i + 1] == Apply(states[i], path[i])
  {
    var looked := Apply(l, Look);
    var locked := Apply(looked, TakeLock);
    var examined := Apply(locked, ExamineStop);
    var unlocked := Apply(examined, Unlock);
    next := Apply(unlocked, CheckReceive);
    var states := [l, looked, locked, examined, unlocked, next];
    assert |states| == 6 && states[0] == l && states[5] == next;
  }
}
