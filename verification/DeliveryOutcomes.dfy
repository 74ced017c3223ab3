/** Why the context of a delivery ended, and where the result of its completion came from, told by the steps of a run.
    */
module DeliveryOutcomes {
  import opened Outcomes
  import opened Deliveries

  // ----- The cause of the context -----

  /** Step `a` ends a context for this cause. */
  predicate EndsFor(a: Action, cause: Cause) {
    match cause
    case LeaseExpired => a.ExpireLease?
    case Canceled => a.Cancel?
    case ParentEnded => a.EndParent?
  }

  lemma ContextStep(d: Delivery, a: Action)
    requires Enabled(d, a)
    ensures d.context.Some? ==> Apply(d, a).context == d.context
    ensures d.context.None? && Apply(d, a).context.Some? ==> EndsFor(a, Apply(d, a).context.value)
    ensures d.context.None? && (a.ExpireLease? || a.Cancel? || a.EndParent?) ==> Apply(d, a).context.Some?
  {
  }

  /** The cause of an ended context is that of the first step that ended it: the lease, a completed call, or the
      parent. */
  lemma {:induction false} CauseIsTheFirst(states: seq<Delivery>, acts: seq<Action>, k: nat) returns (j: nat)
    requires IsRun(states, acts) && k < |states| && states[k].context.Some?
    ensures j < k && EndsFor(acts[j], states[k].context.value)
    ensures forall i :: 0 <= i < j ==> !acts[i].ExpireLease? && !acts[i].Cancel? && !acts[i].EndParent?
  {
    hide Apply, Enabled;
    assert k > 0 by { assert states[0] == FRESH; }
    ContextStep(states[k - 1], acts[k - 1]);
    if states[k - 1].context.Some? {
      j := CauseIsTheFirst(states, acts, k - 1);
    } else {
      j := k - 1;
      NothingEnded(states, acts, k - 1);
    }
  }

  lemma {:induction false} NothingEnded(states: seq<Delivery>, acts: seq<Action>, k: nat)
    requires IsRun(states, acts) && k < |states| && states[k].context.None?
    ensures forall i :: 0 <= i < k ==> !acts[i].ExpireLease? && !acts[i].Cancel? && !acts[i].EndParent?
  {
    hide Apply, Enabled;
    if k > 0 {
      ContextStep(states[k - 1], acts[k - 1]);
      NothingEnded(states, acts, k - 1);
    }
  }

  // ----- The result of the completion -----

  /** One of the first `k` steps gave call `i` this result. */
  ghost predicate Given(acts: seq<Action>, k: nat, i: nat, r: Receipt)
    requires k <= |acts|
  {
    exists j :: 0 <= j < k && acts[j] == match r case Completed => Receive(i) case Failed(code) => GiveUp(i, code)
  }

  /** The result a call carries from its exchange to its return. */
  function Carried(stage: Stage): Option<Receipt> {
    match stage
    case Finishing(receipt) => Some(receipt)
    case Signalling(receipt) => Some(receipt)
    case Cancelling(receipt) => Some(receipt)
    case Releasing(receipt) => Some(receipt)
    case _ => None
  }

  ghost predicate AllGiven(d: Delivery, acts: seq<Action>, k: nat)
    requires k <= |acts|
  {
    && (forall i: nat :: i in d.calls && Carried(d.calls[i].stage).Some? ==>
          Given(acts, k, i, Carried(d.calls[i].stage).value))
    && (d.err.Some? ==> Given(acts, k, d.owner, d.err.value))
  }

  lemma GivenStays(acts: seq<Action>, k: nat, i: nat, r: Receipt)
    requires k < |acts|
    ensures Given(acts, k, i, r) ==> Given(acts, k + 1, i, r)
    ensures acts[k] == Receive(i) ==> Given(acts, k + 1, i, Completed)
    ensures forall code :: acts[k] == GiveUp(i, code) ==> Given(acts, k + 1, i, Failed(code))
  {
  }

  /** What a call carries after a step it carried before, or the step gave it. */
  lemma CarriedStep(d: Delivery, a: Action, i: nat)
    requires Enabled(d, a) && i in Apply(d, a).calls && Carried(Apply(d, a).calls[i].stage).Some?
    ensures var r := Carried(Apply(d, a).calls[i].stage).value;
            || (i in d.calls && Carried(d.calls[i].stage) == Some(r))
            || (a == Receive(i) && r == Completed)
            || (a.GiveUp? && a.call == i && r == Failed(a.code))
  {
  }

  lemma ErrStep(d: Delivery, a: Action)
    requires Inv(d) && Enabled(d, a) && Apply(d, a).err.Some?
    ensures if d.err.Some? then Apply(d, a).err == d.err && Apply(d, a).owner == d.owner
            else a == Store(d.owner) && d.owner in d.calls && Carried(d.calls[d.owner].stage) == Apply(d, a).err
                 && Apply(d, a).owner == d.owner
  {
    StepGrows(d, a);
    if a.Store? {
      assert CallAgrees(d, a.call, d.calls[a.call]);
    }
  }

  lemma {:induction false} RunGives(states: seq<Delivery>, acts: seq<Action>, k: nat)
    requires IsRun(states, acts) && k <= |acts|
    ensures AllGiven(states[k], acts, k)
  {
    hide Apply, Enabled, Inv, Given, Carried;
    if k == 0 {
      assert states[0] == FRESH;
    } else {
      var d, a := states[k - 1], acts[k - 1];
      RunGives(states, acts, k - 1);
      RunInv(states, acts, k - 1);
      forall i: nat, r ensures Given(acts, k - 1, i, r) ==> Given(acts, k, i, r) {
        GivenStays(acts, k - 1, i, r);
      }
      forall i: nat | i in states[k].calls && Carried(states[k].calls[i].stage).Some?
        ensures Given(acts, k, i, Carried(states[k].calls[i].stage).value) {
        CarriedStep(d, a, i);
        GivenStays(acts, k - 1, i, Completed);
      }
      if states[k].err.Some? {
        ErrStep(d, a);
      }
    }
  }

  /** The stored result is what the exchange of the choosing call came to: the receipt it received, or the error it gave
      up with. */
  lemma ResultIsTheOutcome(states: seq<Delivery>, acts: seq<Action>, k: nat)
    requires IsRun(states, acts) && k <= |acts| && states[k].err.Some?
    ensures exists j :: 0 <= j < k && acts[j] == match states[k].err.value
                                                 case Completed => Receive(states[k].owner)
                                                 case Failed(code) => GiveUp(states[k].owner, code)
  {
    RunGives(states, acts, k);
    hide Apply, Enabled;
  }
}
