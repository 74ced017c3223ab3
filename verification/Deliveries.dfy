/**
 One leased delivery (`PendingEvent`): a lease timer, a cancellable context, any number of
 racing `Ack` and `Retry` calls, and a release that runs when the context ends or the chosen
 call finishes. One action per lock region, channel operation, timer event or network event.
 */
module Deliveries {
  import opened Outcomes

  /** Why the delivery's context ended; the first cause stays. */
  datatype Cause = LeaseExpired | Canceled | ParentEnded

  /** `Firing`: the timer's function was started but has not cancelled the context yet. */
  datatype Timer = Armed | Firing | Fired | Stopped

  /** What the one completion came to: a receipt, or the error `retryEvent` gave up with. */
  datatype Receipt = Completed | Failed(code: nat)

  datatype Answer = Stored(receipt: Receipt) | Conflict | ContextEnded(cause: Cause)

  /** Where a call of `complete` stands. Only the call that recorded the choice goes past `Waiting`. */
  datatype Stage =
    | Entering
    | Waiting
    | Retrying
    | Attempting
    | Awaiting
    | Pausing
    | Finishing(receipt: Receipt)
    | Signalling(receipt: Receipt)
    | Cancelling(receipt: Receipt)
    | Releasing(receipt: Receipt)
    | Answered(answer: Answer)

  datatype Call = Call(accepted: bool, stage: Stage)

  /** The once-guarded release: not called, entered, connection closed, reservation released too. */
  datatype Release = Unfired | Entered | Disconnected | Finished

  /** `owner` names the call that recorded `chosen`; `bodies` lists the `accepted` field of
      every completion body written, in order. */
  datatype Delivery = Delivery(
    context: Option<Cause>,
    timer: Timer,
    chosen: Option<bool>,
    owner: nat,
    err: Option<Receipt>,
    done: bool,
    calls: map<nat, Call>,
    bodies: seq<bool>,
    release: Release
  )

  datatype Action =
    | Arrive(call: nat, accepted: bool)
    | Enter(call: nat)
    | Wake(call: nat)
    | Check(call: nat)
    | Send(call: nat)
    | Receive(call: nat)
    | Pause(call: nat)
    | Resume(call: nat)
    | GiveUp(call: nat, code: nat)
    | Store(call: nat)
    | Signal(call: nat)
    | Cancel(call: nat)
    | Return(call: nat)
    | StartTimer
    | ExpireLease
    | StopTimer
    | EndParent
    | BeginRelease
    | CloseConnection
    | FinishRelease

  const FRESH := Delivery(None, Armed, None, 0, None, false, map[], [], Unfired)

  predicate At(d: Delivery, i: nat, stage: Stage) {
    i in d.calls && d.calls[i].stage == stage
  }

  predicate Enabled(d: Delivery, a: Action) {
    match a
    case Arrive(i, _) => i !in d.calls
    case Enter(i) => At(d, i, Entering)
    case Wake(i) => At(d, i, Waiting) && d.done && d.err.Some?
    case Check(i) => At(d, i, Retrying) && d.context.None?
    case Send(i) => At(d, i, Attempting)
    case Receive(i) => At(d, i, Awaiting)
    case Pause(i) => (At(d, i, Attempting) || At(d, i, Awaiting)) && d.context.None?
    case Resume(i) => At(d, i, Pausing)
    case GiveUp(i, _) => At(d, i, Retrying) || At(d, i, Attempting) || At(d, i, Awaiting) || At(d, i, Pausing)
    case Store(i) => i in d.calls && d.calls[i].stage.Finishing?
    case Signal(i) => i in d.calls && d.calls[i].stage.Signalling?
    case Cancel(i) => i in d.calls && d.calls[i].stage.Cancelling?
    case Return(i) => i in d.calls && d.calls[i].stage.Releasing? && d.release == Finished
    case StartTimer => d.timer == Armed
    case ExpireLease => d.timer == Firing
    case StopTimer => d.timer == Armed && d.context.Some?
    case EndParent => d.context.None?
    case BeginRelease => d.release == Unfired && d.context.Some?
    case CloseConnection => d.release == Entered
    case FinishRelease => d.release == Disconnected
  }

  function Move(d: Delivery, i: nat, stage: Stage): Delivery
    requires i in d.calls
  {
    d.(calls := d.calls[i := d.calls[i].(stage := stage)])
  }

  function End(context: Option<Cause>, cause: Cause): Option<Cause> {
    if context.None? then Some(cause) else context
  }

  /** The first lock region of `complete`, for a call that wants `accepted`. */
  function Decide(d: Delivery, i: nat): Delivery
    requires i in d.calls
  {
    var accepted := d.calls[i].accepted;
    if d.chosen.Some? then
      Move(d, i, if d.chosen.value == accepted then Waiting else Answered(Conflict))
    else if d.context.Some? then
      Move(d, i, Answered(ContextEnded(d.context.value)))
    else
      Move(d, i, Retrying).(chosen := Some(accepted), owner := i,
                            timer := if d.timer == Armed then Stopped else d.timer)
  }

  function Apply(d: Delivery, a: Action): Delivery
    requires Enabled(d, a)
  {
    match a
    case Arrive(i, accepted) => d.(calls := d.calls[i := Call(accepted, Entering)])
    case Enter(i) => Decide(d, i)
    case Wake(i) => Move(d, i, Answered(Stored(d.err.value)))
    case Check(i) => Move(d, i, Attempting)
    case Send(i) => Move(d, i, Awaiting).(bodies := d.bodies + [d.calls[i].accepted])
    case Receive(i) => Move(d, i, Finishing(Completed))
    case Pause(i) => Move(d, i, Pausing)
    case Resume(i) => Move(d, i, Retrying)
    case GiveUp(i, code) => Move(d, i, Finishing(Failed(code)))
    case Store(i) => Move(d, i, Signalling(d.calls[i].stage.receipt)).(err := Some(d.calls[i].stage.receipt))
    case Signal(i) => Move(d, i, Cancelling(d.calls[i].stage.receipt)).(done := true)
    case Cancel(i) => Move(d, i, Releasing(d.calls[i].stage.receipt)).(context := End(d.context, Canceled))
    case Return(i) => Move(d, i, Answered(Stored(d.calls[i].stage.receipt)))
    case StartTimer => d.(timer := Firing)
    case ExpireLease => d.(timer := Fired, context := End(d.context, LeaseExpired))
    case StopTimer => d.(timer := Stopped)
    case EndParent => d.(context := Some(ParentEnded))
    case BeginRelease => d.(release := Entered)
    case CloseConnection => d.(release := Disconnected)
    case FinishRelease => d.(release := Finished)
  }

  // ----- What holds in every state -----

  predicate Sending(stage: Stage) {
    stage.Retrying? || stage.Attempting? || stage.Awaiting? || stage.Pausing? || stage.Finishing?
  }

  /** The stages only the call that recorded the choice can be in, before it returns. */
  predicate Owning(stage: Stage) {
    Sending(stage) || stage.Signalling? || stage.Cancelling? || stage.Releasing?
  }

  /** One call against the record: what its stage says about the choice and the stored result. */
  predicate CallAgrees(d: Delivery, i: nat, c: Call) {
    match c.stage
    case Entering => true
    case Waiting => d.chosen == Some(c.accepted) && i != d.owner
    case Answered(Conflict) => d.chosen == Some(!c.accepted) && i != d.owner
    case Answered(ContextEnded(cause)) => d.context == Some(cause) && d.chosen.None?
    case Answered(Stored(receipt)) => d.chosen == Some(c.accepted) && d.done && d.err == Some(receipt)
    case stage =>
      && d.chosen == Some(c.accepted) && i == d.owner
      && (Sending(stage) ==> d.err.None? && !d.done)
      && (stage.Signalling? ==> d.err == Some(stage.receipt) && !d.done)
      && (stage.Cancelling? ==> d.err == Some(stage.receipt) && d.done)
      && (stage.Releasing? ==> d.err == Some(stage.receipt) && d.done && d.context.Some?)
  }

  ghost predicate CallsAgree(d: Delivery) {
    forall i: nat :: i in d.calls ==> CallAgrees(d, i, d.calls[i])
  }

  ghost predicate RecordAgrees(d: Delivery) {
    && (d.chosen.None? ==> d.bodies == [] && d.err.None? && !d.done)
    && (d.timer == Stopped ==> d.chosen.Some? || d.context.Some?)
    && (d.chosen.Some? ==> d.owner in d.calls && d.timer != Armed && d.calls[d.owner].accepted == d.chosen.value)
    && (d.chosen.Some? ==>
          Owning(d.calls[d.owner].stage) || (d.release == Finished && d.calls[d.owner].stage.Answered?))
    && (d.timer == Fired ==> d.context.Some?)
    && (d.release != Unfired ==> d.context.Some?)
    && forall k :: 0 <= k < |d.bodies| ==> d.chosen == Some(d.bodies[k])
  }

  ghost predicate Inv(d: Delivery) {
    CallsAgree(d) && RecordAgrees(d)
  }

  /** The call a step moves, if it moves one. */
  function Caller(a: Action): Option<nat> {
    match a
    case Arrive(i, _) => Some(i)
    case Enter(i) => Some(i)
    case Wake(i) => Some(i)
    case Check(i) => Some(i)
    case Send(i) => Some(i)
    case Receive(i) => Some(i)
    case Pause(i) => Some(i)
    case Resume(i) => Some(i)
    case GiveUp(i, _) => Some(i)
    case Store(i) => Some(i)
    case Signal(i) => Some(i)
    case Cancel(i) => Some(i)
    case Return(i) => Some(i)
    case _ => None
  }

  predicate Moves(a: Action, i: nat) {
    Caller(a) == Some(i)
  }

  /** The call a step moves, if it was there before, agrees with the record. */
  predicate CallerAgrees(d: Delivery, a: Action) {
    Caller(a).Some? && Caller(a).value in d.calls ==> CallAgrees(d, Caller(a).value, d.calls[Caller(a).value])
  }

  /** `a` is not one of the four steps that write to the record on behalf of a call. */
  predicate LeavesRecord(a: Action) {
    !a.Enter? && !a.Store? && !a.Signal? && !a.Cancel?
  }

  lemma OtherCallsStay(d: Delivery, a: Action, i: nat)
    requires Enabled(d, a) && !Moves(a, i)
    ensures i in Apply(d, a).calls <==> i in d.calls
    ensures i in d.calls ==> Apply(d, a).calls[i] == d.calls[i]
  {
  }

  /** A call agrees with any record that has the same choice, owner, result and `done`, and whose context has
      not been taken back. */
  lemma AgreesWithSameRecord(d: Delivery, e: Delivery, i: nat, c: Call)
    requires CallAgrees(d, i, c) && e.chosen == d.chosen && e.owner == d.owner && e.err == d.err && e.done == d.done
    requires d.context.Some? ==> e.context == d.context
    ensures CallAgrees(e, i, c)
  {
  }

  lemma RecordStays(d: Delivery, a: Action)
    requires Enabled(d, a) && LeavesRecord(a)
    ensures var e := Apply(d, a);
            && e.chosen == d.chosen && e.owner == d.owner && e.err == d.err && e.done == d.done
            && (d.context.Some? ==> e.context == d.context)
  {
  }

  /** A call that a step does not move still agrees with the record the step writes. */
  lemma WriterKeepsOthers(d: Delivery, a: Action, i: nat, c: Call)
    requires Enabled(d, a) && !LeavesRecord(a) && i != a.call
    requires CallAgrees(d, i, c) && CallAgrees(d, a.call, d.calls[a.call])
    ensures CallAgrees(Apply(d, a), i, c)
  {
  }

  lemma BystanderAgrees(d: Delivery, a: Action, i: nat)
    requires Inv(d) && Enabled(d, a) && i in d.calls && !Moves(a, i)
    ensures CallAgrees(Apply(d, a), i, d.calls[i])
  {
    hide Apply, CallAgrees, RecordAgrees;
    if LeavesRecord(a) {
      RecordStays(d, a);
      AgreesWithSameRecord(d, Apply(d, a), i, d.calls[i]);
    } else {
      assert CallAgrees(d, a.call, d.calls[a.call]);
      WriterKeepsOthers(d, a, i, d.calls[i]);
    }
  }

  /** The call that a step moves agrees with the record afterwards, if it did before. */
  lemma MoverAgrees(d: Delivery, a: Action, i: nat)
    requires Enabled(d, a) && Moves(a, i) && RecordAgrees(d)
    requires i in d.calls ==> CallAgrees(d, i, d.calls[i])
    ensures i in Apply(d, a).calls && CallAgrees(Apply(d, a), i, Apply(d, a).calls[i])
  {
  }

  lemma CallsPreserved(d: Delivery, a: Action)
    requires Inv(d) && Enabled(d, a)
    ensures CallsAgree(Apply(d, a))
  {
    hide Apply, CallAgrees, RecordAgrees, Enabled;
    forall i: nat | i in Apply(d, a).calls ensures CallAgrees(Apply(d, a), i, Apply(d, a).calls[i]) {
      if Moves(a, i) {
        MoverAgrees(d, a, i);
      } else {
        OtherCallsStay(d, a, i);
        BystanderAgrees(d, a, i);
      }
    }
  }

  // What the record says is kept, from the calls it mentions alone.

  lemma OthersKeepRecord(d: Delivery, a: Action)
    requires RecordAgrees(d) && Enabled(d, a) && Caller(a).None?
    requires d.chosen.Some? ==> CallAgrees(d, d.owner, d.calls[d.owner])
    ensures RecordAgrees(Apply(d, a))
  {
  }

  lemma WritersKeepRecord(d: Delivery, a: Action)
    requires RecordAgrees(d) && Enabled(d, a) && !LeavesRecord(a)
    requires d.chosen.Some? ==> CallAgrees(d, d.owner, d.calls[d.owner])
    requires CallerAgrees(d, a)
    ensures RecordAgrees(Apply(d, a))
  {
  }

  lemma CallersKeepRecord(d: Delivery, a: Action)
    requires RecordAgrees(d) && Enabled(d, a) && LeavesRecord(a) && Caller(a).Some?
    requires d.chosen.Some? ==> CallAgrees(d, d.owner, d.calls[d.owner])
    requires CallerAgrees(d, a)
    ensures RecordAgrees(Apply(d, a))
  {
  }

  lemma RecordPreserved(d: Delivery, a: Action)
    requires RecordAgrees(d) && Enabled(d, a)
    requires d.chosen.Some? ==> CallAgrees(d, d.owner, d.calls[d.owner])
    requires CallerAgrees(d, a)
    ensures RecordAgrees(Apply(d, a))
  {
    hide Apply, CallAgrees, CallerAgrees;
    if !LeavesRecord(a) {
      WritersKeepRecord(d, a);
    } else if Caller(a).None? {
      OthersKeepRecord(d, a);
    } else {
      CallersKeepRecord(d, a);
    }
  }

  lemma RecordOwner(d: Delivery)
    requires Inv(d)
    ensures d.chosen.Some? ==> CallAgrees(d, d.owner, d.calls[d.owner])
  {
  }

  lemma CallerFound(d: Delivery, a: Action)
    requires CallsAgree(d)
    ensures CallerAgrees(d, a)
  {
  }

  lemma InvPreserved(d: Delivery, a: Action)
    requires Inv(d) && Enabled(d, a)
    ensures Inv(Apply(d, a))
  {
    CallsPreserved(d, a);
    hide Apply, CallAgrees, CallsAgree, CallerAgrees;
    RecordOwner(d);
    CallerFound(d, a);
    RecordPreserved(d, a);
  }

  /** What no step takes back: of the record, and of the calls. */
  ghost predicate RecordGrows(d: Delivery, d': Delivery) {
    && (d.chosen.Some? ==> d'.chosen == d.chosen && d'.owner == d.owner)
    && (d.err.Some? ==> d'.err == d.err)
    && (d.done ==> d'.done)
    && (d.context.Some? ==> d'.context == d.context)
    && (d.context.Some? && d.chosen.None? ==> d'.chosen.None?)
    && d.bodies <= d'.bodies
  }

  ghost predicate CallsGrow(d: Delivery, d': Delivery) {
    forall i: nat :: i in d.calls ==>
      && i in d'.calls && d'.calls[i].accepted == d.calls[i].accepted
      && (d.calls[i].stage.Answered? ==> d'.calls[i].stage == d.calls[i].stage)
  }

  lemma RecordStepGrows(d: Delivery, a: Action)
    requires RecordAgrees(d) && Enabled(d, a)
    requires a.Store? ==> CallAgrees(d, a.call, d.calls[a.call])
    ensures RecordGrows(d, Apply(d, a))
  {
  }

  lemma CallStepGrows(d: Delivery, a: Action, i: nat)
    requires Enabled(d, a) && i in d.calls
    ensures i in Apply(d, a).calls && Apply(d, a).calls[i].accepted == d.calls[i].accepted
    ensures d.calls[i].stage.Answered? ==> Apply(d, a).calls[i].stage == d.calls[i].stage
  {
  }

  lemma StepGrows(d: Delivery, a: Action)
    requires Inv(d) && Enabled(d, a)
    ensures RecordGrows(d, Apply(d, a)) && CallsGrow(d, Apply(d, a))
  {
    hide Apply, CallAgrees, RecordAgrees, RecordGrows;
    if a.Store? {
      assert CallAgrees(d, a.call, d.calls[a.call]);
    }
    RecordStepGrows(d, a);
    forall i: nat | i in d.calls
      ensures i in Apply(d, a).calls && Apply(d, a).calls[i].accepted == d.calls[i].accepted
      ensures d.calls[i].stage.Answered? ==> Apply(d, a).calls[i].stage == d.calls[i].stage
    {
      CallStepGrows(d, a, i);
    }
  }

  lemma GrowsReflexive(d: Delivery)
    ensures RecordGrows(d, d) && CallsGrow(d, d)
  {
  }

  lemma GrowsTransitive(d: Delivery, e: Delivery, f: Delivery)
    requires RecordGrows(d, e) && CallsGrow(d, e) && RecordGrows(e, f) && CallsGrow(e, f)
    ensures RecordGrows(d, f) && CallsGrow(d, f)
  {
  }

  // ----- Runs -----

  ghost predicate IsRun(states: seq<Delivery>, acts: seq<Action>) {
    && |states| == |acts| + 1
    && states[0] == FRESH
    && forall k :: 0 <= k < |acts| ==> Enabled(states[k], acts[k]) && states[k + 1] == Apply(states[k], acts[k])
  }

  lemma {:induction false} RunInv(states: seq<Delivery>, acts: seq<Action>, k: nat)
    requires IsRun(states, acts) && k < |states|
    ensures Inv(states[k])
  {
    if k == 0 {
      assert states[0] == FRESH;
    } else {
      RunInv(states, acts, k - 1);
      InvPreserved(states[k - 1], acts[k - 1]);
    }
  }

  lemma {:induction false} RunGrows(states: seq<Delivery>, acts: seq<Action>, j: nat, k: nat)
    requires IsRun(states, acts) && j <= k < |states|
    ensures RecordGrows(states[j], states[k]) && CallsGrow(states[j], states[k])
  {
    hide Apply, Enabled, Inv, RecordGrows, CallsGrow;
    if j < k {
      RunGrows(states, acts, j, k - 1);
      RunInv(states, acts, k - 1);
      StepGrows(states[k - 1], acts[k - 1]);
      GrowsTransitive(states[j], states[k - 1], states[k]);
    } else {
      GrowsReflexive(states[j]);
    }
  }

  /** However the calls race: once an outcome is recorded it stays, and every completion
      body written before or after carries it. */
  lemma OutcomeIsChosenOnce(states: seq<Delivery>, acts: seq<Action>, j: nat, k: nat)
    requires IsRun(states, acts) && j <= k < |states|
    requires states[j].chosen.Some?
    ensures states[k].chosen == states[j].chosen
    ensures forall n :: 0 <= n < |states[k].bodies| ==> states[k].bodies[n] == states[j].chosen.value
  {
    RunGrows(states, acts, j, k);
    RunInv(states, acts, k);
  }

  /** A context that ended before any choice was recorded means no completion is ever
      sent, and every call that returns reports why it ended. */
  lemma NothingIsSentAfterAnEarlyEnd(states: seq<Delivery>, acts: seq<Action>, j: nat, k: nat)
    requires IsRun(states, acts) && j <= k < |states|
    requires states[j].context.Some? && states[j].chosen.None?
    ensures states[k].chosen.None? && states[k].bodies == []
    ensures forall i: nat :: i in states[k].calls && states[k].calls[i].stage.Answered? ==>
              states[k].calls[i].stage.answer == ContextEnded(states[j].context.value)
  {
    RunGrows(states, acts, j, k);
    RunInv(states, acts, k);
    forall i: nat | i in states[k].calls && states[k].calls[i].stage.Answered?
      ensures states[k].calls[i].stage.answer == ContextEnded(states[j].context.value)
    {
      assert CallAgrees(states[k], i, states[k].calls[i]);
    }
  }

  /** Once an outcome is recorded, every call that has returned got the one stored result if it wanted that outcome
      and a conflict if it wanted the other: never the end of the context, although the owner's own `cancel`, the
      timer or the parent may have ended it before the call came. */
  lemma AnswersMatchTheChoice(states: seq<Delivery>, acts: seq<Action>, k: nat, i: nat)
    requires IsRun(states, acts) && k < |states| && states[k].chosen.Some?
    requires i in states[k].calls && states[k].calls[i].stage.Answered?
    ensures var c := states[k].calls[i];
            if c.accepted == states[k].chosen.value
            then states[k].err.Some? && c.stage.answer == Stored(states[k].err.value)
            else c.stage.answer == Conflict
  {
    RunInv(states, acts, k);
    assert CallAgrees(states[k], i, states[k].calls[i]);
  }

  /** The same over time: whoever returns after an outcome was recorded, or before, got an answer to that outcome. */
  lemma NoAnswerBeforeTheChoice(states: seq<Delivery>, acts: seq<Action>, j: nat, k: nat, i: nat)
    requires IsRun(states, acts) && j <= k < |states| && states[k].chosen.Some?
    requires i in states[j].calls && states[j].calls[i].stage.Answered?
    ensures !states[j].calls[i].stage.answer.ContextEnded? && states[j].chosen == states[k].chosen
  {
    RunGrows(states, acts, j, k);
    AnswersMatchTheChoice(states, acts, k, i);
    RunInv(states, acts, j);
    assert CallAgrees(states[j], i, states[j].calls[i]);
  }

  /** Two calls of the same run that both got a stored result got the same one, whenever each returned. */
  lemma SameChoiceSameResult(states: seq<Delivery>, acts: seq<Action>, j: nat, k: nat, m: nat, n: nat)
    requires IsRun(states, acts) && j <= k < |states|
    requires m in states[j].calls && states[j].calls[m].stage.Answered? && states[j].calls[m].stage.answer.Stored?
    requires n in states[k].calls && states[k].calls[n].stage.Answered? && states[k].calls[n].stage.answer.Stored?
    ensures states[j].calls[m].stage.answer == states[k].calls[n].stage.answer
    ensures states[j].calls[m].accepted == states[k].calls[n].accepted
  {
    RunGrows(states, acts, j, k);
    RunInv(states, acts, j);
    RunInv(states, acts, k);
    assert CallAgrees(states[j], m, states[j].calls[m]);
    assert CallAgrees(states[k], n, states[k].calls[n]);
  }

  // ----- The object itself -----

  /** What the first lock region of `complete` tells its caller to do next. */
  datatype Verdict = Own | AwaitDone | Reply(answer: Answer)

  /** Storing the result, closing `done` and cancelling, one after the other. */
  lemma ThreeSteps(d: Delivery, i: nat, receipt: Receipt)
    requires At(d, i, Finishing(receipt))
    ensures var stored := Apply(d, Store(i));
            && Enabled(stored, Signal(i))
            && var signalled := Apply(stored, Signal(i));
               && Enabled(signalled, Cancel(i))
               && Apply(signalled, Cancel(i))
                  == d.(err := Some(receipt), done := true, context := End(d.context, Canceled),
                        calls := d.calls[i := d.calls[i].(stage := Releasing(receipt))])
  {
    var stored := Apply(d, Store(i));
    var signalled := Apply(stored, Signal(i));
    assert stored.calls == d.calls[i := d.calls[i].(stage := Signalling(receipt))];
    assert signalled.calls == d.calls[i := d.calls[i].(stage := Cancelling(receipt))];
  }

  class PendingEvent {
    var context: Option<Cause>
    var timer: Timer
    var chosen: Option<bool>
    var err: Option<Receipt>
    var done: bool
    ghost var owner: nat
    ghost var calls: map<nat, Call>
    ghost var bodies: seq<bool>
    ghost var release: Release

    ghost function State(): Delivery
      reads this
    {
      Delivery(context, timer, chosen, owner, err, done, calls, bodies, release)
    }

    constructor ()
      ensures State() == FRESH
    {
      context, timer, chosen, err, done := None, Armed, None, None, false;
      owner, calls, bodies, release := 0, map[], [], Unfired;
    }

    /** The lock region that every `Ack` and `Retry` enters first. */
    method Decide(ghost i: nat, accepted: bool) returns (verdict: Verdict)
      requires At(State(), i, Entering) && calls[i].accepted == accepted
      modifies this
      ensures State() == Apply(old(State()), Enter(i))
      ensures verdict.Own? <==> State().calls[i].stage == Retrying
      ensures verdict.AwaitDone? <==> State().calls[i].stage == Waiting
      ensures verdict.Reply? ==> State().calls[i].stage == Answered(verdict.answer)
    {
      if chosen.Some? {
        if chosen.value != accepted {
          verdict := Reply(Conflict);
        } else {
          verdict := AwaitDone;
        }
      } else if context.Some? {
        verdict := Reply(ContextEnded(context.value));
      } else {
        chosen := Some(accepted);
        owner := i;
        if timer == Armed {
          timer := Stopped;
        }
        verdict := Own;
      }
      calls := calls[i := calls[i].(stage :=
        match verdict case Own => Retrying case AwaitDone => Waiting case Reply(answer) => Answered(answer))];
    }

    /** What the owning call does once `retryEvent` returned: store, close `done`, cancel. */
    method Conclude(ghost i: nat, receipt: Receipt)
      requires At(State(), i, Finishing(receipt))
      modifies this
      ensures var stored := Apply(old(State()), Store(i));
              && Enabled(stored, Signal(i))
              && var signalled := Apply(stored, Signal(i));
                 Enabled(signalled, Cancel(i)) && State() == Apply(signalled, Cancel(i))
    {
      ThreeSteps(State(), i, receipt);
      hide Apply;
      err := Some(receipt);
      done := true;
      if context.None? {
        context := Some(Canceled);
      }
      calls := calls[i := calls[i].(stage := Releasing(receipt))];
    }
  }
}
