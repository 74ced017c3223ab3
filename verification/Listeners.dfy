/**
 The goroutine behind `Listen`, racing `Close`, the handlers it starts, the completion of the
 current delivery and the queue on the server. One action per lock region step, select,
 channel event, network event and server step.
 */
module Listeners {
  import opened Outcomes
  import D = Deliveries

  /** What `retryEvent` around `receive` returned: an offer with or without a delivery, or an error. */
  datatype Fetch = Fetched(offer: Option<nat>) | Broken

  datatype Phase =
    | Top
    | Locking
    | Storing(examined: bool)
    | Checking
    | InFlight
    | BackingOff
    | Returned(fetch: Fetch)
    | Cleared(fetch: Fetch)
    | Idling
    | Selecting
    | Completing
    | Ended

  /** The once-guarded body of `Close`: not begun, `stop` closed, lock region passed. */
  datatype Closer = NotBegun | StopClosed | Passed

  /** `stored`: `cancelReceive` is set. `begunLate` counts the handler calls begun after `Close` passed its lock
      region. */
  datatype Control = Control(
    phase: Phase,
    closer: Closer,
    stored: bool,
    receiveCancelled: bool,
    parentEnded: bool,
    begunLate: nat
  )

  /** A lease of the queue: out with a receiver, completed, or lapsed for redelivery under a new id. */
  datatype LeaseState = Out | Completed(accepted: bool) | Lapsed
  datatype Lease = Lease(event: nat, state: LeaseState)

  /** `results` holds what each handler returned (true for nil), `wire` the completion bodies
      written so far (any of them may reach the server late, twice or never). */
  datatype Work = Work(
    current: nat,
    delivery: D.Delivery,
    begun: set<nat>,
    results: map<nat, bool>,
    wire: set<(nat, bool)>,
    leases: map<nat, Lease>,
    dropped: set<nat>
  )

  datatype Listener = Listener(control: Control, work: Work)

  datatype Action =
    | Look
    | TakeLock
    | ExamineStop
    | Unlock
    | CheckReceive
    | ReceiveDelivery(id: nat, event: nat)
    | ReceiveNothing
    | ReceiveFails(retry: bool)
    | BackOffEnds
    | ClearCancel
    | Dispatch
    | Reject
    | IdleEnds
    | HandlerReturns(id: nat, ok: bool)
    | HandlerCutOff
    | Settle
    | StepDelivery(step: D.Action)
    | CompletionReturns
    | EndParent
    | CloseStop
    | ClosePass
    | ServerCompletes(id: nat, accepted: bool)
    | ServerLapses(id: nat)

  const START := Listener(Control(Top, NotBegun, false, false, false, 0), Work(0, D.FRESH, {}, map[], {}, map[], {}))

  predicate Stopped(c: Control) {
    c.closer != NotBegun
  }

  predicate Cancelled(c: Control) {
    c.receiveCancelled || c.parentEnded
  }

  /** The result of the loop's one call of `Ack` or `Retry` on the current delivery. */
  predicate CompletionAnswered(w: Work) {
    0 in w.delivery.calls && w.delivery.calls[0].stage.Answered?
  }

  predicate Enabled(l: Listener, a: Action) {
    var c, w := l.control, l.work;
    match a
    case Look => c.phase.Top?
    case TakeLock => c.phase.Locking?
    case ExamineStop => c.phase == Storing(false)
    case Unlock => c.phase == Storing(true)
    case CheckReceive => c.phase.Checking?
    case ReceiveDelivery(id, event) => c.phase.InFlight? && id !in w.leases && event !in w.dropped
    case ReceiveNothing => c.phase.InFlight?
    case ReceiveFails(retry) => c.phase.InFlight? && (retry ==> !Cancelled(c))
    case BackOffEnds => c.phase.BackingOff?
    case ClearCancel => c.phase.Returned?
    case Dispatch => c.phase.Cleared?
    case Reject => c.phase.Cleared? && c.phase.fetch.Fetched? && c.phase.fetch.offer.Some?
    case IdleEnds => c.phase.Idling?
    case HandlerReturns(id, _) => id in w.begun && id !in w.results
    case HandlerCutOff => c.phase.Selecting? && w.delivery.context.Some?
    case Settle => c.phase.Selecting? && w.current in w.results
    case StepDelivery(step) =>
      && w.current in w.begun && !step.Arrive? && D.Enabled(w.delivery, step)
      && (step.EndParent? ==> c.parentEnded)
      && (step.Receive? ==> w.current in w.leases && w.leases[w.current].state.Completed?)
    case CompletionReturns => c.phase.Completing? && CompletionAnswered(w)
    case EndParent => true
    case CloseStop => c.closer.NotBegun?
    case ClosePass => c.closer.StopClosed? && !c.phase.Storing?
    case ServerCompletes(id, accepted) => (id, accepted) in w.wire && id in w.leases
    case ServerLapses(id) => id in w.leases && w.leases[id].state.Out?
  }

  function ApplyControl(l: Listener, a: Action): Control
    requires Enabled(l, a)
  {
    var c, w := l.control, l.work;
    match a
    case Look =>
      if Stopped(c) || c.parentEnded then c.(phase := Ended) else c.(phase := Locking, receiveCancelled := false)
    case TakeLock => c.(phase := Storing(false), stored := true)
    case ExamineStop => c.(phase := Storing(true), receiveCancelled := c.receiveCancelled || Stopped(c))
    case Unlock => c.(phase := Checking)
    case CheckReceive => c.(phase := if Cancelled(c) then Returned(Broken) else InFlight)
    case ReceiveDelivery(id, event) => c.(phase := Returned(Fetched(Some(id))))
    case ReceiveNothing => c.(phase := Returned(Fetched(None)))
    case ReceiveFails(retry) => c.(phase := if retry then BackingOff else Returned(Broken))
    case BackOffEnds => c.(phase := Checking)
    case ClearCancel => c.(phase := Cleared(c.phase.fetch), stored := false, receiveCancelled := true)
    case Dispatch =>
      if c.phase.fetch.Broken? then c.(phase := Ended)
      else if c.phase.fetch.offer.None? then c.(phase := Idling)
      else c.(phase := Selecting, begunLate := c.begunLate + if c.closer.Passed? then 1 else 0)
    case Reject => c.(phase := Ended)
    case IdleEnds => c.(phase := if c.parentEnded then Ended else Top)
    case HandlerCutOff => c.(phase := Ended)
    case Settle => c.(phase := Completing)
    case CompletionReturns =>
      c.(phase := if w.delivery.calls[0].stage.answer == D.Stored(D.Completed) then Top else Ended)
    case EndParent => c.(parentEnded := true)
    case CloseStop => c.(closer := StopClosed)
    case ClosePass => c.(closer := Passed, receiveCancelled := c.receiveCancelled || c.stored)
    case _ => c
  }

  function Complete(w: Work, id: nat, accepted: bool): Work
    requires id in w.leases
  {
    if !w.leases[id].state.Out? then w
    else w.(leases := w.leases[id := w.leases[id].(state := Completed(accepted))],
            dropped := if accepted then w.dropped + {w.leases[id].event} else w.dropped)
  }

  function ApplyWork(l: Listener, a: Action): Work
    requires Enabled(l, a)
  {
    var c, w := l.control, l.work;
    match a
    case ReceiveDelivery(id, event) => w.(leases := w.leases[id := Lease(event, Out)])
    case Dispatch =>
      if c.phase.fetch.Fetched? && c.phase.fetch.offer.Some? then
        var id := c.phase.fetch.offer.value;
        w.(current := id, delivery := D.FRESH, begun := w.begun + {id})
      else w
    case HandlerReturns(id, ok) => w.(results := w.results[id := ok])
    case HandlerCutOff => if w.delivery.timer.Armed? then w.(delivery := D.Apply(w.delivery, D.StopTimer)) else w
    case Settle =>
      if 0 in w.delivery.calls then w
      else w.(delivery := D.Apply(w.delivery, D.Arrive(0, w.results[w.current])))
    case StepDelivery(step) =>
      w.(delivery := D.Apply(w.delivery, step),
         wire := if step.Send? then w.wire + {(w.current, w.delivery.calls[step.call].accepted)} else w.wire)
    case ServerCompletes(id, accepted) => Complete(w, id, accepted)
    case ServerLapses(id) => w.(leases := w.leases[id := w.leases[id].(state := Lapsed)])
    case _ => w
  }

  function Apply(l: Listener, a: Action): Listener
    requires Enabled(l, a)
  {
    Listener(ApplyControl(l, a), ApplyWork(l, a))
  }

  // ----- Close and the receive loop -----

  predicate Receiving(phase: Phase) {
    phase.Checking? || phase.InFlight? || phase.BackingOff?
  }

  /** Whether a handler may still begin without another look at `stop`. */
  predicate MayBegin(phase: Phase) {
    || phase.InFlight?
    || (phase.Returned? && phase.fetch.Fetched? && phase.fetch.offer.Some?)
    || (phase.Cleared? && phase.fetch.Fetched? && phase.fetch.offer.Some?)
  }

  predicate ControlInv(c: Control) {
    && (c.stored <==> c.phase.Storing? || Receiving(c.phase) || c.phase.Returned?)
    && (c.closer.Passed? && (Receiving(c.phase) || c.phase == Storing(true)) ==> c.receiveCancelled)
    && (!c.closer.Passed? ==> c.begunLate == 0)
    && c.begunLate + (if MayBegin(c.phase) then 1 else 0) <= 1
  }

  lemma ControlInvPreserved(l: Listener, a: Action)
    requires Enabled(l, a) && ControlInv(l.control)
    ensures ControlInv(ApplyControl(l, a))
  {
  }

  // ----- Handlers, completions and the queue -----

  predicate Fetching(phase: Phase, id: nat) {
    (phase.Returned? || phase.Cleared?) && phase.fetch == Fetched(Some(id))
  }

  /** The call of `complete` has been told that the server recorded the completion. */
  predicate Confirmed(stage: D.Stage) {
    match stage
    case Finishing(receipt) => receipt.Completed?
    case Signalling(receipt) => receipt.Completed?
    case Cancelling(receipt) => receipt.Completed?
    case Releasing(receipt) => receipt.Completed?
    case Answered(answer) => answer == D.Stored(D.Completed)
    case _ => false
  }

  /** The loop's call is call 0 of the current delivery, and it asks for what the handler returned. */
  ghost predicate DeliveryInv(l: Listener) {
    var w := l.work;
    && D.Inv(w.delivery)
    && w.delivery.calls.Keys <= {0}
    && (0 in w.delivery.calls ==> w.current in w.results && w.delivery.calls[0].accepted == w.results[w.current])
    && (l.control.phase.Selecting? ==> w.delivery.calls == map[])
    && (l.control.phase.Selecting? || l.control.phase.Completing? ==> w.current in w.begun)
    && (l.control.phase.Completing? ==> 0 in w.delivery.calls)
  }

  /** What the server has been told about the current delivery, and what it has answered. */
  ghost predicate ReceiptInv(w: Work) {
    && (forall b: bool :: (w.current, b) in w.wire ==> w.delivery.bodies != [])
    && (0 in w.delivery.calls && Confirmed(w.delivery.calls[0].stage) ==>
          w.current in w.leases && w.leases[w.current].state.Completed?)
  }

  /** Every handler begun has a lease, every result a handler, and what is being fetched a lease but no handler. */
  ghost predicate HandlersInv(phase: Phase, w: Work) {
    && (forall id: nat :: id in w.begun ==> id in w.leases)
    && (forall id: nat :: id in w.results ==> id in w.begun)
    && (forall id: nat :: Fetching(phase, id) ==> id in w.leases && id !in w.begun)
  }

  /** What was written follows the results, and what was completed was written. */
  ghost predicate WireInv(w: Work) {
    && (forall id: nat, b: bool :: (id, b) in w.wire ==> id in w.results && w.results[id] == b)
    && (forall id: nat :: id in w.leases && w.leases[id].state.Completed? ==>
          (id, w.leases[id].state.accepted) in w.wire)
  }

  ghost predicate QueueInv(l: Listener) {
    HandlersInv(l.control.phase, l.work) && WireInv(l.work)
  }

  ghost predicate DropInv(w: Work) {
    && (forall e: nat :: e in w.dropped ==>
          exists id: nat :: id in w.leases && w.leases[id] == Lease(e, Completed(true)))
    && (forall id: nat :: id in w.leases && w.leases[id].state == Completed(true) ==> w.leases[id].event in w.dropped)
  }

  ghost predicate Inv(l: Listener) {
    ControlInv(l.control) && DeliveryInv(l) && ReceiptInv(l.work) && QueueInv(l) && DropInv(l.work)
  }

  /** A step of a delivery moves calls it already has and never changes what they ask for. */
  lemma CallsKept(d: D.Delivery, step: D.Action)
    requires D.Enabled(d, step) && !step.Arrive?
    ensures D.Apply(d, step).calls.Keys == d.calls.Keys
    ensures forall i: nat :: i in d.calls ==> D.Apply(d, step).calls[i].accepted == d.calls[i].accepted
  {
    hide D.Apply;
    forall i: nat ensures i in D.Apply(d, step).calls <==> i in d.calls {
      CallKept(d, step, i);
    }
    forall i: nat | i in d.calls ensures D.Apply(d, step).calls[i].accepted == d.calls[i].accepted {
      CallKept(d, step, i);
    }
  }

  lemma CallKept(d: D.Delivery, step: D.Action, i: nat)
    requires D.Enabled(d, step) && !step.Arrive?
    ensures i in D.Apply(d, step).calls <==> i in d.calls
    ensures i in d.calls ==> D.Apply(d, step).calls[i].accepted == d.calls[i].accepted
  {
  }

  lemma StepDeliverySound(l: Listener, step: D.Action)
    requires Inv(l) && Enabled(l, StepDelivery(step))
    ensures DeliveryInv(Apply(l, StepDelivery(step)))
  {
    hide D.Inv, D.Apply, D.Enabled, QueueInv, DropInv, ReceiptInv, ControlInv;
    D.InvPreserved(l.work.delivery, step);
    CallsKept(l.work.delivery, step);
  }

  /** The loop's own steps on a delivery: its call arrives, or its timer is stopped. */
  lemma LoopKeepsDelivery(l: Listener, a: Action)
    requires Inv(l) && Enabled(l, a) && (a.Settle? || a.HandlerCutOff?)
    ensures DeliveryInv(Apply(l, a))
  {
    var w := l.work;
    if a.Settle? && 0 !in w.delivery.calls {
      D.InvPreserved(w.delivery, D.Arrive(0, w.results[w.current]));
    } else if a.HandlerCutOff? && w.delivery.timer.Armed? {
      D.InvPreserved(w.delivery, D.StopTimer);
    }
    hide D.Inv, QueueInv, DropInv, ReceiptInv, ControlInv;
  }

  lemma FreshIsSound()
    ensures D.Inv(D.FRESH)
  {
  }

  lemma DeliveryInvPreserved(l: Listener, a: Action)
    requires Inv(l) && Enabled(l, a)
    ensures DeliveryInv(Apply(l, a))
  {
    if a.StepDelivery? {
      StepDeliverySound(l, a.step);
    } else if a.Settle? || a.HandlerCutOff? {
      LoopKeepsDelivery(l, a);
    } else {
      OthersKeepDelivery(l, a);
    }
  }

  lemma OthersKeepDelivery(l: Listener, a: Action)
    requires Inv(l) && Enabled(l, a) && !a.StepDelivery? && !a.Settle? && !a.HandlerCutOff?
    ensures DeliveryInv(Apply(l, a))
  {
    FreshIsSound();
    hide D.Inv, D.Apply, D.Enabled, DropInv, ReceiptInv, ControlInv, WireInv;
  }

  /** Only a receipt confirms: no other step of the owning call turns into one. */
  lemma ConfirmedByReceipt(d: D.Delivery, step: D.Action)
    requires D.Inv(d) && D.Enabled(d, step) && !step.Arrive? && d.calls.Keys <= {0} && 0 in d.calls
    requires Confirmed(D.Apply(d, step).calls[0].stage)
    ensures step == D.Receive(0) || Confirmed(d.calls[0].stage)
  {
    assert D.CallAgrees(d, 0, d.calls[0]);
  }

  lemma DeliveryStepReceipts(l: Listener, step: D.Action)
    requires Inv(l) && Enabled(l, StepDelivery(step))
    ensures ReceiptInv(Apply(l, StepDelivery(step)).work)
  {
    var d := l.work.delivery;
    var d' := D.Apply(d, step);
    CallsKept(d, step);
    D.StepGrows(d, step);
    if 0 in d'.calls && Confirmed(d'.calls[0].stage) {
      ConfirmedByReceipt(d, step);
    }
  }

  lemma ReceiptInvPreserved(l: Listener, a: Action)
    requires Inv(l) && Enabled(l, a)
    ensures ReceiptInv(Apply(l, a).work)
  {
    if a.StepDelivery? {
      DeliveryStepReceipts(l, a.step);
    }
  }

  lemma HandlersInvPreserved(l: Listener, a: Action)
    requires Inv(l) && Enabled(l, a)
    ensures HandlersInv(Apply(l, a).control.phase, Apply(l, a).work)
  {
    hide D.Inv, D.Apply, D.Enabled, DropInv, ReceiptInv, ControlInv, WireInv;
  }

  /** A body is written by the loop's call, which asks for what the handler returned. */
  lemma SentFollowsTheHandler(l: Listener, step: D.Action)
    requires DeliveryInv(l) && Enabled(l, StepDelivery(step)) && step.Send?
    ensures step.call == 0 && l.work.current in l.work.results
    ensures l.work.delivery.calls[0].accepted == l.work.results[l.work.current]
  {
    hide D.Inv;
    assert step.call in l.work.delivery.calls;
  }

  lemma WireInvPreserved(l: Listener, a: Action)
    requires Inv(l) && Enabled(l, a)
    ensures WireInv(Apply(l, a).work)
  {
    if a.StepDelivery? {
      DeliveryKeepsWire(l, a.step);
    } else if LeaseStep(a) {
      LeaseStepKeepsWire(l, a);
    }
    hide D.Inv, D.Apply, D.Enabled, DropInv, ReceiptInv, ControlInv, DeliveryInv, ApplyControl, Complete;
  }

  predicate LeaseStep(a: Action) {
    a.ReceiveDelivery? || a.ServerCompletes? || a.ServerLapses?
  }

  lemma LeaseStepKeepsWire(l: Listener, a: Action)
    requires Inv(l) && Enabled(l, a) && LeaseStep(a)
    ensures WireInv(Apply(l, a).work)
  {
    hide D.Inv, D.Apply, D.Enabled, DropInv, ReceiptInv, ControlInv, DeliveryInv, ApplyControl;
  }

  lemma DeliveryKeepsWire(l: Listener, step: D.Action)
    requires Inv(l) && Enabled(l, StepDelivery(step))
    ensures WireInv(Apply(l, StepDelivery(step)).work)
  {
    if step.Send? {
      SentFollowsTheHandler(l, step);
    }
    hide D.Inv, D.Apply, D.Enabled, DropInv, ReceiptInv, ControlInv, DeliveryInv, ApplyControl;
  }

  lemma QueueInvPreserved(l: Listener, a: Action)
    requires Inv(l) && Enabled(l, a)
    ensures QueueInv(Apply(l, a))
  {
    hide Apply, Inv, HandlersInv, WireInv, Enabled;
    HandlersInvPreserved(l, a);
    WireInvPreserved(l, a);
  }

  lemma DropInvPreserved(l: Listener, a: Action)
    requires Inv(l) && Enabled(l, a)
    ensures DropInv(Apply(l, a).work)
  {
    var w, w' := l.work, Apply(l, a).work;
    forall e: nat | e in w'.dropped
      ensures exists id: nat :: id in w'.leases && w'.leases[id] == Lease(e, Completed(true))
    {
      if e in w.dropped {
        var id: nat :| id in w.leases && w.leases[id] == Lease(e, Completed(true));
        assert id in w'.leases && w'.leases[id] == w.leases[id];
      } else {
        assert a.ServerCompletes? && w'.leases[a.id] == Lease(e, Completed(true));
      }
    }
  }

  lemma InvPreserved(l: Listener, a: Action)
    requires Inv(l) && Enabled(l, a)
    ensures Inv(Apply(l, a))
  {
    ControlInvPreserved(l, a);
    DeliveryInvPreserved(l, a);
    ReceiptInvPreserved(l, a);
    QueueInvPreserved(l, a);
    DropInvPreserved(l, a);
  }

  // ----- Runs -----

  ghost predicate IsRun(states: seq<Listener>, acts: seq<Action>) {
    && |states| == |acts| + 1
    && states[0] == START
    && forall k :: 0 <= k < |acts| ==> Enabled(states[k], acts[k]) && states[k + 1] == Apply(states[k], acts[k])
  }

  lemma {:induction false} RunInv(states: seq<Listener>, acts: seq<Action>, k: nat)
    requires IsRun(states, acts) && k < |states|
    ensures Inv(states[k])
  {
    if k == 0 {
      assert states[0] == START;
    } else {
      RunInv(states, acts, k - 1);
      InvPreserved(states[k - 1], acts[k - 1]);
    }
  }

  /** `Close` never loses its wakeup: once it has passed its lock region, in every interleaving
      the receive in flight has a cancelled context, and at most one more handler begins. */
  lemma CloseWakesTheReceive(states: seq<Listener>, acts: seq<Action>, k: nat)
    requires IsRun(states, acts) && k < |states| && states[k].control.closer.Passed?
    ensures Receiving(states[k].control.phase) ==> states[k].control.receiveCancelled
    ensures states[k].control.begunLate <= 1
  {
    RunInv(states, acts, k);
  }

  /** After `Close` has passed its lock region no further receive is put in flight. */
  lemma NoReceiveAfterClose(states: seq<Listener>, acts: seq<Action>, k: nat)
    requires IsRun(states, acts) && k < |acts| && states[k].control.closer.Passed?
    requires states[k + 1].control.phase.InFlight?
    ensures states[k].control.phase.InFlight?
  {
    RunInv(states, acts, k);
    NoNewReceive(states[k], acts[k]);
  }

  lemma NoNewReceive(l: Listener, a: Action)
    requires ControlInv(l.control) && Enabled(l, a) && l.control.closer.Passed?
    requires ApplyControl(l, a).phase.InFlight?
    ensures l.control.phase.InFlight?
  {
  }

  /** `accepted=true` is only ever written for a delivery whose own handler returned nil, and
      `accepted=false` only for one whose handler returned an error. */
  lemma BodiesFollowTheHandler(states: seq<Listener>, acts: seq<Action>, k: nat, id: nat, accepted: bool)
    requires IsRun(states, acts) && k < |states| && (id, accepted) in states[k].work.wire
    ensures id in states[k].work.results && states[k].work.results[id] == accepted
  {
    RunInv(states, acts, k);
  }

  /** The queue drops an event only on account of a delivery of that event whose handler returned nil. */
  lemma DroppedMeansHandled(states: seq<Listener>, acts: seq<Action>, k: nat, e: nat) returns (id: nat)
    requires IsRun(states, acts) && k < |states| && e in states[k].work.dropped
    ensures id in states[k].work.leases && states[k].work.leases[id] == Lease(e, Completed(true))
    ensures id in states[k].work.results && states[k].work.results[id]
  {
    RunInv(states, acts, k);
    id :| id in states[k].work.leases && states[k].work.leases[id] == Lease(e, Completed(true));
  }

  /** The context of delivery `id` ended before its completion was chosen: its handler timed
      out or was cut off, whatever it returns later. */
  predicate CutOff(l: Listener, id: nat) {
    && id in l.work.begun
    && (id, true) !in l.work.wire && (id, false) !in l.work.wire
    && (id == l.work.current ==> l.work.delivery.context.Some? && l.work.delivery.chosen.None?)
  }

  /** A step of the delivery that was cut off: it chooses nothing, so it writes nothing. */
  lemma CutOffDelivery(d: D.Delivery, step: D.Action)
    requires D.Inv(d) && D.Enabled(d, step) && d.context.Some? && d.chosen.None?
    ensures D.Apply(d, step).context.Some? && D.Apply(d, step).chosen.None? && !step.Send?
  {
    D.StepGrows(d, step);
    if step.Send? {
      NoSenderWithoutChoice(d, step.call);
    }
  }

  lemma NoSenderWithoutChoice(d: D.Delivery, i: nat)
    requires D.Inv(d) && d.chosen.None?
    ensures !D.At(d, i, D.Attempting)
  {
    assert i in d.calls ==> D.CallAgrees(d, i, d.calls[i]);
  }

  lemma CutOffStep(l: Listener, a: Action, id: nat)
    requires Inv(l) && Enabled(l, a) && CutOff(l, id)
    ensures CutOff(Apply(l, a), id)
  {
    if a.StepDelivery? {
      CutOffDelivered(l, a.step, id);
    }
    hide D.Inv, D.Apply, D.Enabled, DropInv, ReceiptInv, ControlInv, DeliveryInv, WireInv, ApplyControl, Complete;
  }

  lemma CutOffDelivered(l: Listener, step: D.Action, id: nat)
    requires Inv(l) && Enabled(l, StepDelivery(step)) && CutOff(l, id)
    ensures CutOff(Apply(l, StepDelivery(step)), id)
  {
    if id == l.work.current {
      CutOffDelivery(l.work.delivery, step);
    }
    hide D.Inv, D.Apply, D.Enabled, DropInv, ReceiptInv, ControlInv, DeliveryInv, WireInv, HandlersInv, ApplyControl;
  }

  lemma {:induction false} CutOffStays(states: seq<Listener>, acts: seq<Action>, j: nat, k: nat, id: nat)
    requires IsRun(states, acts) && j <= k < |states| && CutOff(states[j], id)
    ensures CutOff(states[k], id)
  {
    if j < k {
      CutOffStays(states, acts, j, k - 1, id);
      RunInv(states, acts, k - 1);
      hide Inv, CutOff, Apply, Enabled;
      CutOffStep(states[k - 1], acts[k - 1], id);
    }
  }

  /** The beginning of a cut-off: the delivery is current, nothing has been chosen, and its context has ended. */
  lemma EndedUnchosenIsCutOff(states: seq<Listener>, acts: seq<Action>, k: nat)
    requires IsRun(states, acts) && k < |states|
    requires states[k].work.current in states[k].work.begun
    requires states[k].work.delivery.context.Some? && states[k].work.delivery.chosen.None?
    ensures CutOff(states[k], states[k].work.current)
  {
    RunInv(states, acts, k);
  }

  /** No run drops an event on account of a delivery whose handler failed, has not returned, timed
      out or was cut off: the queue never counts such a delivery as accepted. */
  lemma NeverDroppedForAFailure(states: seq<Listener>, acts: seq<Action>, j: nat, k: nat, id: nat)
    requires IsRun(states, acts) && j <= k < |states|
    requires id !in states[k].work.results || !states[k].work.results[id] || CutOff(states[j], id)
    ensures id in states[k].work.leases ==> states[k].work.leases[id].state != Completed(true)
  {
    RunInv(states, acts, k);
    if CutOff(states[j], id) {
      CutOffStays(states, acts, j, k, id);
    }
  }

  /** An `Ack` of the loop that returns nil means the queue has dropped the event, and a `Retry` that
      returns nil means the queue has recorded the refusal. */
  lemma AckedMeansSettled(states: seq<Listener>, acts: seq<Action>, k: nat)
    requires IsRun(states, acts) && k < |states|
    requires CompletionAnswered(states[k].work)
             && states[k].work.delivery.calls[0].stage.answer == D.Stored(D.Completed)
    ensures var w := states[k].work;
            && w.current in w.leases && w.leases[w.current].state == Completed(w.delivery.calls[0].accepted)
            && (w.delivery.calls[0].accepted ==> w.leases[w.current].event in w.dropped)
  {
    RunInv(states, acts, k);
    assert D.CallAgrees(states[k].work.delivery, 0, states[k].work.delivery.calls[0]);
  }
}
