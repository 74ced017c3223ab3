/**
 A listener and its connection together. The completion of the current delivery is an exchange: its body is a
 request with a number, the server settles the lease when it answers that request, and the loop takes whatever
 reply `exchange` returns for a receipt. Nothing here tells the loop that the reply is the right one: that it
 always is follows from the two systems together.
 */
module Sessions {
  import opened Outcomes
  import C = Connections
  import D = Deliveries
  import L = Listeners

  /** `bodies` names the delivery and the outcome of every request that carried a completion. */
  datatype Session = Session(listener: L.Listener, connection: C.Connection, bodies: map<nat, (nat, bool)>)

  datatype Action =
    | Loop(step: L.Action)
    | Wire(move: C.Action)
    | WriteCompletion
    | WriteCompletionFails(sent: bool, after: D.Action)
    | AnswerCompletion(g: nat, refusal: Option<C.Error>, processed: bool)
    | TakeMore
    | TakeReceipt
    | ExchangeFails(failure: C.Action, after: D.Action)

  const START := Session(L.START, C.START, map[])

  /** The callers of the SDK: everything goes through `retryEvent`. */
  function Sdk(onGapError: bool): C.Caller {
    C.Caller(C.Retryable, onGapError)
  }

  /** The completion of the current delivery has been written and its exchange has not returned. */
  predicate Exchanging(l: L.Listener) {
    D.At(l.work.delivery, 0, D.Awaiting)
  }

  /** An exchange that failed: the loop will try again, or gives up. */
  predicate Failing(step: D.Action) {
    step == D.Pause(0) || (step.GiveUp? && step.call == 0)
  }

  /** Steps of the loop and of the queue that are not those of an exchange. */
  predicate OffWire(l: L.Listener, step: L.Action) {
    && !step.ServerCompletes?
    && (step.StepDelivery? ==> !step.step.Send? && !step.step.Receive? && (Exchanging(l) ==> !Failing(step.step)))
  }

  /** Steps of the connection that are not those of a completion's exchange. */
  predicate Free(s: Session, move: C.Action)
    requires C.Enabled(s.connection, move)
  {
    if move.Answer? then s.connection.sockets[move.g].upstream[0] !in s.bodies
    else C.SocketStep(move) || move.CloseElsewhere? || !Exchanging(s.listener)
  }

  /** The exchange takes a reply that is not an error frame. */
  predicate TakesReply(c: C.Connection) {
    && C.Enabled(c, C.Take)
    && c.sockets[c.channel].packets[0].Reply? && c.sockets[c.channel].packets[0].refusal.None?
  }

  /** The lease is out, or already completed: what the server answers a completion with success for. */
  predicate Settleable(l: L.Listener, id: nat) {
    id in l.work.leases && !l.work.leases[id].state.Lapsed?
  }

  predicate Enabled(s: Session, a: Action, onGapError: bool) {
    var l, c := s.listener, s.connection;
    match a
    case Loop(step) => L.Enabled(l, step) && OffWire(l, step)
    case Wire(move) => C.Enabled(c, move) && Free(s, move)
    case WriteCompletion => !c.opening && C.Enabled(c, C.Write) && L.Enabled(l, L.StepDelivery(D.Send(0)))
    case WriteCompletionFails(sent, after) =>
      && !c.opening && C.Enabled(c, C.WriteFails(sent)) && L.Enabled(l, L.StepDelivery(D.Send(0)))
      && Failing(after) && L.Enabled(l, L.StepDelivery(after))
    case AnswerCompletion(g, refusal, processed) =>
      && C.Enabled(c, C.Answer(g, refusal, None)) && c.sockets[g].upstream[0] in s.bodies
      && (refusal.None? ==> processed)
      && (processed ==> Settleable(l, s.bodies[c.sockets[g].upstream[0]].0) && Completed(s, g).Some?)
    case TakeMore =>
      && Exchanging(l) && C.Enabled(c, C.Take) && C.Apply(Sdk(onGapError), c, C.Take).phase == c.phase
    case TakeReceipt => Exchanging(l) && TakesReply(c)
    case ExchangeFails(failure, after) =>
      && Exchanging(l) && (failure.Take? || failure.Drained? || failure.Cut?) && C.Enabled(c, failure)
      && !(failure.Take? && TakesReply(c)) && !C.Apply(Sdk(onGapError), c, failure).phase.Waiting?
      && Failing(after) && L.Enabled(l, L.StepDelivery(after))
  }

  /** The step of the queue with which the server settles the completion it answers next on socket `g`. */
  function Completed(s: Session, g: nat): (step: Option<L.Action>)
    ensures step.Some? ==> L.Enabled(s.listener, step.value)
  {
    var sockets := s.connection.sockets;
    if g < |sockets| && sockets[g].upstream != [] && sockets[g].upstream[0] in s.bodies then
      var body := s.bodies[sockets[g].upstream[0]];
      if L.Enabled(s.listener, L.ServerCompletes(body.0, body.1)) then Some(L.ServerCompletes(body.0, body.1)) else None
    else None
  }

  /** A step of the delivery that changes nothing else, whatever the queue knows. */
  function Deliver(l: L.Listener, step: D.Action): L.Listener
    requires D.Enabled(l.work.delivery, step)
  {
    l.(work := l.work.(delivery := D.Apply(l.work.delivery, step)))
  }

  /** The body goes out, and the exchange fails at once. */
  function SendAndFail(l: L.Listener, after: D.Action): L.Listener
    requires L.Enabled(l, L.StepDelivery(D.Send(0))) && Failing(after) && D.Enabled(l.work.delivery, after)
  {
    Deliver(L.Apply(l, L.StepDelivery(D.Send(0))), after)
  }

  function ListenerAfter(s: Session, a: Action, onGapError: bool): L.Listener
    requires Enabled(s, a, onGapError)
  {
    hide L.Apply, D.Apply, C.Apply, C.Enabled, Free, OffWire, TakesReply;
    var l := s.listener;
    match a
    case Loop(step) => L.Apply(l, step)
    case WriteCompletion => L.Apply(l, L.StepDelivery(D.Send(0)))
    case WriteCompletionFails(sent, after) =>
      if sent then SendAndFail(l, after) else Deliver(l, after)
    case AnswerCompletion(g, _, processed) => if processed then L.Apply(l, Completed(s, g).value) else l
    case TakeReceipt => Deliver(l, D.Receive(0))
    case ExchangeFails(_, after) => Deliver(l, after)
    case _ => l
  }

  function ConnectionAfter(s: Session, a: Action, onGapError: bool): C.Connection
    requires Enabled(s, a, onGapError)
  {
    var c, caller := s.connection, Sdk(onGapError);
    match a
    case Loop(_) => c
    case Wire(move) => C.Apply(caller, c, move)
    case WriteCompletion => C.Apply(caller, c, C.Write)
    case WriteCompletionFails(sent, _) => C.Apply(caller, c, C.WriteFails(sent))
    case AnswerCompletion(g, refusal, _) => C.Apply(caller, c, C.Answer(g, refusal, None))
    case TakeMore => C.Apply(caller, c, C.Take)
    case TakeReceipt => C.Apply(caller, c, C.Take)
    case ExchangeFails(failure, _) => C.Apply(caller, c, failure)
  }

  function BodiesAfter(s: Session, a: Action): map<nat, (nat, bool)> {
    var w := s.listener.work;
    if (a.WriteCompletion? || (a.WriteCompletionFails? && a.sent)) && 0 in w.delivery.calls
    then s.bodies[s.connection.next := (w.current, w.delivery.calls[0].accepted)]
    else s.bodies
  }

  function Apply(s: Session, a: Action, onGapError: bool): Session
    requires Enabled(s, a, onGapError)
  {
    Session(ListenerAfter(s, a, onGapError), ConnectionAfter(s, a, onGapError), BodiesAfter(s, a))
  }

  // ----- What holds in every state -----

  /** The server has recorded the completion of delivery `id`. */
  predicate Done(l: L.Listener, id: nat) {
    id in l.work.leases && l.work.leases[id].state.Completed?
  }

  /** A reply that is not an error frame, to a request that carried a completion, comes after the completion was
      recorded. */
  predicate FrameSound(s: Session, f: C.Frame) {
    f.Reply? ==>
      && f.request < s.connection.next
      && (f.refusal.None? && f.request in s.bodies ==> Done(s.listener, s.bodies[f.request].0))
  }

  ghost predicate SocketSound(s: Session, socket: C.Socket) {
    && (forall f :: f in socket.packets ==> FrameSound(s, f))
    && (forall f :: f in socket.downstream ==> FrameSound(s, f))
    && (forall r :: r in socket.upstream ==> r < s.connection.next)
  }

  ghost predicate FramesSound(s: Session) {
    forall g :: 0 <= g < |s.connection.sockets| ==> SocketSound(s, s.connection.sockets[g])
  }

  ghost predicate BodiesSound(s: Session) {
    forall r :: r in s.bodies ==> r < s.connection.next && s.bodies[r] in s.listener.work.wire
  }

  /** While the loop waits, the connection waits for the request that carried the completion the loop waits for. */
  predicate ExchangeSound(s: Session) {
    Exchanging(s.listener) ==>
      && s.connection.phase.Waiting? && s.connection.phase.request in s.bodies
      && s.bodies[s.connection.phase.request].0 == s.listener.work.current
  }

  ghost predicate Inv(s: Session) {
    && L.Inv(s.listener) && C.Inv(s.connection)
    && FramesSound(s) && BodiesSound(s) && ExchangeSound(s) && LoopWaits(s.listener)
  }

  /** While its call is under way the loop does nothing else. */
  predicate LoopWaits(l: L.Listener) {
    0 in l.work.delivery.calls && !l.work.delivery.calls[0].stage.Answered? ==> l.control.phase.Completing?
  }

  /** The reply that is taken for a receipt is one: the guard of the listener's own system always holds. */
  lemma ReceiptIsEarned(s: Session)
    requires Inv(s) && Enabled(s, TakeReceipt, false)
    ensures Done(s.listener, s.listener.work.current) && L.Enabled(s.listener, L.StepDelivery(D.Receive(0)))
  {
    hide L.Inv, C.Matched, D.Enabled;
    var c := s.connection;
    var socket := c.sockets[c.channel];
    var reply := socket.packets[0];
    C.TakenInOrder(socket);
    assert C.Outstanding(socket) == [c.phase.request] && C.Outstanding(socket)[0] == reply.request;
    assert reply.request == c.phase.request;
    assert SocketSound(s, socket) && reply in socket.packets;
    CurrentHasBegun(s.listener);
  }

  lemma CurrentHasBegun(l: L.Listener)
    requires L.Inv(l) && Exchanging(l) && LoopWaits(l)
    ensures l.work.current in l.work.begun && D.Enabled(l.work.delivery, D.Receive(0))
  {
  }

  // ----- Every step of the session is made of steps of the listener -----

  /** The steps of the listener's own system that a step of the session is made of. */
  function LoopSteps(s: Session, a: Action): seq<L.Action> {
    match a
    case Loop(step) => [step]
    case WriteCompletion => [L.StepDelivery(D.Send(0))]
    case WriteCompletionFails(sent, after) =>
      if sent then [L.StepDelivery(D.Send(0)), L.StepDelivery(after)] else [L.StepDelivery(after)]
    case AnswerCompletion(g, _, processed) => if processed && Completed(s, g).Some? then [Completed(s, g).value] else []
    case TakeReceipt => [L.StepDelivery(D.Receive(0))]
    case ExchangeFails(_, after) => [L.StepDelivery(after)]
    case _ => []
  }

  /** `steps` lead from `l` to `last`. */
  ghost predicate Path(l: L.Listener, steps: seq<L.Action>, last: L.Listener)
    decreases |steps|
  {
    if steps == [] then l == last
    else L.Enabled(l, steps[0]) && Path(L.Apply(l, steps[0]), steps[1..], last)
  }

  lemma OneStepPath(l: L.Listener, step: L.Action)
    requires L.Enabled(l, step)
    ensures Path(l, [step], L.Apply(l, step))
  {
  }

  lemma TwoStepPath(l: L.Listener, one: L.Action, two: L.Action)
    requires L.Enabled(l, one) && L.Enabled(L.Apply(l, one), two)
    ensures Path(l, [one, two], L.Apply(L.Apply(l, one), two))
  {
    OneStepPath(L.Apply(l, one), two);
    assert [one, two][1..] == [two];
  }

  lemma DeliverIsStep(l: L.Listener, step: D.Action)
    requires L.Enabled(l, L.StepDelivery(step)) && !step.Send?
    ensures Deliver(l, step) == L.Apply(l, L.StepDelivery(step))
  {
    hide D.Apply, D.Enabled;
  }

  /** After the body went out the exchange can still fail as it could before. */
  lemma FailAfterSend(l: L.Listener, after: D.Action)
    requires L.Enabled(l, L.StepDelivery(D.Send(0))) && Failing(after) && L.Enabled(l, L.StepDelivery(after))
    ensures L.Enabled(L.Apply(l, L.StepDelivery(D.Send(0))), L.StepDelivery(after))
  {
  }

  lemma StepsSimulate(s: Session, a: Action, onGapError: bool)
    requires Inv(s) && Enabled(s, a, onGapError)
    ensures Path(s.listener, LoopSteps(s, a), ListenerAfter(s, a, onGapError))
  {
    var l := s.listener;
    if a.TakeReceipt? {
      ReceiptIsEarned(s);
    }
    hide Inv, L.Apply, L.Enabled, D.Apply, D.Enabled, C.Apply, C.Enabled, Free, OffWire, TakesReply, Path, Exchanging;
    match a
    case Loop(step) => OneStepPath(l, step);
    case WriteCompletion => OneStepPath(l, L.StepDelivery(D.Send(0)));
    case WriteCompletionFails(sent, after) =>
      if sent {
        FailAfterSend(l, after);
        DeliverIsStep(L.Apply(l, L.StepDelivery(D.Send(0))), after);
        TwoStepPath(l, L.StepDelivery(D.Send(0)), L.StepDelivery(after));
      } else {
        DeliverIsStep(l, after);
        OneStepPath(l, L.StepDelivery(after));
      }
    case AnswerCompletion(g, _, processed) =>
      if processed {
        OneStepPath(l, Completed(s, g).value);
      } else {
        NoPath(l);
      }
    case TakeReceipt =>
      DeliverIsStep(l, D.Receive(0));
      OneStepPath(l, L.StepDelivery(D.Receive(0)));
    case ExchangeFails(_, after) =>
      DeliverIsStep(l, after);
      OneStepPath(l, L.StepDelivery(after));
    case _ => NoPath(l);
  }

  lemma NoPath(l: L.Listener)
    ensures Path(l, [], l)
  {
  }

  // ----- What the listener's steps keep -----

  /** What has been recorded and written stays so. */
  ghost predicate Later(l: L.Listener, m: L.Listener) {
    (forall id: nat :: Done(l, id) ==> Done(m, id)) && l.work.wire <= m.work.wire
  }

  lemma StepIsLater(l: L.Listener, step: L.Action)
    requires L.Enabled(l, step)
    ensures Later(l, L.Apply(l, step))
  {
    hide D.Apply, D.Enabled, L.ApplyControl;
  }

  lemma DeliveryStepWaits(l: L.Listener, step: D.Action)
    requires LoopWaits(l) && L.Enabled(l, L.StepDelivery(step))
    ensures LoopWaits(L.Apply(l, L.StepDelivery(step)))
  {
    L.CallKept(l.work.delivery, step, 0);
    if 0 in l.work.delivery.calls {
      D.CallStepGrows(l.work.delivery, step, 0);
    }
    hide D.Apply, D.Enabled;
  }

  lemma LoopWaitsKept(l: L.Listener, step: L.Action)
    requires L.Inv(l) && LoopWaits(l) && L.Enabled(l, step)
    ensures LoopWaits(L.Apply(l, step))
  {
    if step.StepDelivery? {
      DeliveryStepWaits(l, step.step);
    } else {
      hide D.Enabled, D.Inv, L.ReceiptInv, L.QueueInv, L.DropInv, L.ControlInv;
    }
  }

  lemma {:induction false} PathKeeps(l: L.Listener, steps: seq<L.Action>, last: L.Listener)
    requires L.Inv(l) && LoopWaits(l) && Path(l, steps, last)
    ensures L.Inv(last) && LoopWaits(last) && Later(l, last)
    decreases |steps|
  {
    hide L.Inv, L.Apply, L.Enabled, LoopWaits, Done;
    if steps != [] {
      L.InvPreserved(l, steps[0]);
      LoopWaitsKept(l, steps[0]);
      StepIsLater(l, steps[0]);
      PathKeeps(L.Apply(l, steps[0]), steps[1..], last);
    }
  }

  // ----- What the connection's steps keep -----

  /** The step of the connection that a step of the session contains. */
  function ConnectionMove(a: Action): Option<C.Action> {
    match a
    case Loop(_) => None
    case Wire(move) => Some(move)
    case WriteCompletion => Some(C.Write)
    case WriteCompletionFails(sent, _) => Some(C.WriteFails(sent))
    case AnswerCompletion(g, refusal, _) => Some(C.Answer(g, refusal, None))
    case TakeMore => Some(C.Take)
    case TakeReceipt => Some(C.Take)
    case ExchangeFails(failure, _) => Some(failure)
  }

  lemma ConnectionMoves(s: Session, a: Action, onGapError: bool)
    requires Enabled(s, a, onGapError)
    ensures ConnectionMove(a).None? ==> ConnectionAfter(s, a, onGapError) == s.connection
    ensures ConnectionMove(a).Some? ==>
              && C.Enabled(s.connection, ConnectionMove(a).value)
              && ConnectionAfter(s, a, onGapError) == C.Apply(Sdk(onGapError), s.connection, ConnectionMove(a).value)
  {
    hide C.Apply, L.Enabled;
  }

  lemma SdkGivesUp(onGapError: bool)
    ensures C.GivesUpAfterUpdate(Sdk(onGapError))
  {
  }

  lemma ConnectionInvPreserved(s: Session, a: Action, onGapError: bool)
    requires C.Inv(s.connection) && Enabled(s, a, onGapError)
    ensures C.Inv(ConnectionAfter(s, a, onGapError))
  {
    hide C.Inv, C.Apply, C.Enabled, ConnectionAfter, Enabled;
    ConnectionMoves(s, a, onGapError);
    SdkGivesUp(onGapError);
    if ConnectionMove(a).Some? {
      C.InvPreserved(Sdk(onGapError), s.connection, ConnectionMove(a).value);
    }
  }

  /** A frame that was sound stays so when the listener has gone on and the next request has been given a body. */
  lemma FrameStaysSound(s: Session, t: Session, f: C.Frame)
    requires FrameSound(s, f) && Later(s.listener, t.listener) && s.connection.next <= t.connection.next
    requires forall r :: r in t.bodies && r < s.connection.next ==> r in s.bodies && t.bodies[r] == s.bodies[r]
    ensures FrameSound(t, f)
  {
    hide Done;
  }

  lemma NoReplyIsSound(s: Session, f: C.Frame)
    requires !f.Reply?
    ensures FrameSound(s, f)
  {
  }

  /** The answer to a completion comes after the completion was recorded, and other answers are to requests without a
      body. */
  lemma AnswerIsSound(s: Session, a: Action, onGapError: bool)
    requires FramesSound(s) && Enabled(s, a, onGapError)
    requires ConnectionMove(a).Some? && ConnectionMove(a).value.Answer?
    ensures var answer := ConnectionMove(a).value;
            && answer.g < |s.connection.sockets| && s.connection.sockets[answer.g].upstream != []
            && var request := s.connection.sockets[answer.g].upstream[0];
               FrameSound(Apply(s, a, onGapError), C.Reply(request, answer.refusal, answer.event))
  {
    var answer := ConnectionMove(a).value;
    var socket := s.connection.sockets[answer.g];
    assert SocketSound(s, socket) && socket.upstream[0] in socket.upstream;
    C.RequestsGrow(Sdk(onGapError), s.connection, answer);
    ConnectionMoves(s, a, onGapError);
    hide C.Apply, D.Apply, D.Enabled, L.ApplyControl, Deliver, SocketSound;
  }

  lemma BodiesGrow(s: Session, a: Action, onGapError: bool)
    requires Enabled(s, a, onGapError)
    ensures s.connection.next <= Apply(s, a, onGapError).connection.next
    ensures forall r :: r in BodiesAfter(s, a) && r < s.connection.next ==>
              r in s.bodies && BodiesAfter(s, a)[r] == s.bodies[r]
  {
    ConnectionMoves(s, a, onGapError);
    if ConnectionMove(a).Some? {
      C.RequestsGrow(Sdk(onGapError), s.connection, ConnectionMove(a).value);
    }
    hide C.Apply, C.Enabled, L.Enabled, L.Apply, D.Apply, D.Enabled;
  }

  lemma SocketStaysSound(s: Session, a: Action, onGapError: bool, g: nat)
    requires FramesSound(s) && Enabled(s, a, onGapError) && Later(s.listener, ListenerAfter(s, a, onGapError))
    requires ConnectionMove(a).Some? && g < |s.connection.sockets|
    ensures g < |Apply(s, a, onGapError).connection.sockets|
    ensures SocketSound(Apply(s, a, onGapError), Apply(s, a, onGapError).connection.sockets[g])
  {
    var t, move, before := Apply(s, a, onGapError), ConnectionMove(a).value, s.connection.sockets[g];
    ConnectionMoves(s, a, onGapError);
    BodiesGrow(s, a, onGapError);
    C.SocketSteps(Sdk(onGapError), s.connection, move, g);
    C.RequestsGrow(Sdk(onGapError), s.connection, move);
    if move.Answer? {
      AnswerIsSound(s, a, onGapError);
    }
    hide Later, ListenerAfter, BodiesAfter, C.Apply, Enabled, C.Enabled, FrameSound;
    assert SocketSound(s, before);
    var socket := t.connection.sockets[g];
    forall f | f in before.packets || f in before.downstream ensures FrameSound(t, f) {
      FrameStaysSound(s, t, f);
    }
    forall f: C.Frame | !f.Reply? ensures FrameSound(t, f) {
      NoReplyIsSound(t, f);
    }
  }

  lemma FramesPreserved(s: Session, a: Action, onGapError: bool)
    requires FramesSound(s) && Enabled(s, a, onGapError) && Later(s.listener, ListenerAfter(s, a, onGapError))
    ensures FramesSound(Apply(s, a, onGapError))
  {
    hide C.Apply, C.Enabled, Enabled, Later, SocketSound, ListenerAfter, BodiesAfter, ConnectionAfter;
    var t := Apply(s, a, onGapError);
    ConnectionMoves(s, a, onGapError);
    forall g | 0 <= g < |t.connection.sockets| ensures SocketSound(t, t.connection.sockets[g]) {
      if ConnectionMove(a).None? {
        LoopKeepsSocket(s, a, onGapError, g);
      } else if g < |s.connection.sockets| {
        SocketStaysSound(s, a, onGapError, g);
      } else {
        C.NewSocketIsEmpty(Sdk(onGapError), s.connection, ConnectionMove(a).value, g);
        EmptySocketIsSound(t);
      }
    }
  }

  lemma EmptySocketIsSound(s: Session)
    ensures SocketSound(s, C.Socket(true, true, [], [], []))
  {
  }

  lemma LoopKeepsSocket(s: Session, a: Action, onGapError: bool, g: nat)
    requires FramesSound(s) && Enabled(s, a, onGapError) && Later(s.listener, ListenerAfter(s, a, onGapError))
    requires ConnectionMove(a).None? && g < |s.connection.sockets|
    ensures SocketSound(Apply(s, a, onGapError), s.connection.sockets[g])
  {
    var t, socket := Apply(s, a, onGapError), s.connection.sockets[g];
    BodiesGrow(s, a, onGapError);
    hide Later, ListenerAfter, BodiesAfter, ConnectionAfter, Enabled, FrameSound;
    assert SocketSound(s, socket);
    forall f | f in socket.packets || f in socket.downstream ensures FrameSound(t, f) {
      FrameStaysSound(s, t, f);
    }
  }

  /** A body goes onto the listener's wire and the connection's together. */
  lemma BodiesPreserved(s: Session, a: Action, onGapError: bool)
    requires BodiesSound(s) && Enabled(s, a, onGapError) && Later(s.listener, ListenerAfter(s, a, onGapError))
    ensures BodiesSound(Apply(s, a, onGapError))
  {
    BodiesGrow(s, a, onGapError);
    if a.WriteCompletion? || (a.WriteCompletionFails? && a.sent) {
      BodyIsWritten(s, a, onGapError);
    }
    hide ListenerAfter, ConnectionAfter, Enabled, Done;
  }

  lemma BodyIsWritten(s: Session, a: Action, onGapError: bool)
    requires Enabled(s, a, onGapError) && (a.WriteCompletion? || (a.WriteCompletionFails? && a.sent))
    ensures ConnectionAfter(s, a, onGapError).next == s.connection.next + 1
    ensures 0 in s.listener.work.delivery.calls
    ensures var work := s.listener.work;
            (work.current, work.delivery.calls[0].accepted) in ListenerAfter(s, a, onGapError).work.wire
  {
    ConnectionMoves(s, a, onGapError);
    C.RequestsGrow(Sdk(onGapError), s.connection, ConnectionMove(a).value);
    hide C.Apply, C.Enabled, D.Apply, L.ApplyControl;
  }

  /** A step of the loop off the wire neither begins an exchange nor changes the delivery one is for. */
  lemma LoopKeepsExchange(l: L.Listener, step: L.Action)
    requires L.Inv(l) && LoopWaits(l) && L.Enabled(l, step) && OffWire(l, step) && Exchanging(L.Apply(l, step))
    ensures Exchanging(l) && L.Apply(l, step).work.current == l.work.current
  {
    if step.StepDelivery? {
      NoOtherWaits(l.work.delivery, step.step);
    }
    hide D.Apply, D.Enabled, D.Inv, L.ReceiptInv, L.QueueInv, L.DropInv, L.ControlInv, L.ApplyControl;
  }

  lemma NoOtherWaits(d: D.Delivery, step: D.Action)
    requires D.Enabled(d, step) && !step.Send? && !step.Arrive? && D.At(D.Apply(d, step), 0, D.Awaiting)
    ensures D.At(d, 0, D.Awaiting)
  {
  }

  /** An exchange that ends leaves the loop no longer waiting. */
  lemma EndsExchange(l: L.Listener, step: D.Action)
    requires D.Enabled(l.work.delivery, step) && (Failing(step) || step == D.Receive(0))
    ensures !Exchanging(Deliver(l, step))
  {
  }

  lemma ExchangePreserved(s: Session, a: Action, onGapError: bool)
    requires Inv(s) && Enabled(s, a, onGapError)
    ensures ExchangeSound(Apply(s, a, onGapError))
  {
    hide Inv, Enabled, Apply, ExchangeSound;
    if a.Loop? {
      LoopExchangePreserved(s, a.step, onGapError);
    } else if a.WriteCompletion? {
      WrittenExchange(s, onGapError);
    } else if a.TakeReceipt? || a.ExchangeFails? || a.WriteCompletionFails? {
      EndedExchange(s, a, onGapError);
    } else {
      QuietExchange(s, a, onGapError);
    }
  }

  lemma EndedExchange(s: Session, a: Action, onGapError: bool)
    requires Enabled(s, a, onGapError) && (a.TakeReceipt? || a.ExchangeFails? || a.WriteCompletionFails?)
    ensures ExchangeSound(Apply(s, a, onGapError))
  {
    ExchangeIsOver(s, a, onGapError);
    hide Enabled, ListenerAfter, ConnectionAfter, BodiesAfter, Exchanging;
  }

  lemma ExchangeIsOver(s: Session, a: Action, onGapError: bool)
    requires Enabled(s, a, onGapError) && (a.TakeReceipt? || a.ExchangeFails? || a.WriteCompletionFails?)
    ensures !Exchanging(ListenerAfter(s, a, onGapError))
  {
    if a.TakeReceipt? {
      EndsExchange(s.listener, D.Receive(0));
    } else {
      EndsExchange(s.listener, a.after);
      if a.WriteCompletionFails? {
        FailedWriteEnds(s.listener, a.after);
      }
    }
    hide Deliver, SendAndFail, Exchanging, C.Apply, C.Enabled, D.Apply, L.Apply, TakesReply;
  }

  lemma LoopExchangePreserved(s: Session, step: L.Action, onGapError: bool)
    requires Inv(s) && Enabled(s, Loop(step), onGapError)
    ensures ExchangeSound(Apply(s, Loop(step), onGapError))
  {
    var l := s.listener;
    if Exchanging(L.Apply(l, step)) {
      LoopKeepsExchange(l, step);
    }
    hide L.Apply, L.Inv, C.Inv, Exchanging, FramesSound, BodiesSound, LoopWaits, OffWire, L.Enabled;
  }

  lemma FailedWriteEnds(l: L.Listener, after: D.Action)
    requires L.Enabled(l, L.StepDelivery(D.Send(0))) && Failing(after) && L.Enabled(l, L.StepDelivery(after))
    ensures !Exchanging(SendAndFail(l, after))
  {
    FailAfterSend(l, after);
    EndsExchange(L.Apply(l, L.StepDelivery(D.Send(0))), after);
    hide L.Apply, D.Apply, Exchanging, D.Enabled;
  }

  lemma WrittenExchange(s: Session, onGapError: bool)
    requires Inv(s) && Enabled(s, WriteCompletion, onGapError)
    ensures ExchangeSound(Apply(s, WriteCompletion, onGapError))
  {
    hide D.Apply, L.Inv, C.Inv, FramesSound, BodiesSound, LoopWaits, C.WriteOn;
  }

  /** Steps that leave an exchange under way as it is: of the server, of the readers, and taking a frame that is no
      reply. */
  lemma QuietExchange(s: Session, a: Action, onGapError: bool)
    requires Inv(s) && Enabled(s, a, onGapError) && (a.Wire? || a.AnswerCompletion? || a.TakeMore?)
    ensures ExchangeSound(Apply(s, a, onGapError))
  {
    hide D.Apply, D.Enabled, L.Inv, C.Inv, FramesSound, BodiesSound, LoopWaits, C.Handle, C.AnswerOn, L.ApplyControl;
  }

  lemma InvPreserved(s: Session, a: Action, onGapError: bool)
    requires Inv(s) && Enabled(s, a, onGapError)
    ensures Inv(Apply(s, a, onGapError))
  {
    StepsSimulate(s, a, onGapError);
    ExchangePreserved(s, a, onGapError);
    hide L.Inv, C.Inv, FramesSound, BodiesSound, ExchangeSound, LoopWaits, Later, ListenerAfter, ConnectionAfter,
         BodiesAfter, Enabled, Path;
    PathKeeps(s.listener, LoopSteps(s, a), ListenerAfter(s, a, onGapError));
    ConnectionInvPreserved(s, a, onGapError);
    FramesPreserved(s, a, onGapError);
    BodiesPreserved(s, a, onGapError);
  }

  // ----- Runs -----

  ghost predicate IsRun(states: seq<Session>, acts: seq<Action>, onGapError: bool) {
    && |states| == |acts| + 1
    && states[0] == START
    && forall k :: 0 <= k < |acts| ==>
        Enabled(states[k], acts[k], onGapError) && states[k + 1] == Apply(states[k], acts[k], onGapError)
  }

  lemma {:induction false} RunInv(states: seq<Session>, acts: seq<Action>, onGapError: bool, k: nat)
    requires IsRun(states, acts, onGapError) && k < |states|
    ensures Inv(states[k])
  {
    if k == 0 {
      StartIsSound();
    } else {
      RunInv(states, acts, onGapError, k - 1);
      hide Inv, Apply, Enabled;
      InvPreserved(states[k - 1], acts[k - 1], onGapError);
    }
  }

  lemma StartIsSound()
    ensures Inv(START)
  {
  }

  /** Whenever the loop takes a reply for the receipt of its completion, the queue has recorded that very completion:
      what the listener's own system demands of a receipt always holds. */
  lemma ReceiptsAreReal(states: seq<Session>, acts: seq<Action>, onGapError: bool, k: nat)
    requires IsRun(states, acts, onGapError) && k < |acts| && acts[k].TakeReceipt?
    ensures var l := states[k].listener;
            && L.Enabled(l, L.StepDelivery(D.Receive(0)))
            && states[k + 1].listener == L.Apply(l, L.StepDelivery(D.Receive(0)))
  {
    RunInv(states, acts, onGapError, k);
    hide Inv, L.Apply, D.Apply, C.Apply;
    ReceiptIsEarned(states[k]);
    DeliverIsStep(states[k].listener, D.Receive(0));
  }

  /** Every run of listener and connection together is a run of the listener alone, so all that is proved of its runs
      holds. */
  lemma {:induction false} ListenerRuns(states: seq<Session>, acts: seq<Action>, onGapError: bool, k: nat)
    returns (ls: seq<L.Listener>, steps: seq<L.Action>)
    requires IsRun(states, acts, onGapError) && k < |states|
    ensures L.IsRun(ls, steps) && ls[|steps|] == states[k].listener
  {
    if k == 0 {
      ls, steps := [L.START], [];
    } else {
      ls, steps := ListenerRuns(states, acts, onGapError, k - 1);
      RunInv(states, acts, onGapError, k - 1);
      StepsSimulate(states[k - 1], acts[k - 1], onGapError);
      hide Inv, L.Apply, L.Enabled, Apply, Enabled, Path, L.IsRun;
      ls, steps := RunOn(ls, steps, LoopSteps(states[k - 1], acts[k - 1]), states[k].listener);
    }
  }

  lemma {:induction false} RunOn(ls: seq<L.Listener>, steps: seq<L.Action>, more: seq<L.Action>, last: L.Listener)
    returns (ms: seq<L.Listener>, all: seq<L.Action>)
    requires L.IsRun(ls, steps) && Path(ls[|steps|], more, last)
    ensures L.IsRun(ms, all) && ms[|all|] == last
    decreases |more|
  {
    hide L.Apply, L.Enabled;
    if more == [] {
      ms, all := ls, steps;
    } else {
      ms, all := RunOn(ls + [L.Apply(ls[|steps|], more[0])], steps + [more[0]], more[1..], last);
    }
  }

  /** Composed with the connection, an `Ack` or `Retry` of the loop that returns nil means that the queue has recorded
      the same outcome, and has dropped the event if it was accepted. */
  lemma AckedMeansRecorded(states: seq<Session>, acts: seq<Action>, onGapError: bool, k: nat)
    requires IsRun(states, acts, onGapError) && k < |states| && L.CompletionAnswered(states[k].listener.work)
    requires states[k].listener.work.delivery.calls[0].stage.answer == D.Stored(D.Completed)
    ensures var w := states[k].listener.work;
            && w.current in w.leases && w.leases[w.current].state == L.Completed(w.delivery.calls[0].accepted)
            && (w.delivery.calls[0].accepted ==> w.leases[w.current].event in w.dropped)
            && w.current in w.results && w.results[w.current] == w.delivery.calls[0].accepted
  {
    var ls, steps := ListenerRuns(states, acts, onGapError, k);
    hide L.Apply, L.Enabled;
    L.AckedMeansSettled(ls, steps, |steps|);
    L.RunInv(ls, steps, |steps|);
  }
}
