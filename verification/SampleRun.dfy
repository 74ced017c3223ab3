/**
 One whole run of a listener with its connection: it connects, receives an event, handles it, and its `Ack`
 returns nil. What is proved of receipts therefore speaks of runs that exist.
 */
module SampleRun {
  import opened Outcomes
  import C = Connections
  import D = Deliveries
  import L = Listeners
  import Se = Sessions

  /** What a run of listener and connection can come to. */
  ghost predicate Reached(s: Se.Session, onGapError: bool) {
    exists states: seq<Se.Session>, acts: seq<Se.Action> ::
      Se.IsRun(states, acts, onGapError) && states[|acts|] == s
  }

  lemma Begin(onGapError: bool)
    ensures Reached(Se.START, onGapError)
  {
    assert Se.IsRun([Se.START], [], onGapError);
  }

  lemma Step(s: Se.Session, a: Se.Action, onGapError: bool)
    requires Reached(s, onGapError) && Se.Enabled(s, a, onGapError)
    ensures Reached(Se.Apply(s, a, onGapError), onGapError)
  {
    hide Se.Apply, Se.Enabled;
    var states: seq<Se.Session>, acts: seq<Se.Action> :| Se.IsRun(states, acts, onGapError) && states[|acts|] == s;
    var longer, more := states + [Se.Apply(s, a, onGapError)], acts + [a];
    assert Se.IsRun(longer, more, onGapError) && longer[|more|] == Se.Apply(s, a, onGapError);
  }

  lemma Wired(s: Se.Session, move: C.Action, c: C.Connection, onGapError: bool)
    requires Reached(s, onGapError) && C.Enabled(s.connection, move) && Se.Free(s, move)
    requires C.Apply(Se.Sdk(onGapError), s.connection, move) == c
    ensures Reached(s.(connection := c), onGapError)
  {
    hide Reached, C.Apply, C.Enabled, Se.Free;
    Step(s, Se.Wire(move), onGapError);
    assert Se.Apply(s, Se.Wire(move), onGapError) == s.(connection := c);
  }

  /** One step of the loop, the handler or the delivery, off the wire. */
  predicate Goes(l: L.Listener, step: L.Action, to: L.Listener) {
    L.Enabled(l, step) && Se.OffWire(l, step) && L.Apply(l, step) == to
  }

  lemma Looped(s: Se.Session, step: L.Action, to: L.Listener, onGapError: bool)
    requires Reached(s, onGapError) && Goes(s.listener, step, to)
    ensures Reached(s.(listener := to), onGapError)
  {
    hide Reached, L.Apply, L.Enabled, Se.OffWire;
    Step(s, Se.Loop(step), onGapError);
    assert Se.Apply(s, Se.Loop(step), onGapError) == s.(listener := to);
  }

  function Socket(upstream: seq<nat>, downstream: seq<C.Frame>, packets: seq<C.Frame>): C.Socket {
    C.Socket(true, true, upstream, downstream, packets)
  }

  function Reply(request: nat): C.Frame {
    C.Reply(request, None, None)
  }

  const QUIET := Socket([], [], [])

  /** The one socket while it is being opened, and afterwards. */
  function Opening(phase: C.Phase, socket: C.Socket, next: nat): C.Connection {
    C.Connection([socket], Some(0), 0, next, phase, true, -1, [])
  }

  function Open(phase: C.Phase, socket: C.Socket, next: nat, answers: seq<(nat, nat)>): C.Connection {
    C.Connection([socket], Some(0), 0, next, phase, false, -1, answers)
  }

  const CONNECTED := Se.Session(L.START, Open(C.Idle, QUIET, 1, [(0, 0)]), map[])

  lemma OneByOne()
    ensures C.WriteOn(QUIET, 0) == Socket([0], [], []) && C.WriteOn(QUIET, 1) == Socket([1], [], [])
    ensures forall r: nat :: C.AnswerOn(Socket([r], [], []), None, None) == Socket([], [Reply(r)], [])
    ensures forall r: nat :: C.ReadNext(Socket([], [Reply(r)], [])) == Socket([], [], [Reply(r)])
    ensures forall r: nat :: C.TakeFrom(Socket([], [], [Reply(r)])) == QUIET
    ensures forall a: C.Socket, b: C.Socket :: [a][0 := b] == [b]
    ensures [] + [(0, 0)] == [(0, 0)]
  {
  }

  lemma SocketOpens(onGapError: bool)
    ensures var caller := Se.Sdk(onGapError);
            var c1, c2 := Opening(C.Idle, QUIET, 0), Opening(C.Loaded(0), QUIET, 0);
            && C.Enabled(C.START, C.Dial) && C.Apply(caller, C.START, C.Dial) == c1
            && C.Enabled(c1, C.Load) && C.Apply(caller, c1, C.Load) == c2
            && C.Enabled(c2, C.Write) && C.Apply(caller, c2, C.Write)
               == Opening(C.Waiting(0, 0), Socket([0], [], []), 1)
  {
    OneByOne();
  }

  lemma ReplyComes(onGapError: bool, c: C.Connection, r: nat)
    requires c.phase == C.Waiting(0, r) && c.channel == 0 && c.sockets == [Socket([r], [], [])]
    ensures var caller, answer := Se.Sdk(onGapError), C.Answer(0, None, None);
            var c1, c2 := c.(sockets := [Socket([], [Reply(r)], [])]), c.(sockets := [Socket([], [], [Reply(r)])]);
            && C.Enabled(c, answer) && C.Apply(caller, c, answer) == c1
            && C.Enabled(c1, C.Read(0)) && C.Apply(caller, c1, C.Read(0)) == c2
            && C.Enabled(c2, C.Take)
            && C.Apply(caller, c2, C.Take)
               == c.(sockets := [QUIET], phase := C.Idle, opening := false, answers := c.answers + [(r, r)])
  {
    OneByOne();
    hide C.WriteOn, C.AnswerOn, C.ReadNext, C.TakeFrom;
  }

  lemma Connects(onGapError: bool)
    ensures Reached(CONNECTED, onGapError)
  {
    hide Reached;
    Begin(onGapError);
    SocketOpens(onGapError);
    var c1, c2 := Opening(C.Idle, QUIET, 0), Opening(C.Loaded(0), QUIET, 0);
    var c3 := Opening(C.Waiting(0, 0), Socket([0], [], []), 1);
    ReplyComes(onGapError, c3, 0);
    OneByOne();
    hide C.Apply, C.Enabled, Socket, Reply, QUIET;
    Wired(Se.START, C.Dial, c1, onGapError);
    Wired(Se.START.(connection := c1), C.Load, c2, onGapError);
    Wired(Se.START.(connection := c2), C.Write, c3, onGapError);
    var c4 := c3.(sockets := [Socket([], [Reply(0)], [])]);
    Wired(Se.START.(connection := c3), C.Answer(0, None, None), c4, onGapError);
    var c5 := c3.(sockets := [Socket([], [], [Reply(0)])]);
    Wired(Se.START.(connection := c4), C.Read(0), c5, onGapError);
    Wired(Se.START.(connection := c5), C.Take, CONNECTED.connection, onGapError);
  }

  /** The loop before `Close` and with its parent alive. */
  function Calm(phase: L.Phase, stored: bool, cancelled: bool, work: L.Work): L.Listener {
    L.Listener(L.Control(phase, L.NotBegun, stored, cancelled, false, 0), work)
  }

  /** Delivery 7, of event 3, whose handler has begun. */
  function Handling(d: D.Delivery, results: map<nat, bool>, wire: set<(nat, bool)>, lease: L.LeaseState): L.Work {
    L.Work(7, d, {7}, results, wire, map[7 := L.Lease(3, lease)], if lease == L.Completed(true) then {3} else {})
  }

  /** Delivery `id` of `event` has been received and handed to its handler. */
  function Begun(w: L.Work, id: nat, event: nat): L.Work {
    w.(leases := w.leases[id := L.Lease(event, L.Out)], current := id, delivery := D.FRESH, begun := w.begun + {id})
  }

  lemma Receives(cancelled: bool, w: L.Work)
    returns (l1: L.Listener, l2: L.Listener, l3: L.Listener, l4: L.Listener)
    ensures Goes(Calm(L.Top, false, cancelled, w), L.Look, l1) && Goes(l1, L.TakeLock, l2)
    ensures Goes(l2, L.ExamineStop, l3) && Goes(l3, L.Unlock, l4)
    ensures Goes(l4, L.CheckReceive, Calm(L.InFlight, true, false, w))
  {
    l1, l2 := Calm(L.Locking, false, false, w), Calm(L.Storing(false), true, false, w);
    l3, l4 := Calm(L.Storing(true), true, false, w), Calm(L.Checking, true, false, w);
  }

  lemma HandsOver(w: L.Work, id: nat, event: nat) returns (l6: L.Listener, l7: L.Listener)
    requires id !in w.leases && event !in w.dropped
    ensures Goes(Calm(L.InFlight, true, false, w), L.ReceiveDelivery(id, event), l6) && Goes(l6, L.ClearCancel, l7)
    ensures Goes(l7, L.Dispatch, Calm(L.Selecting, false, true, Begun(w, id, event)))
  {
    var out, fetch := w.(leases := w.leases[id := L.Lease(event, L.Out)]), L.Fetched(Some(id));
    l6, l7 := Calm(L.Returned(fetch), true, false, out), Calm(L.Cleared(fetch), false, true, out);
    hide D.Apply, D.Enabled;
  }

  /** From the top of the loop to a handler that has begun. */
  lemma EventArrives(s: Se.Session, cancelled: bool, w: L.Work, id: nat, event: nat, onGapError: bool)
    requires Reached(s, onGapError) && s.listener == Calm(L.Top, false, cancelled, w)
    requires id !in w.leases && event !in w.dropped
    ensures Reached(s.(listener := Calm(L.Selecting, false, true, Begun(w, id, event))), onGapError)
  {
    var l1, l2, l3, l4 := Receives(cancelled, w);
    var l6, l7 := HandsOver(w, id, event);
    var l5 := Calm(L.InFlight, true, false, w);
    hide Reached, Goes, Begun;
    Looped(s, L.Look, l1, onGapError);
    Looped(s.(listener := l1), L.TakeLock, l2, onGapError);
    Looped(s.(listener := l2), L.ExamineStop, l3, onGapError);
    Looped(s.(listener := l3), L.Unlock, l4, onGapError);
    Looped(s.(listener := l4), L.CheckReceive, l5, onGapError);
    Looped(s.(listener := l5), L.ReceiveDelivery(id, event), l6, onGapError);
    Looped(s.(listener := l6), L.ClearCancel, l7, onGapError);
    Looped(s.(listener := l7), L.Dispatch, Calm(L.Selecting, false, true, Begun(w, id, event)), onGapError);
  }

  /** Call 0 of `Ack`, the only one. */
  function Acking(stage: D.Stage): D.Delivery {
    D.FRESH.(calls := map[0 := D.Call(true, stage)])
  }

  function Chosen(stage: D.Stage, bodies: seq<bool>): D.Delivery {
    Acking(stage).(chosen := Some(true), timer := D.Stopped, bodies := bodies)
  }

  function Acknowledging(d: D.Delivery, wire: set<(nat, bool)>, lease: L.LeaseState): L.Listener {
    Calm(L.Completing, false, true, Handling(d, map[7 := true], wire, lease))
  }

  lemma OneCall(d: D.Delivery, before: D.Stage, stage: D.Stage)
    requires d.calls == map[0 := D.Call(true, before)]
    ensures D.Move(d, 0, stage) == d.(calls := map[0 := D.Call(true, stage)])
  {
  }

  lemma FirstBegun()
    ensures L.START == Calm(L.Top, false, false, L.START.work)
    ensures Begun(L.START.work, 7, 3) == Handling(D.FRESH, map[], {}, L.Out)
  {
    assert L.START.work.leases[7 := L.Lease(3, L.Out)] == map[7 := L.Lease(3, L.Out)];
    assert {} + {7} == {7};
  }

  lemma HandlerReturns()
    ensures var l := Calm(L.Selecting, false, true, Handling(D.FRESH, map[], {}, L.Out));
            Goes(l, L.HandlerReturns(7, true), Returned())
  {
    assert map[][7 := true] == map[7 := true];
    hide D.Apply;
  }

  /** The handler of delivery 7 has returned nil. */
  function Returned(): L.Listener {
    Calm(L.Selecting, false, true, Handling(D.FRESH, map[7 := true], {}, L.Out))
  }

  lemma LoopSettles()
    ensures Goes(Returned(), L.Settle, Acknowledging(Acking(D.Entering), {}, L.Out))
  {
    assert D.FRESH.calls[0 := D.Call(true, D.Entering)] == map[0 := D.Call(true, D.Entering)];
    assert D.Apply(D.FRESH, D.Arrive(0, true)) == Acking(D.Entering);
    hide D.Apply;
  }

  /** A step of the delivery that has nothing to do with the wire. */
  lemma Delivered(d: D.Delivery, step: D.Action, to: D.Delivery, wire: set<(nat, bool)>, lease: L.LeaseState)
    requires D.Enabled(d, step) && D.Apply(d, step) == to
    requires !step.Arrive? && !step.EndParent? && !step.Send? && !step.Receive? && !Se.Failing(step)
    ensures Goes(Acknowledging(d, wire, lease), L.StepDelivery(step), Acknowledging(to, wire, lease))
  {
    hide D.Apply, D.Enabled;
  }

  lemma AckBegins()
    ensures var d1, d2, d3 := Acking(D.Entering), Chosen(D.Retrying, []), Chosen(D.Attempting, []);
            && D.Enabled(d1, D.Enter(0)) && D.Apply(d1, D.Enter(0)) == d2
            && D.Enabled(d2, D.Check(0)) && D.Apply(d2, D.Check(0)) == d3
            && D.Enabled(d3, D.Send(0)) && D.Apply(d3, D.Send(0)) == Chosen(D.Awaiting, [true])
  {
    OneCall(Acking(D.Entering), D.Entering, D.Retrying);
    OneCall(Chosen(D.Retrying, []), D.Retrying, D.Attempting);
    OneCall(Chosen(D.Attempting, []), D.Attempting, D.Awaiting);
    assert [] + [true] == [true];
    hide D.Move;
  }

  function Called(d: D.Delivery, stage: D.Stage): D.Delivery {
    d.(calls := map[0 := D.Call(true, stage)])
  }

  lemma Stores(d: D.Delivery, r: D.Receipt)
    requires d.calls == map[0 := D.Call(true, D.Finishing(r))]
    ensures D.Enabled(d, D.Store(0)) && D.Apply(d, D.Store(0)) == Called(d, D.Signalling(r)).(err := Some(r))
  {
    OneCall(d, D.Finishing(r), D.Signalling(r));
    hide D.Move;
  }

  lemma Signals(d: D.Delivery, r: D.Receipt)
    requires d.calls == map[0 := D.Call(true, D.Signalling(r))]
    ensures D.Enabled(d, D.Signal(0)) && D.Apply(d, D.Signal(0)) == Called(d, D.Cancelling(r)).(done := true)
  {
    OneCall(d, D.Signalling(r), D.Cancelling(r));
    hide D.Move;
  }

  lemma Cancels(d: D.Delivery, r: D.Receipt)
    requires d.calls == map[0 := D.Call(true, D.Cancelling(r))] && d.context.None?
    ensures D.Enabled(d, D.Cancel(0))
    ensures D.Apply(d, D.Cancel(0)) == Called(d, D.Releasing(r)).(context := Some(D.Canceled))
  {
    OneCall(d, D.Cancelling(r), D.Releasing(r));
    hide D.Move;
  }

  lemma Releases(d: D.Delivery)
    requires d.release.Unfired? && d.context.Some?
    ensures D.Enabled(d, D.BeginRelease) && D.Apply(d, D.BeginRelease) == d.(release := D.Entered)
    ensures var d' := d.(release := D.Entered);
            D.Enabled(d', D.CloseConnection) && D.Apply(d', D.CloseConnection) == d.(release := D.Disconnected)
    ensures var d' := d.(release := D.Disconnected);
            D.Enabled(d', D.FinishRelease) && D.Apply(d', D.FinishRelease) == d.(release := D.Finished)
  {
  }

  lemma Returns(d: D.Delivery, r: D.Receipt)
    requires d.calls == map[0 := D.Call(true, D.Releasing(r))] && d.release.Finished?
    ensures D.Enabled(d, D.Return(0)) && D.Apply(d, D.Return(0)) == Called(d, D.Answered(D.Stored(r)))
  {
    OneCall(d, D.Releasing(r), D.Answered(D.Stored(r)));
    hide D.Move;
  }

  /** The listener waits for events over an open connection, and one arrives. */
  lemma EventIsHandled(onGapError: bool)
    ensures Reached(CONNECTED.(listener := Acknowledging(Acking(D.Entering), {}, L.Out)), onGapError)
  {
    Connects(onGapError);
    var s, l := CONNECTED, Calm(L.Selecting, false, true, Handling(D.FRESH, map[], {}, L.Out));
    EventArrives(s, false, L.START.work, 7, 3, onGapError);
    FirstBegun();
    HandlerReturns();
    LoopSettles();
    hide Reached, Goes, Begun;
    Looped(s.(listener := l), L.HandlerReturns(7, true), Returned(), onGapError);
    Looped(s.(listener := Returned()), L.Settle, Acknowledging(Acking(D.Entering), {}, L.Out), onGapError);
  }

  const EVENT_7 := map[1 := (7, true)]
  const SENT: set<(nat, bool)> := {(7, true)}

  /** The `Ack` of delivery 7 about to be written, written, recorded, and on its way back. */
  function Ready(): Se.Session {
    Se.Session(Acknowledging(Chosen(D.Attempting, []), {}, L.Out), Open(C.Loaded(0), QUIET, 1, [(0, 0)]), map[])
  }

  function Written(): Se.Session {
    Se.Session(Acknowledging(Chosen(D.Awaiting, [true]), SENT, L.Out),
               Open(C.Waiting(0, 1), Socket([1], [], []), 2, [(0, 0)]), EVENT_7)
  }

  function Recorded(socket: C.Socket): Se.Session {
    Se.Session(Acknowledging(Chosen(D.Awaiting, [true]), SENT, L.Completed(true)),
               Open(C.Waiting(0, 1), socket, 2, [(0, 0)]), EVENT_7)
  }

  function Concluding(d: D.Delivery): Se.Session {
    Se.Session(Acknowledging(d, SENT, L.Completed(true)), Open(C.Idle, QUIET, 2, [(0, 0), (1, 1)]), EVENT_7)
  }

  lemma Loads(onGapError: bool)
    ensures var move, s := C.Load, CONNECTED.(listener := Ready().listener);
            && C.Enabled(s.connection, move) && Se.Free(s, move)
            && C.Apply(Se.Sdk(onGapError), s.connection, move) == Ready().connection
  {
  }

  lemma AckIsReady(onGapError: bool)
    ensures Reached(Ready(), onGapError)
  {
    EventIsHandled(onGapError);
    AckBegins();
    Delivered(Acking(D.Entering), D.Enter(0), Chosen(D.Retrying, []), {}, L.Out);
    Delivered(Chosen(D.Retrying, []), D.Check(0), Chosen(D.Attempting, []), {}, L.Out);
    Loads(onGapError);
    hide Reached, Goes, D.Apply, D.Enabled, Acking, Chosen, C.Apply, C.Enabled, Acknowledging, Open;
    var l1, l2 := Acknowledging(Chosen(D.Retrying, []), {}, L.Out), Acknowledging(Chosen(D.Attempting, []), {}, L.Out);
    var s := CONNECTED.(listener := Acknowledging(Acking(D.Entering), {}, L.Out));
    Looped(s, L.StepDelivery(D.Enter(0)), l1, onGapError);
    Looped(s.(listener := l1), L.StepDelivery(D.Check(0)), l2, onGapError);
    Wired(s.(listener := l2), C.Load, Ready().connection, onGapError);
  }

  lemma AckIsWritten(onGapError: bool)
    requires Reached(Ready(), onGapError)
    ensures Reached(Written(), onGapError)
  {
    hide Reached;
    AckBegins();
    OneByOne();
    SendsBody();
    RequestGoes(onGapError);
    hide C.Apply, C.Enabled, L.Apply, L.Enabled;
    Step(Ready(), Se.WriteCompletion, onGapError);
    assert Se.Apply(Ready(), Se.WriteCompletion, onGapError) == Written();
  }

  lemma SendsBody()
    ensures L.Enabled(Ready().listener, L.StepDelivery(D.Send(0)))
    ensures L.Apply(Ready().listener, L.StepDelivery(D.Send(0))) == Written().listener
  {
    AckBegins();
    hide D.Apply, D.Enabled;
    assert {} + SENT == SENT;
  }

  lemma RequestGoes(onGapError: bool)
    ensures C.Enabled(Ready().connection, C.Write)
    ensures C.Apply(Se.Sdk(onGapError), Ready().connection, C.Write) == Written().connection
  {
    OneByOne();
    hide C.WriteOn;
  }

  lemma AckIsRecorded(onGapError: bool)
    requires Reached(Written(), onGapError)
    ensures Reached(Recorded(Socket([], [], [Reply(1)])), onGapError)
  {
    hide Reached;
    var s, answer := Recorded(Socket([], [Reply(1)], [])), Se.AnswerCompletion(0, None, true);
    ReplyComes(onGapError, Written().connection, 1);
    QueueRecords();
    hide C.Apply, C.Enabled, L.Apply, L.Enabled;
    Step(Written(), answer, onGapError);
    assert Se.Apply(Written(), answer, onGapError) == s;
    Wired(s, C.Read(0), Recorded(Socket([], [], [Reply(1)])).connection, onGapError);
  }

  lemma QueueRecords()
    ensures L.Enabled(Written().listener, L.ServerCompletes(7, true))
    ensures L.Apply(Written().listener, L.ServerCompletes(7, true)) == Recorded(QUIET).listener
  {
    var out := map[7 := L.Lease(3, L.Out)];
    assert out[7 := L.Lease(3, L.Completed(true))] == map[7 := L.Lease(3, L.Completed(true))];
    assert {} + {3} == {3};
  }

  /** The receipt is there to be taken, and taking it gives the loop its completion. */
  lemma ReceiptIsTaken(onGapError: bool)
    requires Reached(Recorded(Socket([], [], [Reply(1)])), onGapError)
    ensures Se.Enabled(Recorded(Socket([], [], [Reply(1)])), Se.TakeReceipt, onGapError)
    ensures Reached(Concluding(Chosen(D.Finishing(D.Completed), [true])), onGapError)
  {
    hide Reached;
    var s := Recorded(Socket([], [], [Reply(1)]));
    ReplyComes(onGapError, Written().connection, 1);
    OneCall(Chosen(D.Awaiting, [true]), D.Awaiting, D.Finishing(D.Completed));
    assert [(0, 0)] + [(1, 1)] == [(0, 0), (1, 1)];
    hide C.Apply, C.Enabled, L.Apply, L.Enabled;
    Step(s, Se.TakeReceipt, onGapError);
    assert Se.Apply(s, Se.TakeReceipt, onGapError) == Concluding(Chosen(D.Finishing(D.Completed), [true]));
  }

  lemma Concludes(d: D.Delivery, step: D.Action, to: D.Delivery, onGapError: bool)
    requires Reached(Concluding(d), onGapError) && D.Enabled(d, step) && D.Apply(d, step) == to
    requires !step.Arrive? && !step.EndParent? && !step.Send? && !step.Receive? && !Se.Failing(step)
    ensures Reached(Concluding(to), onGapError)
  {
    Delivered(d, step, to, SENT, L.Completed(true));
    hide Reached, Goes, D.Apply, D.Enabled;
    Looped(Concluding(d), L.StepDelivery(step), Acknowledging(to, SENT, L.Completed(true)), onGapError);
  }

  /** There is a run in which the loop's `Ack` returns nil, its event dropped. */
  lemma AckReturns(onGapError: bool) returns (states: seq<Se.Session>, acts: seq<Se.Action>)
    ensures Se.IsRun(states, acts, onGapError)
    ensures var w := states[|acts|].listener.work;
            && L.CompletionAnswered(w) && w.delivery.calls[0].stage.answer == D.Stored(D.Completed)
            && w.current == 7 && w.dropped == {3}
  {
    hide Reached;
    AckIsReady(onGapError);
    AckIsWritten(onGapError);
    AckIsRecorded(onGapError);
    ReceiptIsTaken(onGapError);
    var last := AckConcludes(onGapError);
    states, acts := RunTo(Concluding(last), onGapError);
  }

  /** The loop goes on to a second event, whose handler returns too. */
  lemma SecondEventIsHandled(onGapError: bool) returns (states: seq<Se.Session>, acts: seq<Se.Action>)
    ensures Se.IsRun(states, acts, onGapError)
    ensures var l := states[|acts|].listener;
            && l.control.phase.Selecting? && l.work.current == 8 && l.work.begun == {7, 8}
            && l.work.results == map[7 := true, 8 := true] && l.work.dropped == {3}
  {
    hide Reached;
    AckIsReady(onGapError);
    AckIsWritten(onGapError);
    AckIsRecorded(onGapError);
    ReceiptIsTaken(onGapError);
    var d := AckConcludes(onGapError);
    var s := Concluding(d);
    var w := s.listener.work;
    var top := Calm(L.Top, false, true, w);
    CompletionReturns(d);
    Looped(s, L.CompletionReturns, top, onGapError);
    EventArrives(s.(listener := top), true, w, 8, 4, onGapError);
    var second := SecondReturns(d);
    Looped(s.(listener := Calm(L.Selecting, false, true, Begun(w, 8, 4))), L.HandlerReturns(8, true), second,
           onGapError);
    states, acts := RunTo(s.(listener := second), onGapError);
  }

  lemma CompletionReturns(d: D.Delivery)
    requires d.calls == map[0 := D.Call(true, D.Answered(D.Stored(D.Completed)))]
    ensures var l := Concluding(d).listener; Goes(l, L.CompletionReturns, Calm(L.Top, false, true, l.work))
  {
    hide D.Apply, D.Enabled;
  }

  lemma SecondReturns(d: D.Delivery) returns (l: L.Listener)
    ensures var w := Concluding(d).listener.work;
            && 8 !in w.leases && 4 !in w.dropped
            && Goes(Calm(L.Selecting, false, true, Begun(w, 8, 4)), L.HandlerReturns(8, true), l)
    ensures l.control.phase.Selecting? && l.work.current == 8 && l.work.begun == {7, 8}
    ensures l.work.results == map[7 := true, 8 := true] && l.work.dropped == {3}
  {
    var w := Begun(Concluding(d).listener.work, 8, 4);
    l := Calm(L.Selecting, false, true, w.(results := w.results[8 := true]));
    assert {7} + {8} == {7, 8};
    hide D.Apply, D.Enabled;
  }

  lemma RunTo(s: Se.Session, onGapError: bool) returns (states: seq<Se.Session>, acts: seq<Se.Action>)
    requires Reached(s, onGapError)
    ensures Se.IsRun(states, acts, onGapError) && states[|acts|] == s
  {
    hide Se.Apply, Se.Enabled;
    states, acts :| Se.IsRun(states, acts, onGapError) && states[|acts|] == s;
  }

  lemma AckConcludes(onGapError: bool) returns (last: D.Delivery)
    requires Reached(Concluding(Chosen(D.Finishing(D.Completed), [true])), onGapError)
    ensures Reached(Concluding(last), onGapError)
    ensures last.calls == map[0 := D.Call(true, D.Answered(D.Stored(D.Completed)))]
  {
    hide Reached, D.Apply, D.Enabled, Concluding;
    var d, r := Chosen(D.Finishing(D.Completed), [true]), D.Completed;
    Stores(d, r);
    var d1 := Called(d, D.Signalling(r)).(err := Some(r));
    Concludes(d, D.Store(0), d1, onGapError);
    Signals(d1, r);
    var d2 := Called(d1, D.Cancelling(r)).(done := true);
    Concludes(d1, D.Signal(0), d2, onGapError);
    Cancels(d2, r);
    var d3 := Called(d2, D.Releasing(r)).(context := Some(D.Canceled));
    Concludes(d2, D.Cancel(0), d3, onGapError);
    last := AckReleases(d3, onGapError);
  }

  lemma AckReleases(d: D.Delivery, onGapError: bool) returns (last: D.Delivery)
    requires Reached(Concluding(d), onGapError) && d.release.Unfired? && d.context.Some?
    requires d.calls == map[0 := D.Call(true, D.Releasing(D.Completed))]
    ensures Reached(Concluding(last), onGapError)
    ensures last.calls == map[0 := D.Call(true, D.Answered(D.Stored(D.Completed)))]
  {
    hide Reached, D.Apply, D.Enabled, Concluding;
    Releases(d);
    var d1, d2, d3 := d.(release := D.Entered), d.(release := D.Disconnected), d.(release := D.Finished);
    Concludes(d, D.BeginRelease, d1, onGapError);
    Concludes(d1, D.CloseConnection, d2, onGapError);
    Concludes(d2, D.FinishRelease, d3, onGapError);
    Returns(d3, D.Completed);
    last := Called(d3, D.Answered(D.Stored(D.Completed)));
    Concludes(d3, D.Return(0), last, onGapError);
  }
}
