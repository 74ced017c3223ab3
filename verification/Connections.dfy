/**
 The websocket connection of a receiver: `open`, `exchange`, `update` and the background reader
 of every socket it ever opened, against a server that answers each request once and in order.
 The caller wraps every operation in `retryEvent`, so which errors are retried is a parameter.
 */
module Connections {
  import opened Outcomes
  import opened Sequences

  /** An `EventReceiverError`, or any other error (dial, write, read, cut context). */
  datatype Error = Transport | Receiver(code: string, status: int)

  /** The fields `update` checks of an offer or status frame. */
  datatype Offer = Offer(retention: int, handlerTimeout: int, backlog: int, gapCount: int)

  /** `Reply` carries the number of the request it answers; `refusal` is set in an error frame, `offer` in an event. */
  datatype Frame =
    | Reply(request: nat, refusal: Option<Error>, event: Option<Offer>)
    | Status(offer: Offer)
    | Ping
    | ReadError

  /** One socket: requests on their way to the server, frames on their way back, and the
      reader's channel of at most two packets. */
  datatype Socket = Socket(open: bool, reading: bool, upstream: seq<nat>, downstream: seq<Frame>, packets: seq<Frame>)

  /** `Loaded(g)`: `exchange` has loaded socket `g`. `Waiting(g, r)`: request `r` was written on it.
      `Stopped`: an error ended the caller, which never exchanges again. */
  datatype Phase = Idle | Loaded(socket: nat) | Waiting(socket: nat, request: nat) | Stopped

  /** `opening`: the socket is still being opened, and `open` closes it after any error.
      `answers` records, for each frame `exchange` returned, the request just written and the request answered. */
  datatype Connection = Connection(
    sockets: seq<Socket>,
    socket: Option<nat>,
    channel: nat,
    next: nat,
    phase: Phase,
    opening: bool,
    gaps: int,
    answers: seq<(nat, nat)>
  )

  datatype Caller = Caller(retries: Error -> bool, onGapError: bool)

  datatype Action =
    | Dial
    | DialFails(error: Error)
    | Load
    | Write
    | WriteFails(sent: bool)
    | Take
    | Drained
    | Cut
    | CloseElsewhere
    | Quit
    | Read(g: nat)
    | ReadFails(g: nat)
    | Answer(g: nat, refusal: Option<Error>, event: Option<Offer>)
    | Announce(g: nat, offer: Offer)
    | Probe(g: nat)

  const START := Connection([], None, 0, 0, Idle, false, -1, [])
  const INVALID_RESPONSE := Receiver("invalid_response", 0)
  const EVENT_GAP := Receiver("event_gap", 409)
  const DISCONNECTED := Receiver("disconnected", 0)

  // ----- retryEvent and update -----

  /** The errors `retryEvent` tries again after. */
  predicate Retryable(e: Error) {
    match e
    case Transport => true
    case Receiver(code, status) =>
      && code !in {"unsupported", "invalid_response", "pull_unavailable", "subscription_unavailable"}
      && (status == 0 || status == 408 || status == 429 || status >= 500)
  }

  predicate Plausible(offer: Offer) {
    offer.retention == 86400 && offer.handlerTimeout == 30 && offer.backlog >= 0 && offer.gapCount >= 0
  }

  /** `update`: the gap count remembered afterwards, and the error it returns. */
  function Update(gaps: int, offer: Offer, onGapError: bool): (int, Option<Error>) {
    if !Plausible(offer) then (gaps, Some(INVALID_RESPONSE))
    else if offer.gapCount > 0 && offer.gapCount != gaps then
      (offer.gapCount, if onGapError then Some(EVENT_GAP) else None)
    else (gaps, None)
  }

  /** The gap count remembered after these offers. */
  function Remembered(offers: seq<Offer>): int {
    if offers == [] then -1 else Update(Remembered(offers[..|offers| - 1]), offers[|offers| - 1], false).0
  }

  /** The gap of offer `i` is the last one reported. */
  ghost predicate LastReported(offers: seq<Offer>, i: nat, gap: int) {
    && i < |offers| && Plausible(offers[i]) && offers[i].gapCount == gap > 0
    && forall j :: i < j < |offers| && Plausible(offers[j]) ==> offers[j].gapCount in {0, gap}
  }

  lemma {:induction false} RememberedIsReported(offers: seq<Offer>, gap: int)
    requires gap > 0
    ensures Remembered(offers) == gap <==> exists i :: LastReported(offers, i, gap)
  {
    if offers != [] {
      var n := |offers| - 1;
      var front := offers[..n];
      RememberedIsReported(front, gap);
      if i: nat :| LastReported(front, i, gap) && (!Plausible(offers[n]) || offers[n].gapCount in {0, gap}) {
        assert LastReported(offers, i, gap);
      }
      if i: nat :| LastReported(offers, i, gap) && i < n {
        assert LastReported(front, i, gap);
      }
      if Plausible(offers[n]) && offers[n].gapCount == gap {
        assert LastReported(offers, n, gap);
      }
    }
  }

  /** A gap is an error once: when its count is positive and is not the one last reported, whatever came in between. */
  lemma GapsAreReportedOnce(offers: seq<Offer>, offer: Offer)
    ensures var error := Update(Remembered(offers), offer, true).1;
            && (error == Some(INVALID_RESPONSE) <==>
                  offer.retention != 86400 || offer.handlerTimeout != 30 || offer.backlog < 0 || offer.gapCount < 0)
            && (error == Some(EVENT_GAP) <==>
                  && offer.retention == 86400 && offer.handlerTimeout == 30 && offer.backlog >= 0 && offer.gapCount > 0
                  && forall i :: !LastReported(offers, i, offer.gapCount))
            && (error.Some? ==> error.value in {INVALID_RESPONSE, EVENT_GAP})
  {
    hide LastReported, Remembered;
    if offer.gapCount > 0 {
      RememberedIsReported(offers, offer.gapCount);
    }
  }

  // ----- The transition system -----

  predicate Enabled(c: Connection, a: Action) {
    match a
    case Dial => c.phase.Idle? && c.socket.None?
    case DialFails(_) => c.phase.Idle? && c.socket.None?
    case Load => c.phase.Idle?
    case Write => c.phase.Loaded? && c.phase.socket < |c.sockets| && c.sockets[c.phase.socket].open
    case WriteFails(_) => c.phase.Loaded? && c.phase.socket < |c.sockets|
    case Take => c.phase.Waiting? && c.channel < |c.sockets| && c.sockets[c.channel].packets != []
    case Drained =>
      && c.phase.Waiting? && c.channel < |c.sockets|
      && c.sockets[c.channel].packets == [] && !c.sockets[c.channel].reading
    case Cut => c.phase.Waiting?
    case CloseElsewhere => true
    case Quit => c.phase.Idle?
    case Read(g) => g < |c.sockets| && c.sockets[g].reading && c.sockets[g].downstream != []
    case ReadFails(g) => g < |c.sockets| && c.sockets[g].reading
    case Answer(g, _, _) => g < |c.sockets| && c.sockets[g].upstream != []
    case Announce(g, _) => g < |c.sockets|
    case Probe(g) => g < |c.sockets|
  }

  /** `close`: swap the socket out and close it. */
  function Close(c: Connection): Connection {
    if c.socket.Some? && c.socket.value < |c.sockets|
    then c.(socket := None, sockets := c.sockets[c.socket.value := c.sockets[c.socket.value].(open := false)])
    else c.(socket := None)
  }

  /** What the caller's `retryEvent` makes of an operation that returned `e`. */
  function After(caller: Caller, c: Connection, e: Error): Connection {
    c.(phase := if caller.retries(e) then Idle else Stopped)
  }

  /** What becomes of a frame that `exchange` returns: `receive` hands the data of an event to `update`, whose error
      ends the operation after the reply was taken. */
  function Returned(caller: Caller, c: Connection, event: Option<Offer>): Connection {
    if c.opening || event.None? then c.(phase := Idle, opening := false)
    else
      var (gaps, error) := Update(c.gaps, event.value, caller.onGapError);
      if error.Some? then After(caller, c.(gaps := gaps), error.value) else c.(phase := Idle, gaps := gaps)
  }

  /** `exchange` handles the frame it took off the channel, for the request it wrote. */
  function Handle(caller: Caller, c: Connection, f: Frame): Connection
    requires c.phase.Waiting?
  {
    match f
    case Ping => c
    case Status(offer) =>
      var (gaps, error) := Update(c.gaps, offer, caller.onGapError);
      var c' := c.(gaps := gaps);
      if error.None? then c'
      else if c.opening then After(caller, Close(c'), error.value)
      else After(caller, c', error.value)
    case ReadError => After(caller, Close(c), Transport)
    case Reply(request, refusal, event) =>
      if refusal.Some? then After(caller, Close(c), refusal.value)
      else Returned(caller, c.(answers := c.answers + [(c.phase.request, request)]), event)
  }

  function ReadNext(s: Socket): Socket
    requires s.downstream != []
  {
    var f, rest := s.downstream[0], s.downstream[1..];
    if f.Ping? then s.(downstream := rest)
    else if |s.packets| < 2 then s.(downstream := rest, packets := s.packets + [f])
    else s.(downstream := rest, open := false, reading := false)
  }

  /** The server answers the oldest request it has not answered. */
  function AnswerOn(s: Socket, refusal: Option<Error>, event: Option<Offer>): Socket
    requires s.upstream != []
  {
    s.(upstream := s.upstream[1..], downstream := s.downstream + [Reply(s.upstream[0], refusal, event)])
  }

  /** The server sends a frame of its own. */
  function SendOn(s: Socket, f: Frame): Socket {
    s.(downstream := s.downstream + [f])
  }

  function FailRead(s: Socket): Socket {
    s.(open := false, reading := false, packets := if |s.packets| < 2 then s.packets + [ReadError] else s.packets)
  }

  function WriteOn(s: Socket, request: nat): Socket {
    s.(upstream := s.upstream + [request])
  }

  function TakeFrom(s: Socket): Socket
    requires s.packets != []
  {
    s.(packets := s.packets[1..])
  }

  function Apply(caller: Caller, c: Connection, a: Action): Connection
    requires Enabled(c, a)
  {
    match a
    case Dial =>
      c.(sockets := c.sockets + [Socket(true, true, [], [], [])], socket := Some(|c.sockets|),
         channel := |c.sockets|, opening := true)
    case DialFails(e) => After(caller, c, e)
    case Load => if c.socket.Some? then c.(phase := Loaded(c.socket.value)) else After(caller, c, DISCONNECTED)
    case Write =>
      var g := c.phase.socket;
      c.(phase := Waiting(g, c.next), next := c.next + 1, sockets := c.sockets[g := WriteOn(c.sockets[g], c.next)])
    case WriteFails(sent) =>
      var g := c.phase.socket;
      var c' := if sent then c.(next := c.next + 1, sockets := c.sockets[g := WriteOn(c.sockets[g], c.next)]) else c;
      After(caller, Close(c'), Transport)
    case Take =>
      Handle(caller, c.(sockets := c.sockets[c.channel := TakeFrom(c.sockets[c.channel])]),
             c.sockets[c.channel].packets[0])
    case Drained => After(caller, Close(c), DISCONNECTED)
    case Cut => After(caller, Close(c), Transport)
    case CloseElsewhere => Close(c)
    case Quit => Close(c).(phase := Stopped)
    case Read(g) => c.(sockets := c.sockets[g := ReadNext(c.sockets[g])])
    case ReadFails(g) => c.(sockets := c.sockets[g := FailRead(c.sockets[g])])
    case Answer(g, refusal, event) =>
      c.(sockets := c.sockets[g := AnswerOn(c.sockets[g], refusal, event)])
    case Announce(g, offer) =>
      c.(sockets := c.sockets[g := SendOn(c.sockets[g], Status(offer))])
    case Probe(g) =>
      c.(sockets := c.sockets[g := SendOn(c.sockets[g], Ping)])
  }

  // ----- What is outstanding on a socket -----

  function Replies(frames: seq<Frame>): seq<nat> {
    if frames == [] then []
    else (if frames[0].Reply? then [frames[0].request] else []) + Replies(frames[1..])
  }

  lemma {:induction false} RepliesAppend(frames: seq<Frame>, f: Frame)
    ensures Replies(frames + [f]) == Replies(frames) + (if f.Reply? then [f.request] else [])
  {
    if frames != [] {
      assert (frames + [f])[1..] == frames[1..] + [f];
      RepliesAppend(frames[1..], f);
    }
  }

  /** The requests written on a socket whose replies have not been taken, oldest first. */
  function Outstanding(s: Socket): seq<nat> {
    Replies(s.packets) + Replies(s.downstream) + s.upstream
  }

  /** The reader moves frames along one socket without reordering; when it overflows it only drops. */
  lemma ReadInOrder(s: Socket)
    requires s.downstream != []
    ensures Outstanding(ReadNext(s)) == Outstanding(s) || |Outstanding(ReadNext(s))| < |Outstanding(s)|
  {
    var f, rest := s.downstream[0], s.downstream[1..];
    var moved := if f.Reply? then [f.request] else [];
    assert Replies(s.downstream) == moved + Replies(rest);
    hide Replies;
    if f.Ping? {
      assert moved + Replies(rest) == Replies(rest);
    } else if |s.packets| < 2 {
      RepliesAppend(s.packets, f);
      Regrouped(Replies(s.packets), moved, Replies(rest));
    } else if moved == [] {
      assert moved + Replies(rest) == Replies(rest);
    }
  }

  /** The server's answer takes the place of the request it answers. */
  lemma AnsweredInOrder(s: Socket, refusal: Option<Error>, event: Option<Offer>)
    requires s.upstream != []
    ensures Outstanding(AnswerOn(s, refusal, event)) == Outstanding(s)
  {
    var reply := Reply(s.upstream[0], refusal, event);
    RepliesAppend(s.downstream, reply);
    assert s.upstream == [s.upstream[0]] + s.upstream[1..];
    Regrouped(Replies(s.downstream), [s.upstream[0]], s.upstream[1..]);
    Regrouped(Replies(s.packets), Replies(s.downstream) + [s.upstream[0]], s.upstream[1..]);
    Regrouped(Replies(s.packets), Replies(s.downstream), s.upstream);
  }

  /** The newest socket is the one being read, and the one the caller has loaded or written on. */
  ghost predicate Newest(c: Connection) {
    && (c.socket.Some? ==> c.socket.value == |c.sockets| - 1)
    && (c.sockets != [] ==> c.channel == |c.sockets| - 1)
    && match c.phase
       case Loaded(g) => c.sockets != [] && g == c.channel
       case Waiting(g, _) => c.sockets != [] && g == c.channel
       case _ => true
  }

  /** When the caller may write on the newest socket nothing is outstanding on it, and while it waits at most its own
      request is. */
  ghost predicate Clean(c: Connection)
    requires Newest(c)
  {
    match c.phase
    case Idle => c.socket.Some? ==> Outstanding(c.sockets[c.channel]) == []
    case Loaded(g) => Outstanding(c.sockets[g]) == []
    case Waiting(g, r) => Outstanding(c.sockets[g]) == [] || Outstanding(c.sockets[g]) == [r]
    case Stopped => true
  }

  ghost predicate InStep(c: Connection) {
    Newest(c) && Clean(c)
  }

  ghost predicate Matched(c: Connection) {
    forall k :: 0 <= k < |c.answers| ==> c.answers[k].0 == c.answers[k].1
  }

  ghost predicate Inv(c: Connection) {
    InStep(c) && Matched(c)
  }

  /** The caller gives up after the two errors with which `exchange` leaves its socket open. */
  ghost predicate GivesUpAfterUpdate(caller: Caller) {
    !caller.retries(INVALID_RESPONSE) && (caller.onGapError ==> !caller.retries(EVENT_GAP))
  }

  lemma CloseKeeps(c: Connection)
    requires c.socket.Some? ==> c.socket.value == |c.sockets| - 1
    ensures |Close(c).sockets| == |c.sockets| && Close(c).socket.None?
    ensures forall g :: 0 <= g < |c.sockets| ==> Outstanding(Close(c).sockets[g]) == Outstanding(c.sockets[g])
  {
  }

  /** Taking a packet takes the oldest outstanding reply, if the packet is one. */
  lemma TakenInOrder(s: Socket)
    requires s.packets != []
    ensures var rest := Outstanding(TakeFrom(s));
            Outstanding(s) == if s.packets[0].Reply? then [s.packets[0].request] + rest else rest
  {
  }

  lemma ReplyHandled(caller: Caller, c: Connection, refusal: Option<Error>, event: Option<Offer>)
    requires Inv(c) && c.phase.Waiting? && Outstanding(c.sockets[c.channel]) == []
    ensures Inv(Handle(caller, c, Reply(c.phase.request, refusal, event)))
  {
    hide Outstanding, Update;
    CloseKeeps(c);
  }

  lemma OtherFrameHandled(caller: Caller, c: Connection, f: Frame)
    requires GivesUpAfterUpdate(caller) && Inv(c) && c.phase.Waiting? && !f.Reply?
    ensures Inv(Handle(caller, c, f))
  {
    hide Outstanding;
    if f.Status? {
      UpdateErrors(c.gaps, f.offer, caller.onGapError);
      CloseKeeps(c.(gaps := Update(c.gaps, f.offer, caller.onGapError).0));
    }
    hide Update;
    CloseKeeps(c);
  }

  lemma UpdateErrors(gaps: int, offer: Offer, onGapError: bool)
    ensures var error := Update(gaps, offer, onGapError).1;
            error.None? || error == Some(INVALID_RESPONSE) || (onGapError && error == Some(EVENT_GAP))
  {
  }

  lemma TakePreserves(caller: Caller, c: Connection)
    requires GivesUpAfterUpdate(caller) && Inv(c) && Enabled(c, Take)
    ensures Inv(Apply(caller, c, Take))
  {
    hide Outstanding, Handle;
    var s := c.sockets[c.channel];
    var c' := c.(sockets := c.sockets[c.channel := TakeFrom(s)]);
    TakenInOrder(s);
    if s.packets[0].Reply? {
      assert Outstanding(s)[0] == s.packets[0].request;
      assert Outstanding(c'.sockets[c.channel]) == [];
      ReplyHandled(caller, c', s.packets[0].refusal, s.packets[0].event);
    } else {
      OtherFrameHandled(caller, c', s.packets[0]);
    }
  }

  /** A step of one socket's reader or of the server: it leaves the caller alone. */
  predicate SocketStep(a: Action) {
    a.Read? || a.ReadFails? || a.Answer? || a.Announce? || a.Probe?
  }

  lemma SocketStepInOrder(caller: Caller, c: Connection, a: Action)
    requires Enabled(c, a) && SocketStep(a)
    ensures var s, s' := c.sockets[a.g], Apply(caller, c, a).sockets[a.g];
            Outstanding(s') == Outstanding(s) || |Outstanding(s')| < |Outstanding(s)|
  {
    var s := c.sockets[a.g];
    match a
    case Read(_) => ReadInOrder(s);
    case ReadFails(_) => RepliesAppend(s.packets, ReadError);
    case Answer(_, refusal, event) => AnsweredInOrder(s, refusal, event);
    case Announce(_, offer) => RepliesAppend(s.downstream, Status(offer));
    case Probe(_) => RepliesAppend(s.downstream, Ping);
  }

  lemma SocketStepPreserves(caller: Caller, c: Connection, a: Action)
    requires Inv(c) && Enabled(c, a) && SocketStep(a)
    ensures Inv(Apply(caller, c, a))
  {
    SocketStepInOrder(caller, c, a);
    SocketStepIsLocal(caller, c, a);
    hide Outstanding, Apply, Enabled;
  }

  /** It changes one socket and nothing else. */
  lemma SocketStepIsLocal(caller: Caller, c: Connection, a: Action)
    requires Enabled(c, a) && SocketStep(a)
    ensures a.g < |c.sockets| && |Apply(caller, c, a).sockets| == |c.sockets|
    ensures Apply(caller, c, a) == c.(sockets := c.sockets[a.g := Apply(caller, c, a).sockets[a.g]])
  {
    hide ReadNext, FailRead, AnswerOn, SendOn;
  }

  /** A write that fails closes the socket, whether or not the request went out. */
  lemma FailedWritePreserves(caller: Caller, c: Connection, sent: bool)
    requires Inv(c) && Enabled(c, WriteFails(sent))
    ensures Inv(Apply(caller, c, WriteFails(sent)))
  {
    hide Outstanding, WriteOn;
    var g := c.phase.socket;
    CloseKeeps(c);
    CloseKeeps(c.(next := c.next + 1, sockets := c.sockets[g := WriteOn(c.sockets[g], c.next)]));
  }

  lemma WritePreserves(caller: Caller, c: Connection)
    requires Inv(c) && Enabled(c, Write)
    ensures Inv(Apply(caller, c, Write))
  {
  }

  lemma DialPreserves(caller: Caller, c: Connection)
    requires Inv(c) && Enabled(c, Dial)
    ensures Inv(Apply(caller, c, Dial))
  {
  }

  /** The other steps of the caller: they change its phase, and may close the socket. */
  lemma CallerStepPreserves(caller: Caller, c: Connection, a: Action)
    requires Inv(c) && Enabled(c, a) && !SocketStep(a) && !a.Take? && !a.Write? && !a.WriteFails? && !a.Dial?
    ensures Inv(Apply(caller, c, a))
  {
    hide Outstanding, Handle;
    CloseKeeps(c);
  }

  lemma InvPreserved(caller: Caller, c: Connection, a: Action)
    requires GivesUpAfterUpdate(caller) && Inv(c) && Enabled(c, a)
    ensures Inv(Apply(caller, c, a))
  {
    hide Inv, Enabled, Apply, GivesUpAfterUpdate;
    if SocketStep(a) {
      SocketStepPreserves(caller, c, a);
    } else if a.Take? {
      TakePreserves(caller, c);
    } else if a.Write? {
      WritePreserves(caller, c);
    } else if a.WriteFails? {
      FailedWritePreserves(caller, c, a.sent);
    } else if a.Dial? {
      DialPreserves(caller, c);
    } else {
      CallerStepPreserves(caller, c, a);
    }
  }

  lemma TakeKeepsNewest(caller: Caller, c: Connection)
    requires Newest(c) && Enabled(c, Take)
    ensures Newest(Apply(caller, c, Take))
  {
    hide Outstanding, Update, TakeFrom;
    SizeOfClose(c);
  }

  /** For every caller whatever, the newest socket stays the one in use. */
  lemma NewestPreserved(caller: Caller, c: Connection, a: Action)
    requires Newest(c) && Enabled(c, a)
    ensures Newest(Apply(caller, c, a))
  {
    if a.Take? {
      TakeKeepsNewest(caller, c);
    } else {
      hide Outstanding, Handle, WriteOn, SendOn, AnswerOn, ReadNext, FailRead;
      SizeOfClose(c);
    }
  }

  lemma SizeOfClose(c: Connection)
    ensures |Close(c).sockets| == |c.sockets| && Close(c).socket.None?
  {
  }

  /** Where the frames and requests of a socket come from after a step: from the socket itself, or they are the request
      just written, the reply just given, or no reply at all. */
  predicate SocketFrom(c: Connection, a: Action, g: nat, socket: Socket)
    requires Enabled(c, a) && g < |c.sockets|
  {
    var before := c.sockets[g];
    && (forall f :: f in socket.packets && f.Reply? ==> f in before.packets || f in before.downstream)
    && (forall f :: f in socket.downstream && f.Reply? ==>
          f in before.downstream || (a.Answer? && a.g == g && f == Reply(before.upstream[0], a.refusal, a.event)))
    && (forall r :: r in socket.upstream ==> r in before.upstream || (r == c.next && (a.Write? || a.WriteFails?)))
  }

  lemma SocketSteps(caller: Caller, c: Connection, a: Action, g: nat)
    requires Enabled(c, a) && g < |c.sockets|
    ensures g < |Apply(caller, c, a).sockets| && SocketFrom(c, a, g, Apply(caller, c, a).sockets[g])
  {
    hide SocketFrom, Apply, Enabled;
    if SocketStep(a) {
      OwnSocketSteps(caller, c, a, g);
    } else if a.Take? {
      TakeSocketSteps(caller, c, g);
    } else {
      CallerSocketSteps(caller, c, a, g);
    }
  }

  lemma OwnSocketSteps(caller: Caller, c: Connection, a: Action, g: nat)
    requires Enabled(c, a) && g < |c.sockets| && SocketStep(a)
    ensures g < |Apply(caller, c, a).sockets| && SocketFrom(c, a, g, Apply(caller, c, a).sockets[g])
  {
  }

  lemma TakeSocketSteps(caller: Caller, c: Connection, g: nat)
    requires Enabled(c, Take) && g < |c.sockets|
    ensures g < |Apply(caller, c, Take).sockets| && SocketFrom(c, Take, g, Apply(caller, c, Take).sockets[g])
  {
    hide Handle;
    HandledSockets(caller, c.(sockets := c.sockets[c.channel := TakeFrom(c.sockets[c.channel])]),
                   c.sockets[c.channel].packets[0], g);
  }

  lemma CallerSocketSteps(caller: Caller, c: Connection, a: Action, g: nat)
    requires Enabled(c, a) && g < |c.sockets| && !SocketStep(a) && !a.Take?
    ensures g < |Apply(caller, c, a).sockets| && SocketFrom(c, a, g, Apply(caller, c, a).sockets[g])
  {
    if a.WriteFails? {
      FailedWriteSteps(caller, c, a.sent, g);
    } else {
      hide Handle, ReadNext, FailRead, AnswerOn, SendOn;
    }
  }

  lemma FailedWriteSteps(caller: Caller, c: Connection, sent: bool, g: nat)
    requires Enabled(c, WriteFails(sent)) && g < |c.sockets|
    ensures var c' := Apply(caller, c, WriteFails(sent));
            g < |c'.sockets| && SocketFrom(c, WriteFails(sent), g, c'.sockets[g])
  {
    hide Handle, ReadNext, FailRead, AnswerOn, SendOn;
  }

  /** Handling a frame closes a socket at most. */
  lemma HandledSockets(caller: Caller, c: Connection, f: Frame, g: nat)
    requires c.phase.Waiting? && g < |c.sockets|
    ensures var c' := Handle(caller, c, f);
            && |c'.sockets| == |c.sockets| && c'.next == c.next
            && c'.sockets[g].packets == c.sockets[g].packets && c'.sockets[g].downstream == c.sockets[g].downstream
            && c'.sockets[g].upstream == c.sockets[g].upstream
  {
    hide Update;
  }

  /** A step opens at most one socket, with nothing on it. */
  lemma NewSocketIsEmpty(caller: Caller, c: Connection, a: Action, g: nat)
    requires Enabled(c, a) && |c.sockets| <= g < |Apply(caller, c, a).sockets|
    ensures Apply(caller, c, a).sockets[g] == Socket(true, true, [], [], [])
  {
    hide Handle;
    if a.Take? {
      HandledSockets(caller, c.(sockets := c.sockets[c.channel := TakeFrom(c.sockets[c.channel])]),
                     c.sockets[c.channel].packets[0], 0);
    }
  }

  lemma RequestsGrow(caller: Caller, c: Connection, a: Action)
    requires Enabled(c, a)
    ensures Apply(caller, c, a).next == if a.Write? || (a.WriteFails? && a.sent) then c.next + 1 else c.next
    ensures a.WriteFails? && !a.sent ==> forall g :: 0 <= g < |c.sockets| ==>
              Apply(caller, c, a).sockets[g].upstream == c.sockets[g].upstream
  {
    hide Update;
  }

  // ----- Runs -----

  ghost predicate IsRun(caller: Caller, states: seq<Connection>, acts: seq<Action>) {
    && |states| == |acts| + 1
    && states[0] == START
    && forall k :: 0 <= k < |acts| ==> Enabled(states[k], acts[k]) && states[k + 1] == Apply(caller, states[k], acts[k])
  }

  lemma {:induction false} RunInv(caller: Caller, states: seq<Connection>, acts: seq<Action>, k: nat)
    requires GivesUpAfterUpdate(caller) && IsRun(caller, states, acts) && k < |states|
    ensures Inv(states[k])
  {
    if k == 0 {
      assert states[0] == START;
    } else {
      RunInv(caller, states, acts, k - 1);
      InvPreserved(caller, states[k - 1], acts[k - 1]);
    }
  }

  /** Every frame any `exchange` of any run returns answers the request it had just written. */
  ghost predicate AlwaysMatched(caller: Caller) {
    forall states, acts :: IsRun(caller, states, acts) ==> Matched(states[|acts|])
  }

  lemma {:induction false} RunNewest(caller: Caller, states: seq<Connection>, acts: seq<Action>, k: nat)
    requires IsRun(caller, states, acts) && k < |states|
    ensures Newest(states[k])
  {
    if k == 0 {
      assert states[0] == START;
    } else {
      RunNewest(caller, states, acts, k - 1);
      hide Newest, Apply, Enabled;
      NewestPreserved(caller, states[k - 1], acts[k - 1]);
    }
  }

  /** Whatever the caller retries, the frame taken for a request comes from the socket the request was written on, and
      that is the newest one: packets queued by an earlier reader never surface after a reopen. */
  lemma OnlyTheNewestSocketIsRead(caller: Caller, states: seq<Connection>, acts: seq<Action>, k: nat)
    requires IsRun(caller, states, acts) && k < |acts| && acts[k] == Take
    ensures states[k].channel == states[k].phase.socket == |states[k].sockets| - 1
    ensures forall g :: 0 <= g < |states[k].sockets| - 1 ==> states[k + 1].sockets[g] == states[k].sockets[g]
  {
    RunNewest(caller, states, acts, k);
    TakeReadsNewest(caller, states[k]);
  }

  lemma TakeReadsNewest(caller: Caller, c: Connection)
    requires Newest(c) && Enabled(c, Take)
    ensures c.channel == c.phase.socket == |c.sockets| - 1
    ensures forall g :: 0 <= g < |c.sockets| - 1 ==> Apply(caller, c, Take).sockets[g] == c.sockets[g]
  {
    hide Update;
  }

  /** No second request is written while one is outstanding: whenever a request goes out on a
      socket, every earlier request on it has had its reply taken. */
  lemma WritesFindTheSocketClean(caller: Caller, states: seq<Connection>, acts: seq<Action>, k: nat)
    requires GivesUpAfterUpdate(caller) && IsRun(caller, states, acts) && k < |acts| && acts[k] == Write
    ensures Outstanding(states[k].sockets[states[k].phase.socket]) == []
  {
    RunInv(caller, states, acts, k);
  }

  /** On an opened connection a status frame that `update` refuses arrives before the reply; the caller tries again on
      the socket that was left open, and takes the reply to the second request for that to the third. */
  function Crossing(offer: Offer): seq<Action> {
    [Dial, Load, Write, Answer(0, None, None), Read(0), Take,
     Load, Write, Announce(0, offer), Answer(0, None, None), Read(0), Read(0), Take,
     Load, Write, Take]
  }

  /** The first request is written and answered. */
  lemma CrossingDials(caller: Caller) returns (s1: Connection, s2: Connection, s3: Connection, s4: Connection)
    ensures Enabled(START, Dial) && s1 == Apply(caller, START, Dial)
    ensures Enabled(s1, Load) && s2 == Apply(caller, s1, Load)
    ensures Enabled(s2, Write) && s3 == Apply(caller, s2, Write)
    ensures Enabled(s3, Answer(0, None, None)) && s4 == Apply(caller, s3, Answer(0, None, None))
    ensures |s4.sockets| == 1 && s4.sockets[0] == Socket(true, true, [], [Reply(0, None, None)], [])
    ensures s4 == Connection(s4.sockets, Some(0), 0, 1, Waiting(0, 0), true, -1, [])
  {
    s1 := Apply(caller, START, Dial);
    s2 := Apply(caller, s1, Load);
    s3 := Apply(caller, s2, Write);
    s4 := Apply(caller, s3, Answer(0, None, None));
    assert s4.sockets[0].upstream == [] && s4.sockets[0].downstream == [Reply(0, None, None)];
  }

  /** The reply is read and taken: the connection is open. */
  lemma CrossingReady(caller: Caller, s4: Connection) returns (s5: Connection, s6: Connection)
    requires |s4.sockets| == 1 && s4.sockets[0] == Socket(true, true, [], [Reply(0, None, None)], [])
    requires s4 == Connection(s4.sockets, Some(0), 0, 1, Waiting(0, 0), true, -1, [])
    ensures Enabled(s4, Read(0)) && s5 == Apply(caller, s4, Read(0))
    ensures Enabled(s5, Take) && s6 == Apply(caller, s5, Take)
    ensures |s6.sockets| == 1 && s6.sockets[0] == Socket(true, true, [], [], [])
    ensures s6 == Connection(s6.sockets, Some(0), 0, 1, Idle, false, -1, [(0, 0)])
  {
    s5 := Apply(caller, s4, Read(0));
    assert s5.sockets[0].downstream == [] && s5.sockets[0].packets == [Reply(0, None, None)];
    s6 := Apply(caller, s5, Take);
    assert s6.sockets[0].packets == [] && s6.answers == [(0, 0)];
  }

  /** The next request is written; the refused frame and the reply are on their way. */
  lemma CrossingSent(caller: Caller, offer: Offer, s: Connection)
    returns (t1: Connection, t2: Connection, t3: Connection, t4: Connection)
    requires |s.sockets| == 1 && s.sockets[0] == Socket(true, true, [], [], [])
    requires s == Connection(s.sockets, Some(0), 0, 1, Idle, false, -1, [(0, 0)])
    ensures Enabled(s, Load) && t1 == Apply(caller, s, Load)
    ensures Enabled(t1, Write) && t2 == Apply(caller, t1, Write)
    ensures Enabled(t2, Announce(0, offer)) && t3 == Apply(caller, t2, Announce(0, offer))
    ensures Enabled(t3, Answer(0, None, None)) && t4 == Apply(caller, t3, Answer(0, None, None))
    ensures |t4.sockets| == 1 && t4.sockets[0] == Socket(true, true, [], [Status(offer), Reply(1, None, None)], [])
    ensures t4 == Connection(t4.sockets, Some(0), 0, 2, Waiting(0, 1), false, -1, [(0, 0)])
  {
    t1 := Apply(caller, s, Load);
    t2 := Apply(caller, t1, Write);
    t3 := Apply(caller, t2, Announce(0, offer));
    t4 := Apply(caller, t3, Answer(0, None, None));
    assert t4.sockets[0].upstream == [] && t4.sockets[0].downstream == [Status(offer), Reply(1, None, None)];
  }

  /** After the refusal: the caller is idle again, the socket open, the reply still queued. */
  lemma CrossingRefused(caller: Caller, offer: Offer, t: Connection)
    returns (t5: Connection, t6: Connection, t7: Connection)
    requires Update(-1, offer, caller.onGapError).1.Some?
    requires caller.retries(Update(-1, offer, caller.onGapError).1.value)
    requires |t.sockets| == 1 && t.sockets[0] == Socket(true, true, [], [Status(offer), Reply(1, None, None)], [])
    requires t == Connection(t.sockets, Some(0), 0, 2, Waiting(0, 1), false, -1, [(0, 0)])
    ensures Enabled(t, Read(0)) && t5 == Apply(caller, t, Read(0))
    ensures Enabled(t5, Read(0)) && t6 == Apply(caller, t5, Read(0))
    ensures Enabled(t6, Take) && t7 == Apply(caller, t6, Take)
    ensures |t7.sockets| == 1 && t7.sockets[0] == Socket(true, true, [], [], [Reply(1, None, None)])
    ensures t7.socket == Some(0) && t7.channel == 0 && t7.next == 2 && t7.phase == Idle && t7.answers == [(0, 0)]
  {
    t5 := Apply(caller, t, Read(0));
    assert t5.sockets[0].downstream == [Reply(1, None, None)] && t5.sockets[0].packets == [Status(offer)];
    t6 := Apply(caller, t5, Read(0));
    assert t6.sockets[0].downstream == [] && t6.sockets[0].packets == [Status(offer), Reply(1, None, None)];
    t7 := Apply(caller, t6, Take);
    assert t7.sockets[0].packets == [Reply(1, None, None)];
  }

  lemma RetryCrosses(caller: Caller, offer: Offer) returns (states: seq<Connection>)
    requires Update(-1, offer, caller.onGapError).1.Some?
    requires caller.retries(Update(-1, offer, caller.onGapError).1.value)
    ensures IsRun(caller, states, Crossing(offer))
    ensures states[|Crossing(offer)|].answers == [(0, 0), (2, 1)]
  {
    hide Apply, Enabled, Update;
    var s1, s2, s3, s4 := CrossingDials(caller);
    var s5, s6 := CrossingReady(caller, s4);
    var t1, t2, t3, t4 := CrossingSent(caller, offer, s6);
    var t5, t6, t7 := CrossingRefused(caller, offer, t4);
    var t8, t9, t10 := CrossingTaken(caller, t7);
    states := [START, s1, s2, s3, s4, s5, s6, t1, t2, t3, t4, t5, t6, t7, t8, t9, t10];
  }

  /** The request after that is answered with the queued reply. */
  lemma CrossingTaken(caller: Caller, t: Connection) returns (t8: Connection, t9: Connection, t10: Connection)
    requires |t.sockets| == 1 && t.sockets[0] == Socket(true, true, [], [], [Reply(1, None, None)])
    requires t.socket == Some(0) && t.channel == 0 && t.next == 2 && t.phase == Idle && t.answers == [(0, 0)]
    ensures Enabled(t, Load) && t8 == Apply(caller, t, Load)
    ensures Enabled(t8, Write) && t9 == Apply(caller, t8, Write)
    ensures Enabled(t9, Take) && t10 == Apply(caller, t9, Take)
    ensures t10.answers == [(0, 0), (2, 1)]
  {
    t8 := Apply(caller, t, Load);
    t9 := Apply(caller, t8, Write);
    t10 := Apply(caller, t9, Take);
  }

  /** Request and reply stay in step in every run exactly when the caller gives up after both errors
      of `update`: `exchange` alone does not guarantee it, because it returns them with the socket open. */
  lemma MatchedExactlyWhenUpdateErrorsAreFinal(caller: Caller)
    ensures AlwaysMatched(caller) <==> GivesUpAfterUpdate(caller)
  {
    if GivesUpAfterUpdate(caller) {
      forall states, acts | IsRun(caller, states, acts) ensures Matched(states[|acts|]) {
        RunInv(caller, states, acts, |acts|);
      }
    } else {
      var offer := if caller.retries(INVALID_RESPONSE) then Offer(0, 30, 0, 0) else Offer(86400, 30, 0, 1);
      var states := RetryCrosses(caller, offer);
      var last := states[|Crossing(offer)|];
      assert last.answers[1] == (2, 1);
      assert !Matched(last);
    }
  }

  /** `retryEvent` does give up after both, so with the SDK's own callers every reply answers its request. */
  lemma SdkCallersStayInStep(onGapError: bool, states: seq<Connection>, acts: seq<Action>)
    requires IsRun(Caller(Retryable, onGapError), states, acts)
    ensures forall k :: 0 <= k < |states[|acts|].answers| ==> states[|acts|].answers[k].0 == states[|acts|].answers[k].1
  {
    MatchedExactlyWhenUpdateErrorsAreFinal(Caller(Retryable, onGapError));
  }
}
