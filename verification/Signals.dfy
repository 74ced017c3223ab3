/**
 Preparing a status signal: one email with a fixed fallback text and one interaction envelope as
 its only attachment.
 */
module Signals {
  import opened Outcomes
  import opened Utf8
  import opened References
  import opened SignalTime
  import Tx = Texts
  import T = JsonText
  import Dc = Decoding
  import Rd = Reader
  import En = Envelopes

  datatype Input = Input(accountScope: string, from: string, to: string, messageId: Option<string>, subject: string,
                         references: seq<string>, kind: string, status: string, note: Option<string>,
                         expiresAtMs: Option<int>)

  datatype Request = Request(from: string, to: string, subject: string, bodyText: string, inReplyTo: string,
                             references: seq<string>, filename: string, contentType: string, attachment: seq<T.Lexeme>)

  datatype Prepared = Prepared(accountScope: string, preparedAtMs: int, expiresAtMs: Option<int>,
                               idempotencyKey: string, request: Request)

  datatype SignalError =
    | BadMessageId | BadMailbox | BadSubjectOrScope | TooManyReferences | NoCallbacks | BadClock | BadStatus | BadNote
    | BadExpiry | BadKind | BadUuids | TooLarge

  datatype Preparation = Waiting | Ready(prepared: Prepared) | Refused(error: SignalError)

  // ----- Checks on single fields -----

  /** `signalHeader`: short enough, no control characters. */
  predicate Header(value: string, limit: nat) {
    ByteLength(value) <= limit && forall i :: 0 <= i < |value| ==> value[i] >= ' ' && value[i] as int != 127
  }

  predicate Alphanumeric(c: char) {
    'a' <= c <= 'z' || 'A' <= c <= 'Z' || '0' <= c <= '9'
  }

  predicate AtomChar(c: char) {
    Alphanumeric(c) || c in "!#$%&'*+/=?^_`{|}~-"
  }

  predicate Atom(s: string) {
    s != [] && forall i :: 0 <= i < |s| ==> AtomChar(s[i])
  }

  /** One label of a host name. */
  predicate Label(s: string) {
    && 1 <= |s| <= 63
    && Alphanumeric(s[0]) && Alphanumeric(s[|s| - 1])
    && forall i :: 0 <= i < |s| ==> Alphanumeric(s[i]) || s[i] == '-'
  }

  predicate Host(s: string) {
    forall i :: 0 <= i < |Tx.Split(s, '.')| ==> Label(Tx.Split(s, '.')[i])
  }

  /** `signalMailbox`. */
  predicate Mailbox(s: string) {
    var parts := Tx.Split(s, '@');
    && |parts| == 2
    && (forall i :: 0 <= i < |Tx.Split(parts[0], '.')| ==> Atom(Tx.Split(parts[0], '.')[i]))
    && Host(parts[1])
  }

  function HostOf(mailbox: string): string
    requires Mailbox(mailbox)
  {
    Tx.Split(mailbox, '@')[1]
  }

  predicate GoodNote(note: string) {
    Tx.Utf16Length(note) <= 2000 && '\0' !in note
  }

  /** `signalText`. */
  function SignalText(kind: string, status: string, note: Option<string>): string {
    if kind == "read" then "I read your message."
    else if kind == "working" then "I am working on your message."
    else if kind == "typing" then "I am composing a reply to your message."
    else
      var text := if status == "received" then "Received your message."
                  else if status == "will_process" then "I intend to process your message."
                  else if status == "will_not_process" then "I will not process your message."
                  else "";
      match note
      case None => text
      case Some(n) => text + ("\n\n" + n)
  }

  // ----- The stages of the preparation -----

  datatype Heading = Heading(target: string, references: seq<string>)

  /** Up to the reference header: everything checked before any callback. */
  ghost function HeadingOf(input: Input): (r: Result<Heading, SignalError>)
    requires input.messageId.Some?
    ensures r.Success? ==> Mailbox(input.from) && Mailbox(input.to) && Canonical(r.value.target)
    ensures r.Failure? ==> !r.error.TooLarge?
    ensures r.Success? ==> Fits(r.value.references) && TargetLastAndOnce(r.value.references, r.value.target)
    ensures r.Success? ==> Thread(input.references, r.value.target, r.value.references)
  {
    match MessageId(input.messageId.value)
    case None => Failure(BadMessageId)
    case Some(target) =>
      if !Header(input.from, 320) || !Mailbox(input.from) || !Header(input.to, 320) || !Mailbox(input.to) then
        Failure(BadMailbox)
      else if !Header(input.subject, 998) || !Header(input.accountScope, 256) || input.accountScope == "" then
        Failure(BadSubjectOrScope)
      else if |input.references| > MAX_INPUT then Failure(TooManyReferences)
      else match Chain(input.references, target)
        case None => Failure(BadMessageId)
        case Some(chain) =>
          CanonicalIsFixed(input.messageId.value);
          CutKeepsTarget(input.references, target);
          CutIsThread(input.references, target);
          Success(Heading(target, Cut(chain)))
  }

  /** What the kind of signal adds: a status and a note, or an expiry. */
  datatype Content = Content(status: string, note: Option<string>, expires: Option<int>)

  function ContentOf(input: Input, now: int): (r: Result<Content, SignalError>)
    ensures r.Success? && r.value.expires.Some? ==>
              Milliseconds(r.value.expires.value) && now < r.value.expires.value <= now + 60000
    ensures r.Failure? ==> !r.error.TooLarge?
    ensures r.Success? ==> (r.value.expires.Some? <==> input.kind in {"working", "typing"})
    ensures r.Success? && r.value.note.Some? ==>
              input.kind == "ack" && r.value.note == input.note && GoodNote(r.value.note.value)
  {
    if input.kind == "ack" then
      if SignalText("ack", input.status, None) == "" then Failure(BadStatus)
      else if input.note.Some? && !GoodNote(input.note.value) then Failure(BadNote)
      else Success(Content(input.status, input.note, None))
    else if input.kind == "read" then Success(Content("", None, None))
    else if input.kind == "working" || input.kind == "typing" then
      if && input.expiresAtMs.Some? && Milliseconds(input.expiresAtMs.value)
         && input.expiresAtMs.value > now && input.expiresAtMs.value - now <= 60000
      then Success(Content("", None, input.expiresAtMs))
      else Failure(BadExpiry)
    else Failure(BadKind)
  }

  predicate GoodUuids(interaction: string, step: string) {
    En.IsUuid(interaction) && En.IsUuid(step) && interaction != step
  }

  function Optional(key: string, value: Option<string>): seq<Rd.Member> {
    match value
    case None => []
    case Some(s) => [Rd.Member(key, Rd.DStr(s))]
  }

  function OrNull(value: Option<string>): Rd.Doc {
    match value
    case None => Rd.DNull
    case Some(s) => Rd.DStr(s)
  }

  function PayloadDoc(target: string, content: Content): Rd.Doc {
    Rd.DObj([Rd.Member("subject_message_id", Rd.DStr(target))]
            + Optional("status", if content.status == "" then None else Some(content.status))
            + Optional("note", content.note))
  }

  /** The nine members of an envelope, in the order of the struct. */
  function EnvelopeMembers(id: string, protocol: string, step: string, stepId: string, prev: Option<string>,
                           expires: Option<string>, payload: Rd.Doc): seq<Rd.Member> {
    [Rd.Member("interaction_version", Rd.DNum("1")), Rd.Member("interaction_id", Rd.DStr(id)),
     Rd.Member("protocol", Rd.DStr(protocol)), Rd.Member("protocol_version", Rd.DNum("1")),
     Rd.Member("step", Rd.DStr(step)), Rd.Member("step_id", Rd.DStr(stepId)), Rd.Member("prev_step_id", OrNull(prev)),
     Rd.Member("expires_at", OrNull(expires)), Rd.Member("payload", payload)]
  }

  function ExpiryText(expires: Option<int>): Option<string>
    requires expires.Some? ==> Milliseconds(expires.value)
  {
    match expires
    case None => None
    case Some(ms) => Some(FormatUtc(ms))
  }

  function EnvelopeDoc(input: Input, target: string, content: Content, interaction: string, step: string): Rd.Doc
    requires Mailbox(input.to) && (content.expires.Some? ==> Milliseconds(content.expires.value))
  {
    Rd.DObj(EnvelopeMembers(interaction + "@" + HostOf(input.to), input.kind, input.kind, step, None,
                            ExpiryText(content.expires), PayloadDoc(target, content)))
  }

  /** `PrepareSignalEmail` on what its callbacks answer: the clock, then two identifiers. */
  ghost function Prepare(input: Input, callbacks: bool, now: int, first: string, second: string): Preparation {
    if input.messageId.None? || input.messageId.value == "" then Waiting
    else match HeadingOf(input)
      case Failure(error) => Refused(error)
      case Success(heading) =>
        if !callbacks then Refused(NoCallbacks)
        else if !Milliseconds(now) then Refused(BadClock)
        else match ContentOf(input, now)
          case Failure(error) => Refused(error)
          case Success(content) => Assemble(input, heading, content, now, Tx.Lower(first), Tx.Lower(second))
  }

  function Assemble(input: Input, heading: Heading, content: Content, now: int, interaction: string,
                    step: string): (r: Preparation)
    requires Mailbox(input.to) && (content.expires.Some? ==> Milliseconds(content.expires.value))
    ensures !r.Waiting?
  {
    if !GoodUuids(interaction, step) then Refused(BadUuids)
    else
      var encoded := Dc.Lexemes(EnvelopeDoc(input, heading.target, content, interaction, step));
      if |T.Source(encoded)| > 65536 then Refused(TooLarge)
      else Ready(Prepared(input.accountScope, now, content.expires, "signal-" + step,
                          Request(input.to, input.from,
                                  if input.subject == "" then "Re: Your message" else input.subject,
                                  SignalText(input.kind, input.status, input.note), heading.target, heading.references,
                                  "interaction.json", "application/json", encoded)))
  }

  // ----- The preparation as it runs -----

  /** The callbacks of a caller: what each call answers, and how often they were called. */
  class Dependencies {
    const hasNow: bool
    const hasUuid: bool
    const clock: nat -> int
    const ids: nat -> string
    var asked: nat
    var drawn: nat

    constructor (hasNow: bool, hasUuid: bool, clock: nat -> int, ids: nat -> string)
      ensures this.hasNow == hasNow && this.hasUuid == hasUuid && this.clock == clock && this.ids == ids
      ensures asked == 0 && drawn == 0
    {
      this.hasNow, this.hasUuid, this.clock, this.ids := hasNow, hasUuid, clock, ids;
      asked, drawn := 0, 0;
    }

    method Now() returns (ms: int)
      modifies this`asked
      ensures ms == clock(old(asked)) && asked == old(asked) + 1
    {
      ms := clock(asked);
      asked := asked + 1;
    }

    method Uuid() returns (id: string)
      modifies this`drawn
      ensures id == ids(old(drawn)) && drawn == old(drawn) + 1
    {
      id := ids(drawn);
      drawn := drawn + 1;
    }
  }

  /** The checks and the reference loops before the callbacks. */
  method PrepareHeading(input: Input) returns (r: Result<Heading, SignalError>)
    requires input.messageId.Some?
    ensures r == HeadingOf(input)
  {
    var target := MessageId(input.messageId.value);
    if target.None? {
      return Failure(BadMessageId);
    }
    if !Header(input.from, 320) || !Mailbox(input.from) || !Header(input.to, 320) || !Mailbox(input.to) {
      return Failure(BadMailbox);
    }
    if !Header(input.subject, 998) || !Header(input.accountScope, 256) || input.accountScope == "" {
      return Failure(BadSubjectOrScope);
    }
    if |input.references| > MAX_INPUT {
      return Failure(TooManyReferences);
    }
    var chain := CollectReferences(input.references, target.value, None);
    if chain.None? {
      return Failure(BadMessageId);
    }
    CanonicalIsFixed(input.messageId.value);
    CutKeepsTarget(input.references, target.value);
    var kept := TrimRunningLength(chain.value);
    r := Success(Heading(target.value, kept));
  }

  /** `PrepareSignalEmail`. No callback runs before the parent is checked, the clock is read once,
      and exactly two identifiers are drawn for whatever gets that far. */
  method PrepareSignalEmail(input: Input, dependencies: Dependencies) returns (r: Preparation)
    modifies dependencies
    ensures r == Prepare(input, dependencies.hasNow && dependencies.hasUuid,
                         dependencies.clock(old(dependencies.asked)),
                         dependencies.ids(old(dependencies.drawn)), dependencies.ids(old(dependencies.drawn) + 1))
    ensures r.Waiting? || (input.messageId.Some? && HeadingOf(input).Failure?) ==>
              dependencies.asked == old(dependencies.asked) && dependencies.drawn == old(dependencies.drawn)
    ensures r.Ready? ==>
              dependencies.asked == old(dependencies.asked) + 1 && dependencies.drawn == old(dependencies.drawn) + 2
  {
    hide HeadingOf, ContentOf, Assemble, Milliseconds, Mailbox, Canonical, Fits, TargetLastAndOnce, Thread, GoodNote;
    if input.messageId.None? || input.messageId.value == "" {
      return Waiting;
    }
    var heading := PrepareHeading(input);
    if heading.Failure? {
      return Refused(heading.error);
    }
    if !dependencies.hasNow || !dependencies.hasUuid {
      return Refused(NoCallbacks);
    }
    var now := dependencies.Now();
    if !Milliseconds(now) {
      return Refused(BadClock);
    }
    var content := ContentOf(input, now);
    if content.Failure? {
      return Refused(content.error);
    }
    var first := dependencies.Uuid();
    var second := dependencies.Uuid();
    r := Assemble(input, heading.value, content.value, now, Tx.Lower(first), Tx.Lower(second));
  }

  // ----- Sending what was prepared -----

  datatype Delivery = Delivery(request: Request, idempotencyKey: string)

  datatype SendResult =
    | Response(result: bool)
    | Expired(idempotencyKey: string)
    | ScopeMismatch | NoClock | InvalidClock | SendFailed

  /** The send operation a caller supplies: what every call answers (`None` for an error), and what was handed to it. */
  class Mailer {
    const answers: nat -> Option<bool>
    var handed: seq<Delivery>

    constructor (answers: nat -> Option<bool>)
      ensures this.answers == answers && handed == []
    {
      this.answers := answers;
      handed := [];
    }

    method Send(request: Request, key: string) returns (answer: Option<bool>)
      modifies this`handed
      ensures handed == old(handed) + [Delivery(request, key)] && answer == answers(|old(handed)|)
    {
      answer := answers(|handed|);
      handed := handed + [Delivery(request, key)];
    }
  }

  predicate MaySend(prepared: Prepared, accountScope: string, observed: Option<int>) {
    && accountScope != "" && accountScope == prepared.accountScope
    && observed.Some? && Milliseconds(observed.value)
    && (prepared.expiresAtMs.Some? ==> observed.value < prepared.expiresAtMs.value)
  }

  /** `SendPreparedSignal`: at most one attempt, always with the prepared body under the prepared key, and exactly
      when the account is the prepared one and the signal has not expired; a local refusal is never reported as an
      answer. */
  method SendPreparedSignal(mailer: Mailer, prepared: Prepared, accountScope: string, observed: Option<int>)
      returns (r: SendResult)
    modifies mailer`handed
    ensures var attempt := Delivery(prepared.request, prepared.idempotencyKey);
            mailer.handed
            == old(mailer.handed) + (if MaySend(prepared, accountScope, observed) then [attempt] else [])
    ensures r.Response? || r.SendFailed? <==> MaySend(prepared, accountScope, observed)
    ensures r.Response? ==> mailer.answers(|old(mailer.handed)|) == Some(r.result)
    ensures r.ScopeMismatch? <==> accountScope == "" || accountScope != prepared.accountScope
    ensures r.NoClock? <==> !r.ScopeMismatch? && observed.None?
    ensures r.InvalidClock? <==>
              !r.ScopeMismatch? && observed.Some? && !(0 <= observed.value <= 253402300799999)
    ensures r.Expired? <==>
              && !r.ScopeMismatch? && observed.Some? && !r.InvalidClock?
              && prepared.expiresAtMs.Some? && prepared.expiresAtMs.value <= observed.value
    ensures r.Expired? ==> r.idempotencyKey == prepared.idempotencyKey
  {
    if accountScope == "" || accountScope != prepared.accountScope {
      return ScopeMismatch;
    }
    if observed.None? {
      return NoClock;
    }
    if !Milliseconds(observed.value) {
      return InvalidClock;
    }
    if prepared.expiresAtMs.Some? && observed.value >= prepared.expiresAtMs.value {
      return Expired(prepared.idempotencyKey);
    }
    var answer := mailer.Send(prepared.request, prepared.idempotencyKey);
    r := if answer.Some? then Response(answer.value) else SendFailed;
  }

  /** A signal just prepared may be sent at once from its own account, until its expiry and, without one, at any time;
      the expiry lies within a minute of the preparation. */
  lemma PreparedMaySend(input: Input, callbacks: bool, now: int, first: string, second: string, later: int)
    requires Prepare(input, callbacks, now, first, second).Ready? && Milliseconds(later)
    ensures var p := Prepare(input, callbacks, now, first, second).prepared;
            && MaySend(p, input.accountScope, Some(now))
            && (MaySend(p, input.accountScope, Some(later)) <==> p.expiresAtMs.None? || later < p.expiresAtMs.value)
            && (p.expiresAtMs.Some? ==> now < p.expiresAtMs.value <= now + 60000)
  {
    hide Dc.Lexemes, SignalText, EnvelopeDoc, Mailbox, Chain, MessageId;
  }
}
