/**
 Presence: a probe, and the alive answer chained to it. Both are small envelopes with a fixed
 lifetime, read back by a strict shape check.
 */
module Presence {
  import opened Outcomes
  import opened Values
  import opened Utf8
  import opened References
  import opened SignalTime
  import Tx = Texts
  import T = JsonText
  import Dc = Decoding
  import Rd = Reader
  import En = Envelopes
  import Sg = Signals
  import Sc = SignalContent

  const PROTOCOL := "primitive.presence"
  const TTL_MS := 600000
  const MAX_ENVELOPE := 4096
  const MAX_DECODED := 8192
  const MAX_RENDERED := 16384
  const PROBE_TEXT := "This email checks whether your receiver is available."
  const ALIVE_TEXT := "This receiver answered the presence check."

  datatype Payload = Payload(nonce: string, issuedAt: string, address: string)
  datatype Envelope = Envelope(interactionVersion: int, interactionId: string, protocol: string, protocolVersion: int,
                               step: string, stepId: string, prev: Option<string>, expiresAt: string,
                               payload: Payload)

  // ----- Shapes -----

  predicate Uuid(s: string) {
    |s| == 36 && forall i :: 0 <= i < 36 ==> if i in {8, 13, 18, 23} then s[i] == '-' else Tx.LowerHex(s[i])
  }

  predicate Nonce(s: string) {
    (|s| == 32 || |s| == 64) && forall i :: 0 <= i < |s| ==> Tx.LowerHex(s[i])
  }

  /** At least two labels, no capitals. */
  predicate Host(s: string) {
    && Sg.Host(s) && |Tx.Split(s, '.')| >= 2
    && forall i :: 0 <= i < |s| ==> !('A' <= s[i] <= 'Z')
  }

  /** `presenceMailbox`. */
  predicate Mailbox(s: string) {
    && Tx.Lower(s) == s && ByteLength(s) <= 320 && Sg.Mailbox(s)
    && |Sg.HostOf(s)| <= 253 && Host(Sg.HostOf(s))
  }

  /** `presenceShape`. */
  predicate Shape(e: Envelope) {
    var parts := Tx.Split(e.interactionId, '@');
    && |parts| == 2 && Uuid(parts[0]) && Host(parts[1]) && |parts[1]| <= 253 && Uuid(e.stepId) && parts[0] != e.stepId
    && e.interactionVersion == 1 && e.protocol == PROTOCOL && e.protocolVersion == 1
    && (|| (e.step == "probe" && e.prev.None?)
        || (&& e.step == "alive" && e.prev.Some? && Uuid(e.prev.value)
            && e.prev.value != e.stepId && e.prev.value != parts[0]))
    && PresenceTimestamp(e.payload.issuedAt).Some? && PresenceTimestamp(e.expiresAt).Some?
    && PresenceTimestamp(e.expiresAt).value - PresenceTimestamp(e.payload.issuedAt).value == TTL_MS
    && Nonce(e.payload.nonce) && Mailbox(e.payload.address)
  }

  // ----- Reading an envelope -----

  datatype Reading =
    | NotRead(interaction: En.Interaction)
    | Unsupported(version: int)
    | TooLarge
    | InvalidPresence
    | Read(e: Envelope)

  /** A field of type string takes a string, and null as the empty string. */
  function TextField(v: Value): Option<string> {
    match v
    case Str(s) => Some(s)
    case Null => Some("")
    case _ => None
  }

  predicate PayloadKeys(v: Value) {
    v.Obj? && v.members.Keys == {"nonce", "issued_at", "address"}
  }

  /** The decoded map poured into the struct; nothing when a field has the wrong type. */
  function FromMap(e: map<string, Value>): Option<Envelope>
    requires En.CheckEnvelope(Obj(e)) == En.Valid(e)
    requires e.Keys == (set k | k in Sc.ENVELOPE_KEYS) && PayloadKeys(e["payload"])
  {
    var p := e["payload"].members;
    var nonce, issuedAt, address := TextField(p["nonce"]), TextField(p["issued_at"]), TextField(p["address"]);
    if nonce.None? || issuedAt.None? || address.None? then None
    else Some(Envelope(1, e["interaction_id"].s, e["protocol"].s, e["protocol_version"].n.Floor, e["step"].s,
                       e["step_id"].s, if e["prev_step_id"].Str? then Some(e["prev_step_id"].s) else None,
                       TextField(e["expires_at"]).value,
                       Payload(nonce.value, issuedAt.value, address.value)))
  }

  /** `ParsePresenceEnvelope`. */
  function ParsePresenceEnvelope(sc: Strconv, ls: seq<T.Lexeme>): Reading {
    if |T.Source(ls)| > MAX_ENVELOPE then TooLarge
    else
      var parsed := En.Parse(sc, ls);
      if !parsed.Valid? then NotRead(parsed)
      else FromValid(parsed.envelope)
  }

  function FromValid(e: map<string, Value>): Reading {
    if En.CheckEnvelope(Obj(e)) != En.Valid(e) then InvalidPresence
    else if e["protocol"] == Str(PROTOCOL) && e["protocol_version"] != Num(1.0) then
      Unsupported(e["protocol_version"].n.Floor)
    else if e.Keys != (set k | k in Sc.ENVELOPE_KEYS) || !PayloadKeys(e["payload"]) then InvalidPresence
    else match FromMap(e)
      case None => InvalidPresence
      case Some(envelope) => if Shape(envelope) then Read(envelope) else InvalidPresence
  }

  // ----- Writing one -----

  function PayloadDoc(p: Payload): Rd.Doc {
    Rd.DObj([Rd.Member("nonce", Rd.DStr(p.nonce)), Rd.Member("issued_at", Rd.DStr(p.issuedAt)),
             Rd.Member("address", Rd.DStr(p.address))])
  }

  /** The encoder's view of an envelope; both versions are always 1 when one is written. */
  function EnvelopeDoc(e: Envelope): Rd.Doc {
    Rd.DObj(Sg.EnvelopeMembers(e.interactionId, e.protocol, e.step, e.stepId, e.prev, Some(e.expiresAt),
                               PayloadDoc(e.payload)))
  }

  datatype Context = Context(accountScope: string, from: string, to: string)

  predicate Visible(s: string) {
    forall i :: 0 <= i < |s| ==> '!' <= s[i] <= '~'
  }

  /** `presenceContext`: both addresses lowered. */
  predicate GoodContext(c: Context) {
    && 0 < |c.accountScope| <= 256 && (forall i :: 0 <= i < |c.accountScope| ==> ' ' <= c.accountScope[i] <= '~')
    && Visible(c.from) && Visible(c.to) && Mailbox(Tx.Lower(c.from)) && Mailbox(Tx.Lower(c.to))
  }

  function LoweredHost(address: string): string
    requires Mailbox(Tx.Lower(address))
  {
    Sg.HostOf(Tx.Lower(address))
  }

  datatype Prepared = Prepared(accountScope: string, preparedAtMs: int, expiresAtMs: int, idempotencyKey: string,
                               from: string, to: string, bodyText: string, inReplyTo: string, references: seq<string>,
                               attachment: seq<T.Lexeme>)

  datatype Preparation = Waiting | Ready(prepared: Prepared) | Refused | RefusedForSize

  /** The length of `base64.StdEncoding` on `n` bytes. */
  function Base64Length(n: nat): nat {
    (n + 2) / 3 * 4
  }

  /** What the carrier budget is compared with. */
  function Rendered(c: Context, encoded: nat, text: string, target: string, references: seq<string>): nat {
    var attachment := Base64Length(encoded);
    4096 + |c.from| + |c.to| + attachment + (attachment + 75) / 76 * 2 + |text| + |target| + |Join(references)|
  }

  /** `preparePresence`. */
  function Assemble(c: Context, e: Envelope, observed: int, target: string, references: seq<string>): (r: Preparation)
    requires PresenceTimestamp(e.expiresAt).Some?
    ensures !r.Waiting? && !r.Refused?
  {
    var encoded := Dc.Lexemes(EnvelopeDoc(e));
    var size := |T.Source(encoded)|;
    var text := if e.step == "alive" then ALIVE_TEXT else PROBE_TEXT;
    if || size > MAX_ENVELOPE || size + |text| > MAX_DECODED
       || Rendered(c, size, text, target, references) > MAX_RENDERED
    then RefusedForSize
    else Ready(Prepared(c.accountScope, observed, PresenceTimestamp(e.expiresAt).value, "presence-" + e.stepId,
                        Tx.Lower(c.from), Tx.Lower(c.to), text, target, references, encoded))
  }

  /** The callbacks' answers, `None` for a callback that is missing; the second identifier is drawn only for a probe. */
  datatype Answers = Answers(now: Option<int>, first: Option<string>, second: Option<string>, nonce: Option<string>)

  predicate FreshUuid(answer: Option<string>) {
    answer.Some? && Uuid(Tx.Lower(answer.value))
  }

  function ProbeOf(c: Context, a: Answers): (r: Option<Envelope>)
    requires GoodContext(c)
    ensures r.Some? ==> a.now.Some? && PresenceTimestamp(r.value.expiresAt) == Some(a.now.value + TTL_MS)
  {
    hide PresenceTimestamp, Nonce, CivilOf, Spell, UtcExpiry, Mailbox, Uuid, Tx.Lower;
    if a.now.None? || a.nonce.None? || !Milliseconds(a.now.value) || !Milliseconds(a.now.value + TTL_MS) then None
    else if !FreshUuid(a.first) || !FreshUuid(a.second) then None
    else if Tx.Lower(a.first.value) == Tx.Lower(a.second.value) || !Nonce(a.nonce.value) then None
    else
      FormattedIsRead(a.now.value + TTL_MS);
      Some(Envelope(1, Tx.Lower(a.first.value) + "@" + LoweredHost(c.from), PROTOCOL, 1, "probe",
                    Tx.Lower(a.second.value), None, FormatUtc(a.now.value + TTL_MS),
                    Payload(a.nonce.value, FormatUtc(a.now.value), Tx.Lower(c.to))))
  }

  /** `PreparePresenceProbeEmail`. */
  function PrepareProbe(c: Context, a: Answers): Preparation {
    if !GoodContext(c) || ProbeOf(c, a).None? then Refused
    else Assemble(c, ProbeOf(c, a).value, a.now.value, "", [])
  }

  /** The answer to a probe: the same interaction, one step on. */
  function AliveOf(c: Context, probe: Envelope, a: Answers): (r: Option<Envelope>)
    requires GoodContext(c)
    ensures r.Some? ==> a.now.Some? && Shape(probe)
  {
    if !Shape(probe) || probe.step != "probe" || Tx.Lower(c.from) != probe.payload.address then None
    else if a.now.None? || !Milliseconds(a.now.value) || !FreshUuid(a.first) then None
    else if Tx.Lower(a.first.value) in {probe.stepId, Tx.Split(probe.interactionId, '@')[0]} then None
    else Some(probe.(step := "alive", stepId := Tx.Lower(a.first.value), prev := Some(probe.stepId)))
  }

  /** `presenceMessageID`. */
  function PresenceMessageId(value: string): Option<string> {
    if ByteLength(value) > 1024 then None else MessageId(value)
  }

  ghost function PrepareAlive(c: Context, probe: Envelope, messageId: Option<string>, references: seq<string>,
                              a: Answers): Preparation {
    if messageId.None? || messageId.value == "" then Waiting
    else if PresenceMessageId(messageId.value).None? || !GoodContext(c) || AliveOf(c, probe, a).None? then Refused
    else
      var target := MessageId(messageId.value).value;
      CanonicalIsFixed(messageId.value);
      if |references| > MAX_INPUT || !AllWithin(references, Some(1024)) || Chain(references, target).None? then Refused
      else
        CutKeepsTarget(references, target);
        Assemble(c, AliveOf(c, probe, a).value, a.now.value, target, Cut(Chain(references, target).value))
  }

  /** `PreparePresenceAliveEmail`, with its loops: collect the references, cut the chain by joining,
      and turn the local copy of the probe into the answer field by field. */
  method PreparePresenceAliveEmail(c: Context, probe: Envelope, messageId: Option<string>, references: seq<string>,
                                   a: Answers)
    returns (r: Preparation)
    ensures r == PrepareAlive(c, probe, messageId, references, a)
  {
    hide Shape, Mailbox, Uuid, MessageId, Chain, Assemble, GoodContext, PresenceTimestamp, AllWithin;
    if messageId.None? || messageId.value == "" {
      return Waiting;
    }
    var target := PresenceMessageId(messageId.value);
    if target.None? || !GoodContext(c) {
      return Refused;
    }
    if !Shape(probe) || probe.step != "probe" || Tx.Lower(c.from) != probe.payload.address || |references| > MAX_INPUT {
      return Refused;
    }
    var chain := CollectReferences(references, target.value, Some(1024));
    if chain.None? {
      return Refused;
    }
    CanonicalIsFixed(messageId.value);
    CutKeepsTarget(references, target.value);
    var refs := TrimJoining(chain.value);
    if a.now.None? || !Milliseconds(a.now.value) || !FreshUuid(a.first) {
      return Refused;
    }
    var step := Tx.Lower(a.first.value);
    if step == probe.stepId || step == Tx.Split(probe.interactionId, '@')[0] {
      return Refused;
    }
    var answer := probe;
    var previous := probe.stepId;
    answer := answer.(step := "alive");
    answer := answer.(stepId := step);
    answer := answer.(prev := Some(previous));
    ShapeHasExpiry(probe);
    r := Assemble(c, answer, a.now.value, target.value, refs);
  }

  lemma ShapeHasExpiry(e: Envelope)
    requires Shape(e)
    ensures PresenceTimestamp(e.expiresAt).Some?
  {
  }
}
