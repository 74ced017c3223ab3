/**
 What the reading of a presence email guarantees, what its preparation puts into it and when it is refused, field
 by field.
 */
module PresenceVerdicts {
  import opened Outcomes
  import opened Values
  import opened References
  import opened SignalTime
  import opened Presence
  import opened PresenceChain
  import Utf8
  import Tx = Texts
  import T = JsonText
  import Dc = Decoding
  import En = Envelopes
  import Es = EnvelopeShapes
  import Sg = Signals
  import Sc = SignalContent
  import Sv = SignalVerdicts
  import Sa = SignalAgreement

  // ----- Shapes -----

  /** A UUID without capitals. */
  predicate PlainUuid(s: string) {
    Es.UuidText(s) && forall i :: 0 <= i < |s| ==> !('A' <= s[i] <= 'F')
  }

  /** An interaction identifier with its two halves. */
  predicate Identifies(s: string, uuid: string, host: string) {
    s == uuid + "@" + host && PlainUuid(uuid) && Host(host) && |host| <= 253
  }

  ghost predicate Lasts(issuedAt: string, expiresAt: string) {
    exists issued: nat ::
      PresenceTimestamp(issuedAt) == Some(issued) && PresenceTimestamp(expiresAt) == Some(issued + 600000)
  }

  /** Everything an envelope of the protocol says, whichever of its two steps it is. */
  ghost predicate WellFormed(e: Envelope) {
    && e.interactionVersion == 1 && e.protocol == "primitive.presence" && e.protocolVersion == 1
    && PlainUuid(e.stepId)
    && (exists uuid, host ::
          && Identifies(e.interactionId, uuid, host) && uuid != e.stepId
          && (|| (e.step == "probe" && e.prev.None?)
              || (&& e.step == "alive" && e.prev.Some? && PlainUuid(e.prev.value)
                  && e.prev.value != e.stepId && e.prev.value != uuid)))
    && Lasts(e.payload.issuedAt, e.expiresAt)
    && |e.payload.nonce| in {32, 64} && (forall i :: 0 <= i < |e.payload.nonce| ==> Tx.LowerHex(e.payload.nonce[i]))
    && Mailbox(e.payload.address)
  }

  lemma UuidIsPlain(s: string)
    ensures Uuid(s) <==> PlainUuid(s)
  {
    if PlainUuid(s) {
      forall i | 0 <= i < 36 && i !in {8, 13, 18, 23} ensures Tx.LowerHex(s[i]) {
        Es.UuidTextAt(s, i);
        LowHex(s[i]);
      }
    }
    if Uuid(s) {
      FreshIsPlain(s);
      Es.UuidIsUuidText(s);
      assert forall i :: 0 <= i < 36 ==> s[i] == '-' || Tx.LowerHex(s[i]);
    }
  }

  lemma LowHex(c: char)
    requires c in "0123456789abcdefABCDEF" && !('A' <= c <= 'F')
    ensures Tx.LowerHex(c)
  {
    var i :| 0 <= i < 22 && "0123456789abcdefABCDEF"[i] == c;
  }

  /** The shape check accepts exactly the well-formed envelopes. */
  lemma ShapeExactly(e: Envelope)
    ensures Shape(e) <==> WellFormed(e)
  {
    hide Uuid, PlainUuid, Host, Mailbox, PresenceTimestamp, Nonce, Tx.Split;
    UuidIsPlain(e.stepId);
    NonceExactly(e.payload.nonce);
    LastsExactly(e.payload.issuedAt, e.expiresAt);
    if e.prev.Some? {
      UuidIsPlain(e.prev.value);
    }
    if Shape(e) {
      var parts := Tx.Split(e.interactionId, '@');
      SplitInTwo(e.interactionId, '@');
      UuidIsPlain(parts[0]);
      assert Identifies(e.interactionId, parts[0], parts[1]);
    }
    forall uuid, host | Identifies(e.interactionId, uuid, host)
      ensures Tx.Split(e.interactionId, '@') == [uuid, host] && Uuid(uuid) {
      UuidIsPlain(uuid);
      FreshIsPlain(uuid);
      HostIsPlain(host);
      Tx.SplitAtOnly(uuid, host, '@');
    }
  }

  lemma NonceExactly(s: string)
    ensures Nonce(s) <==> |s| in {32, 64} && forall i :: 0 <= i < |s| ==> Tx.LowerHex(s[i])
  {
  }

  lemma LastsExactly(issuedAt: string, expiresAt: string)
    ensures Lasts(issuedAt, expiresAt) <==>
              && PresenceTimestamp(issuedAt).Some? && PresenceTimestamp(expiresAt).Some?
              && PresenceTimestamp(expiresAt).value - PresenceTimestamp(issuedAt).value == TTL_MS
  {
    hide PresenceTimestamp;
  }

  // ----- Reading -----

  /** The decoded map `m` says exactly what `e` says. */
  ghost predicate Says(m: map<string, Value>, e: Envelope) {
    && Sv.NineFields(m) && m["payload"].Obj?
    && m["payload"].members == map["nonce" := Str(e.payload.nonce), "issued_at" := Str(e.payload.issuedAt),
                                   "address" := Str(e.payload.address)]
    && m["interaction_version"] == Num(e.interactionVersion as real) && m["interaction_id"] == Str(e.interactionId)
    && m["protocol"] == Str(e.protocol) && m["protocol_version"] == Num(e.protocolVersion as real)
    && m["step"] == Str(e.step) && m["step_id"] == Str(e.stepId) && m["expires_at"] == Str(e.expiresAt)
    && m["prev_step_id"] == (if e.prev.Some? then Str(e.prev.value) else Null)
  }

  lemma KeySet(m: map<string, Value>)
    ensures m.Keys == (set k | k in Sc.ENVELOPE_KEYS) <==> Sv.NineFields(m)
  {
    forall k ensures k in Sc.ENVELOPE_KEYS <==> k in Sv.FIELDS {
      Sv.FieldIsKey(k);
    }
    assert (set k | k in Sc.ENVELOPE_KEYS) == Sv.FIELDS;
  }

  lemma PayloadIsMap(p: map<string, Value>, nonce: string, issuedAt: string, address: string)
    ensures p == map["nonce" := Str(nonce), "issued_at" := Str(issuedAt), "address" := Str(address)] <==>
              && p.Keys == {"nonce", "issued_at", "address"}
              && p["nonce"] == Str(nonce) && p["issued_at"] == Str(issuedAt) && p["address"] == Str(address)
  {
    var other := map["nonce" := Str(nonce), "issued_at" := Str(issuedAt), "address" := Str(address)];
    if p.Keys == other.Keys {
      assert p == other <==> forall k :: k in p ==> p[k] == other[k];
    }
  }

  /** No field of a well-formed envelope is empty, so none of them was null. */
  lemma NoEmptyField(e: Envelope)
    requires WellFormed(e)
    ensures e.payload.nonce != "" && e.payload.issuedAt != "" && e.payload.address != "" && e.expiresAt != ""
  {
    hide PlainUuid, Host;
    assert Tx.Split("", '@') == [""];
  }

  lemma FieldsArePoured(m: map<string, Value>, e: Envelope)
    requires Es.GoodEnvelope(m) && En.CheckEnvelope(Obj(m)) == En.Valid(m) && Sv.NineFields(m)
    requires PayloadKeys(m["payload"]) && WellFormed(e) && e.protocolVersion == 1
    requires m["protocol"] == Str("primitive.presence") ==> m["protocol_version"] == Num(1.0)
    requires m.Keys == (set k | k in Sc.ENVELOPE_KEYS)
    ensures FromMap(m) == Some(e) <==> Says(m, e)
  {
    NoEmptyField(e);
    WellFormedNames(e);
    hide WellFormed, En.CheckEnvelope, Es.WireIdText, Es.UuidText, Es.SomethingVisible;
    var p := m["payload"].members;
    PayloadIsMap(p, e.payload.nonce, e.payload.issuedAt, e.payload.address);
    TextIs(p["nonce"], e.payload.nonce);
    TextIs(p["issued_at"], e.payload.issuedAt);
    TextIs(p["address"], e.payload.address);
    TextIs(m["expires_at"], e.expiresAt);
    hide TextField;
  }

  lemma TextIs(v: Value, s: string)
    requires s != ""
    ensures TextField(v) == Some(s) <==> v == Str(s)
    ensures v.Str? || v.Null? ==> TextField(v).Some?
  {
  }

  lemma WellFormedNames(e: Envelope)
    requires WellFormed(e)
    ensures e.interactionVersion == 1 && e.protocol == "primitive.presence" && e.protocolVersion == 1
  {
  }

  predicate OtherVersion(m: map<string, Value>, n: int) {
    && "protocol" in m && m["protocol"] == Str("primitive.presence")
    && "protocol_version" in m && n != 1 && Es.WholeNumber(m["protocol_version"], n)
  }

  lemma ValidExactly(m: map<string, Value>)
    requires Es.GoodEnvelope(m)
    ensures forall n :: FromValid(m) == Unsupported(n) <==> OtherVersion(m, n)
    ensures forall e :: FromValid(m) == Read(e) <==> Says(m, e) && WellFormed(e)
    ensures FromValid(m).Unsupported? || FromValid(m).Read? || FromValid(m) == InvalidPresence
  {
    hide Es.GoodEnvelope, En.CheckEnvelope, WellFormed, Says, Shape, FromMap, PayloadKeys, Sc.ENVELOPE_KEYS;
    Es.CheckedExactly(Obj(m));
    VersionIsWhole(m);
    KeySet(m);
    forall e | Says(m, e) && WellFormed(e)
      ensures Sv.NineFields(m) && PayloadKeys(m["payload"]) && m["protocol"] == Str("primitive.presence")
              && m["protocol_version"] == Num(1.0) {
      SaysVersions(m, e);
    }
    forall e ensures Shape(e) <==> WellFormed(e) {
      ShapeExactly(e);
    }
    if Sv.NineFields(m) && PayloadKeys(m["payload"])
       && (m["protocol"] == Str("primitive.presence") ==> m["protocol_version"] == Num(1.0)) {
      forall e | WellFormed(e) ensures FromMap(m) == Some(e) <==> Says(m, e) {
        WellFormedNames(e);
        FieldsArePoured(m, e);
      }
    }
  }

  lemma SaysVersions(m: map<string, Value>, e: Envelope)
    requires Says(m, e) && WellFormed(e)
    ensures Sv.NineFields(m) && PayloadKeys(m["payload"])
    ensures m["protocol"] == Str("primitive.presence") && m["protocol_version"] == Num(1.0)
  {
    WellFormedNames(e);
    hide WellFormed;
  }

  lemma VersionIsWhole(m: map<string, Value>)
    requires Es.GoodEnvelope(m)
    ensures "protocol" in m && "protocol_version" in m && m["protocol_version"].Num? && "payload" in m
    ensures forall n :: Es.WholeNumber(m["protocol_version"], n) <==>
                          n == m["protocol_version"].n.Floor && m["protocol_version"] == Num(n as real)
    ensures m["protocol_version"] == Num(m["protocol_version"].n.Floor as real)
  {
    hide Es.WireIdText, Es.UuidText, Es.SomethingVisible;
    var n :| Es.WholeNumber(m["protocol_version"], n);
    assert n == m["protocol_version"].n.Floor >= 1;
  }

  /** The verdicts of the presence parser: an envelope is read exactly when the source is small, parses to a valid
      envelope, and says what a well-formed envelope of this protocol says, in these fields and no others. */
  lemma ReadExactly(sc: Strconv, ls: seq<T.Lexeme>)
    ensures ParsePresenceEnvelope(sc, ls) == TooLarge <==> |T.Source(ls)| > 4096
    ensures forall i :: ParsePresenceEnvelope(sc, ls) == NotRead(i) <==>
                          |T.Source(ls)| <= 4096 && En.Parse(sc, ls) == i && !i.Valid?
    ensures forall n :: ParsePresenceEnvelope(sc, ls) == Unsupported(n) <==>
                          && |T.Source(ls)| <= 4096 && En.Parse(sc, ls).Valid?
                          && OtherVersion(En.Parse(sc, ls).envelope, n)
    ensures forall e :: ParsePresenceEnvelope(sc, ls) == Read(e) <==>
                          && |T.Source(ls)| <= 4096 && En.Parse(sc, ls).Valid?
                          && Says(En.Parse(sc, ls).envelope, e) && WellFormed(e)
  {
    hide En.Parse, T.Source, FromValid, Says, WellFormed, OtherVersion, Es.GoodEnvelope, Es.SourceOf;
    Es.ParsedExactly(sc, ls);
    if En.Parse(sc, ls).Valid? {
      ValidExactly(En.Parse(sc, ls).envelope);
    }
  }

  // ----- Preparing -----

  /** Who sends to whom, for which account. */
  predicate Contexted(c: Context) {
    && 0 < |c.accountScope| <= 256 && (forall i :: 0 <= i < |c.accountScope| ==> ' ' <= c.accountScope[i] <= '~')
    && (forall i :: 0 <= i < |c.from| ==> '!' <= c.from[i] <= '~') && Mailbox(Tx.Lower(c.from))
    && (forall i :: 0 <= i < |c.to| ==> '!' <= c.to[i] <= '~') && Mailbox(Tx.Lower(c.to))
  }

  predicate Clocked(now: Option<int>, room: nat) {
    now.Some? && 0 <= now.value && now.value + room <= 253402300799999
  }

  predicate Drawn(id: Option<string>) {
    id.Some? && PlainUuid(Tx.Lower(id.value))
  }

  predicate NonceText(s: string) {
    |s| in {32, 64} && forall i :: 0 <= i < |s| ==> Tx.LowerHex(s[i])
  }

  lemma DrawnExactly(id: Option<string>)
    ensures FreshUuid(id) <==> Drawn(id)
  {
    if id.Some? {
      UuidIsPlain(Tx.Lower(id.value));
    }
    hide Uuid, PlainUuid, Tx.Lower;
  }

  /** A probe is prepared exactly when its addresses, the clock with the ten minutes ahead, the two identifiers and the
      nonce are good, and refused otherwise. */
  lemma ProbeExactly(c: Context, a: Answers)
    ensures PrepareProbe(c, a).Ready? <==>
              && Contexted(c) && Clocked(a.now, 600000) && Drawn(a.first) && Drawn(a.second)
              && Tx.Lower(a.first.value) != Tx.Lower(a.second.value) && a.nonce.Some? && NonceText(a.nonce.value)
    ensures PrepareProbe(c, a).Ready? || PrepareProbe(c, a) == Refused
  {
    hide Mailbox, Uuid, PlainUuid, Assemble, Shape, PresenceTimestamp, FreshUuid, Drawn, Tx.Lower, Nonce, NonceText;
    ProbeNeverTooLarge(c, a);
    DrawnExactly(a.first);
    DrawnExactly(a.second);
    if a.nonce.Some? {
      NonceIsText(a.nonce.value);
    }
    DrawnIsThere(a.first);
    DrawnIsThere(a.second);
  }

  lemma DrawnIsThere(id: Option<string>)
    ensures Drawn(id) ==> id.Some?
  {
  }

  lemma NonceIsText(s: string)
    ensures Nonce(s) <==> NonceText(s)
  {
  }

  /** What a probe says: whose it is, under which key, from when until when, and in its attachment the identifiers, the
      nonce and the address it was prepared with. */
  lemma ProbeSays(sc: Strconv, c: Context, a: Answers) returns (e: Envelope)
    requires Sa.OneIsExact(sc) && PrepareProbe(c, a).Ready?
    ensures var p := PrepareProbe(c, a).prepared;
            && p.accountScope == c.accountScope && p.from == Tx.Lower(c.from) && p.to == Tx.Lower(c.to)
            && p.inReplyTo == "" && p.references == []
            && p.bodyText == "This email checks whether your receiver is available."
            && a.now.Some? && p.preparedAtMs == a.now.value && p.expiresAtMs == a.now.value + 600000
            && a.first.Some? && a.second.Some? && a.nonce.Some?
            && p.idempotencyKey == "presence-" + Tx.Lower(a.second.value)
            && ParsePresenceEnvelope(sc, p.attachment) == Read(e)
    ensures a.first.Some? && a.second.Some? && a.now.Some? && a.nonce.Some? && Milliseconds(a.now.value)
    ensures e.step == "probe" && e.prev == None && e.stepId == Tx.Lower(a.second.value)
    ensures exists user, host ::
              Tx.Lower(c.from) == user + "@" + host && e.interactionId == Tx.Lower(a.first.value) + "@" + host
    ensures e.payload == Payload(a.nonce.value, FormatUtc(a.now.value), Tx.Lower(c.to))
  {
    hide Shape, PresenceTimestamp, ParsePresenceEnvelope, Dc.Lexemes, T.Source, Rendered, Uuid, Nonce, Mailbox,
         Tx.Lower, Join, FormatUtc, Tx.Split, WellFormed;
    ProbeNeverTooLarge(c, a);
    ProbeHasShape(c, a);
    e := ProbeOf(c, a).value;
    WrittenIsRead(sc, e);
    MailboxHalves(Tx.Lower(c.from));
  }

  lemma MailboxHalves(mailbox: string)
    requires Mailbox(mailbox)
    ensures Sg.Mailbox(mailbox) && exists user :: mailbox == user + "@" + Sg.HostOf(mailbox)
  {
    SplitInTwo(mailbox, '@');
    assert mailbox == Tx.Split(mailbox, '@')[0] + "@" + Sg.HostOf(mailbox);
  }

  /** `id` is new to the interaction of the probe. */
  ghost predicate New(probe: Envelope, id: string) {
    && id != probe.stepId
    && forall uuid, host :: Identifies(probe.interactionId, uuid, host) ==> id != uuid
  }

  ghost predicate Parented(messageId: Option<string>, references: seq<string>) {
    && messageId.Some? && Utf8.ByteLength(messageId.value) <= 1024 && MessageId(messageId.value).Some?
    && |references| <= 1000
    && forall i :: 0 <= i < |references| ==>
         Utf8.ByteLength(references[i]) <= 1024 && MessageId(references[i]).Some?
  }

  /** An answer waits for a parent, and is prepared exactly when parent and references, the addresses, the probe, the
      clock and the identifier are good, and the probe was addressed to whoever answers it. */
  lemma AliveExactly(c: Context, probe: Envelope, messageId: Option<string>, references: seq<string>, a: Answers)
    ensures var r := PrepareAlive(c, probe, messageId, references, a);
            && (r == Waiting <==> messageId.None? || messageId.value == "")
            && (r.Ready? <==>
                  && messageId.Some? && messageId.value != "" && Parented(messageId, references)
                  && Contexted(c) && WellFormed(probe) && probe.step == "probe"
                  && Tx.Lower(c.from) == probe.payload.address && Clocked(a.now, 0)
                  && Drawn(a.first) && New(probe, Tx.Lower(a.first.value)))
            && (r == Waiting || r.Ready? || r == Refused)
  {
    AliveNeverTooLarge(c, probe, messageId, references, a);
    DrawnIsThere(a.first);
    ContextExactly(c);
    ParentExactly(messageId, references);
    AliveWaits(c, probe, messageId, references, a);
    hide GoodContext, Contexted, WellFormed, AliveOf, Drawn, New, Parented, PresenceMessageId, AllWithin, MessageId,
         Chain, Tx.Lower, PrepareAlive, Clocked, Shape, Mailbox;
    if GoodContext(c) {
      AnswerExactly(c, probe, a);
    }
  }

  lemma AliveWaits(c: Context, probe: Envelope, messageId: Option<string>, references: seq<string>, a: Answers)
    ensures PrepareAlive(c, probe, messageId, references, a) == Waiting <==> messageId.None? || messageId.value == ""
  {
    hide GoodContext, AliveOf, PresenceMessageId, AllWithin, Chain, Assemble, Cut;
  }

  lemma ParentExactly(messageId: Option<string>, references: seq<string>)
    ensures messageId.Some? && PresenceMessageId(messageId.value).Some? ==> MessageId(messageId.value).Some?
    ensures Parented(messageId, references) <==>
              && messageId.Some? && PresenceMessageId(messageId.value).Some? && MessageId(messageId.value).Some?
              && |references| <= MAX_INPUT && AllWithin(references, Some(1024))
              && Chain(references, MessageId(messageId.value).value).Some?
  {
    hide MessageId, Utf8.ByteLength, Chain;
    if messageId.Some? && MessageId(messageId.value).Some? {
      ChainExactly(references, MessageId(messageId.value).value);
    }
  }

  lemma ContextExactly(c: Context)
    ensures GoodContext(c) <==> Contexted(c)
  {
    hide Mailbox;
  }

  lemma AnswerExactly(c: Context, probe: Envelope, a: Answers)
    requires GoodContext(c)
    ensures AliveOf(c, probe, a).Some? <==>
              && WellFormed(probe) && probe.step == "probe" && Tx.Lower(c.from) == probe.payload.address
              && Clocked(a.now, 0) && Drawn(a.first) && New(probe, Tx.Lower(a.first.value))
  {
    ShapeExactly(probe);
    DrawnExactly(a.first);
    DrawnIsThere(a.first);
    hide Uuid, PlainUuid, Host, PresenceTimestamp, Mailbox;
    if WellFormed(probe) {
      FirstHalf(probe);
    }
    hide GoodContext, WellFormed, Shape, FreshUuid, Drawn, Tx.Lower, Tx.Split, Identifies;
  }

  lemma FirstHalf(e: Envelope)
    requires WellFormed(e)
    ensures forall uuid, host :: Identifies(e.interactionId, uuid, host) ==> uuid == Tx.Split(e.interactionId, '@')[0]
    ensures exists uuid, host :: Identifies(e.interactionId, uuid, host)
  {
    hide PlainUuid, Host, PresenceTimestamp, Mailbox;
    forall uuid, host | Identifies(e.interactionId, uuid, host) ensures Tx.Split(e.interactionId, '@')[0] == uuid {
      UuidIsPlain(uuid);
      FreshIsPlain(uuid);
      Sv.SplitAtSign(e.interactionId, uuid, host);
    }
  }

  /** What an answer says: under which key, until when, in which thread, and in its attachment the probe one step on. */
  lemma AliveSays(sc: Strconv, c: Context, probe: Envelope, messageId: Option<string>, references: seq<string>,
                  a: Answers)
    requires Sa.OneIsExact(sc) && PrepareAlive(c, probe, messageId, references, a).Ready?
    ensures a.first.Some?
    ensures var p := PrepareAlive(c, probe, messageId, references, a).prepared;
            && p.accountScope == c.accountScope && p.from == Tx.Lower(c.from) && p.to == Tx.Lower(c.to)
            && p.bodyText == "This receiver answered the presence check."
            && Some(p.preparedAtMs) == a.now && PresenceTimestamp(probe.expiresAt) == Some(p.expiresAtMs)
            && p.idempotencyKey == "presence-" + Tx.Lower(a.first.value)
            && messageId.Some? && MessageId(messageId.value) == Some(p.inReplyTo)
            && Thread(references, p.inReplyTo, p.references)
            && ParsePresenceEnvelope(sc, p.attachment)
               == Read(probe.(step := "alive", stepId := Tx.Lower(a.first.value), prev := Some(probe.stepId)))
  {
    hide GoodContext, Shape, PresenceTimestamp, ParsePresenceEnvelope, Dc.Lexemes, T.Source, Rendered, MessageId,
         Thread, Chain, Utf8.ByteLength, AllWithin, Join, Tx.Lower, Uuid, Tx.Split;
    AliveHasShape(c, probe, a);
    ShapeHasExpiry(probe);
    WrittenIsRead(sc, AliveOf(c, probe, a).value);
    CanonicalIsFixed(messageId.value);
    CutIsThread(references, MessageId(messageId.value).value);
  }
}
