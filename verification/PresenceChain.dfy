/** What presence emails keep: every one prepared has the shape, is read back, and is never too large. */
module PresenceChain {
  import opened Outcomes
  import opened Values
  import opened References
  import opened SignalTime
  import Utf8
  import Tx = Texts
  import T = JsonText
  import Dc = Decoding
  import Rd = Reader
  import En = Envelopes
  import Ec = Encoded
  import Sg = Signals
  import Sc = SignalContent
  import Sa = SignalAgreement
  import opened Presence

  // ----- Shapes of what is prepared -----

  lemma FreshIsPlain(id: string)
    requires Uuid(id)
    ensures En.IsUuid(id) && '@' !in id && Ec.Unescaped(id)
  {
    forall i | 0 <= i < 36 ensures ' ' <= id[i] <= '~' && id[i] != '"' && id[i] != '\\' && id[i] != '@' {
      assert i in {8, 13, 18, 23} || Tx.LowerHex(id[i]);
    }
  }

  lemma HostIsPlain(host: string)
    requires Host(host)
    ensures '@' !in host && Ec.Unescaped(host)
  {
    Sa.HostChars(host);
  }

  /** Every probe prepared has the shape. */
  lemma ProbeHasShape(c: Context, a: Answers)
    requires GoodContext(c) && ProbeOf(c, a).Some?
    ensures Shape(ProbeOf(c, a).value) && ProbeOf(c, a).value.step == "probe"
    ensures ProbeOf(c, a).value.payload.address == Tx.Lower(c.to)
  {
    hide Uuid, Host, Mailbox, Nonce, PresenceTimestamp, FormatUtc, Sg.HostOf, Tx.Split;
    MailboxHost(Tx.Lower(c.from));
    var id, host := Tx.Lower(a.first.value), Sg.HostOf(Tx.Lower(c.from));
    FreshIsPlain(id);
    HostIsPlain(host);
    Tx.SplitAtOnly(id, host, '@');
    FormattedIsRead(a.now.value);
    FormattedIsRead(a.now.value + TTL_MS);
  }

  lemma MailboxHost(mailbox: string)
    requires Mailbox(mailbox)
    ensures Sg.Mailbox(mailbox) && Host(Sg.HostOf(mailbox)) && |Sg.HostOf(mailbox)| <= 253
  {
  }

  /** Every answer prepared has the shape, and is one step after the probe in the same interaction,
      with the same nonce, address and lifetime. */
  lemma AliveHasShape(c: Context, probe: Envelope, a: Answers)
    requires GoodContext(c) && AliveOf(c, probe, a).Some?
    ensures var answer := AliveOf(c, probe, a).value;
            && Shape(answer) && answer.step == "alive" && answer.prev == Some(probe.stepId)
            && answer.stepId != probe.stepId
            && answer.interactionId == probe.interactionId && answer.payload == probe.payload
            && answer.expiresAt == probe.expiresAt
  {
    hide Uuid, Host, Mailbox, Nonce, PresenceTimestamp, Tx.Split;
  }

  /** The identifiers of a probe are the two that were drawn for it. */
  lemma ProbeIdentifiers(c: Context, a: Answers)
    requires GoodContext(c) && ProbeOf(c, a).Some?
    ensures var probe := ProbeOf(c, a).value;
            probe.stepId == Tx.Lower(a.second.value) && Tx.Split(probe.interactionId, '@')[0] == Tx.Lower(a.first.value)
  {
    hide Uuid, Host, Mailbox, Nonce, PresenceTimestamp, FormatUtc, Sg.HostOf, Tx.Split, Tx.Lower;
    MailboxHost(Tx.Lower(c.from));
    FreshIsPlain(Tx.Lower(a.first.value));
    HostIsPlain(LoweredHost(c.from));
    Tx.SplitAtOnly(Tx.Lower(a.first.value), LoweredHost(c.from), '@');
  }

  // ----- Sizes -----

  lemma {:induction false} SplitInTwo(s: string, c: char)
    requires |Tx.Split(s, c)| == 2
    ensures s == Tx.Split(s, c)[0] + [c] + Tx.Split(s, c)[1]
  {
    if s[0] == c {
      SplitOnce(s[1..], c);
    } else {
      SplitInTwo(s[1..], c);
    }
  }

  lemma {:induction false} SplitOnce(s: string, c: char)
    requires |Tx.Split(s, c)| == 1
    ensures Tx.Split(s, c)[0] == s
  {
    if s != [] {
      SplitOnce(s[1..], c);
    }
  }

  lemma AtomIsPlain(s: string)
    requires forall i :: 0 <= i < |Tx.Split(s, '.')| ==> Sg.Atom(Tx.Split(s, '.')[i])
    ensures Ec.Unescaped(s)
  {
    forall i | 0 <= i < |s| && s[i] != '.' ensures Sg.AtomChar(s[i]) {
      Sa.SplitCovers(s, '.', i);
    }
    assert forall c :: Sg.AtomChar(c) ==> ' ' <= c <= '~' && c != '"' && c != '\\';
  }

  lemma PlainJoin(a: string, b: string)
    requires Ec.Unescaped(a) && Ec.Unescaped(b)
    ensures Ec.Unescaped(a + "@" + b)
  {
  }

  lemma MailboxIsPlain(mailbox: string)
    requires Mailbox(mailbox)
    ensures Ec.Unescaped(mailbox) && |mailbox| <= 320
  {
    hide Tx.Split, Sg.Host, Host;
    var parts := Tx.Split(mailbox, '@');
    AtomIsPlain(parts[0]);
    HostIsPlain(parts[1]);
    PlainJoin(parts[0], parts[1]);
    SplitInTwo(mailbox, '@');
    Utf8.EncodingIsLonger(mailbox);
  }

  lemma NonceIsPlain(nonce: string)
    requires Nonce(nonce)
    ensures Ec.Unescaped(nonce) && |nonce| <= 64
  {
    assert forall i :: 0 <= i < |nonce| ==> Tx.LowerHex(nonce[i]);
  }

  lemma TimestampIsPlain(text: string)
    requires PresenceTimestamp(text).Some?
    ensures Ec.Unescaped(text) && |text| == 24
  {
    forall i | 0 <= i < 24 ensures ' ' <= text[i] <= '~' && text[i] != '"' && text[i] != '\\' {
      assert i in {4, 7, 10, 13, 16, 19, 23} || IsDigit(text[i]);
    }
  }

  lemma InteractionIdIsPlain(e: Envelope)
    requires Shape(e)
    ensures Ec.Unescaped(e.interactionId) && |e.interactionId| <= 290
    ensures En.WireId(e.interactionId) && En.IsUuid(e.stepId) && Ec.Unescaped(e.stepId)
    ensures e.prev.Some? ==> En.IsUuid(e.prev.value) && Ec.Unescaped(e.prev.value)
  {
    hide Tx.Split, Sg.Host, Host, Uuid, Mailbox, Nonce, PresenceTimestamp, En.IsUuid, En.WireId, Ec.Unescaped;
    var parts := Tx.Split(e.interactionId, '@');
    SplitInTwo(e.interactionId, '@');
    FreshIsPlain(parts[0]);
    FreshIsPlain(e.stepId);
    HostIsPlain(parts[1]);
    PlainJoin(parts[0], parts[1]);
    HostOfHost(parts[1]);
    Sa.UuidAtHost(parts[0], parts[1]);
    UuidLength(parts[0]);
    if e.prev.Some? {
      FreshIsPlain(e.prev.value);
    }
  }

  lemma HostOfHost(host: string)
    requires Host(host)
    ensures Sg.Host(host)
  {
  }

  lemma UuidLength(id: string)
    requires Uuid(id)
    ensures |id| == 36
  {
  }

  /** A member with a plain key and a plain text. */
  lemma PlainMember(key: string, text: string)
    requires Ec.Unescaped(key) && Ec.Unescaped(text)
    ensures Ec.MemberBound(Rd.Member(key, Rd.DStr(text))) == |key| + |text| + 6
  {
  }

  lemma PlainKeys()
    ensures forall i :: 0 <= i < 9 ==> Ec.Unescaped(Sc.ENVELOPE_KEYS[i]) && |Sc.ENVELOPE_KEYS[i]| <= 19
  {
    PlainEarlyKeys();
    PlainLateKeys();
    hide Ec.Unescaped;
    assert forall i :: 0 <= i < 9 ==>
             Sc.ENVELOPE_KEYS[i] in {"interaction_version", "interaction_id", "protocol", "protocol_version", "step",
                                     "step_id", "prev_step_id", "expires_at", "payload"};
  }

  lemma PlainEarlyKeys()
    ensures Ec.Unescaped("interaction_version") && Ec.Unescaped("interaction_id") && Ec.Unescaped("protocol")
    ensures Ec.Unescaped("protocol_version")
  {
  }

  lemma PlainLateKeys()
    ensures Ec.Unescaped("step") && Ec.Unescaped("step_id") && Ec.Unescaped("prev_step_id")
    ensures Ec.Unescaped("expires_at") && Ec.Unescaped("payload")
  {
  }

  lemma PlainPayloadKeys()
    ensures Ec.Unescaped("nonce") && Ec.Unescaped("issued_at") && Ec.Unescaped("address")
  {
  }

  lemma OneMoreBound(member: Rd.Member, rest: seq<Rd.Member>)
    ensures Ec.MembersBound([member] + rest) == Ec.MemberBound(member) + Ec.MembersBound(rest)
  {
    assert ([member] + rest)[1..] == rest;
  }

  lemma PayloadBound(p: Payload)
    requires Ec.Unescaped(p.nonce) && |p.nonce| <= 64 && Ec.Unescaped(p.issuedAt) && |p.issuedAt| == 24
    requires Ec.Unescaped(p.address) && |p.address| <= 320
    ensures Ec.Bound(PayloadDoc(p)) <= 449
  {
    hide Ec.MemberBound, Ec.Unescaped;
    PlainPayloadKeys();
    var a, b, c := Rd.Member("nonce", Rd.DStr(p.nonce)), Rd.Member("issued_at", Rd.DStr(p.issuedAt)),
                   Rd.Member("address", Rd.DStr(p.address));
    PlainMember("nonce", p.nonce);
    PlainMember("issued_at", p.issuedAt);
    PlainMember("address", p.address);
    OneMoreBound(c, []);
    OneMoreBound(b, [c]);
    OneMoreBound(a, [b, c]);
    assert [c] + [] == [c] && [b] + [c] == [b, c] && [a] + [b, c] == [a, b, c];
  }

  lemma PlainFields(e: Envelope)
    requires Shape(e)
    ensures Ec.Unescaped(e.payload.nonce) && |e.payload.nonce| <= 64
    ensures Ec.Unescaped(e.payload.issuedAt) && |e.payload.issuedAt| == 24
    ensures Ec.Unescaped(e.payload.address) && |e.payload.address| <= 320
    ensures Ec.Unescaped(e.expiresAt) && |e.expiresAt| == 24
    ensures Ec.Unescaped(e.protocol) && |e.protocol| <= 38 && Ec.Unescaped(e.step) && |e.step| <= 38
    ensures |e.stepId| == 36 && (e.prev.Some? ==> |e.prev.value| == 36)
  {
    hide Tx.Split, Host, Mailbox, PresenceTimestamp, Nonce;
    NonceIsPlain(e.payload.nonce);
    TimestampIsPlain(e.payload.issuedAt);
    TimestampIsPlain(e.expiresAt);
    MailboxIsPlain(e.payload.address);
  }

  /** A plain key of the envelope with a short document. */
  lemma ShortEntry(member: Rd.Member, size: nat)
    requires Ec.Unescaped(member.key) && |member.key| <= 19 && Ec.Bound(member.doc) <= size
    ensures Ec.MemberBound(member) <= size + 23
  {
  }

  ghost predicate ShortDoc(e: Envelope, d: Rd.Doc) {
    d == Rd.DNum("1") || d.DNull? || (d.DStr? && d.s in {e.protocol, e.step, e.stepId, e.expiresAt})
      || (e.prev.Some? && d == Rd.DStr(e.prev.value))
  }

  lemma ShortDocs(e: Envelope, d: Rd.Doc)
    requires Shape(e) && ShortDoc(e, d)
    ensures Ec.Bound(d) <= 40
  {
    hide Shape, Ec.Unescaped, Ec.QuotedBound, Utf8.Encode;
    PlainFields(e);
    InteractionIdIsPlain(e);
    if d.DStr? {
      PlainBound(d.s);
    } else if d.DNum? {
      DigitOne();
    }
  }

  lemma DigitOne()
    ensures |Utf8.Encode("1")| == 1
  {
    Utf8.AsciiEncoding("1");
  }

  lemma PlainBound(text: string)
    requires Ec.Unescaped(text)
    ensures Ec.QuotedBound(text) == |text| + 2
  {
  }

  /** Members other than the interaction identifier and the payload are short. */
  lemma ShortMember(e: Envelope, i: nat)
    requires Shape(e) && i < 8 && i != 1
    ensures Ec.MemberBound(Sg.EnvelopeMembers(e.interactionId, e.protocol, e.step, e.stepId, e.prev,
                                              Some(e.expiresAt), PayloadDoc(e.payload))[i]) <= 65
  {
    hide Shape, Ec.Unescaped, Ec.Bound, Ec.MemberBound;
    PlainKeys();
    var member := Sg.EnvelopeMembers(e.interactionId, e.protocol, e.step, e.stepId, e.prev, Some(e.expiresAt),
                                     PayloadDoc(e.payload))[i];
    ShortDocs(e, member.doc);
    assert member.key == Sc.ENVELOPE_KEYS[i];
    ShortEntry(member, 40);
  }

  lemma LongMembers(e: Envelope)
    requires Shape(e)
    ensures Ec.MemberBound(Rd.Member("interaction_id", Rd.DStr(e.interactionId))) <= 315
    ensures Ec.MemberBound(Rd.Member("payload", PayloadDoc(e.payload))) <= 475
  {
    hide Shape, Ec.Unescaped, Ec.Bound, Ec.MemberBound, PayloadDoc, En.WireId, En.IsUuid;
    PlainFields(e);
    InteractionIdIsPlain(e);
    PlainKeys();
    PayloadBound(e.payload);
    assert Sc.ENVELOPE_KEYS[1] == "interaction_id" && Sc.ENVELOPE_KEYS[8] == "payload";
    PlainMember("interaction_id", e.interactionId);
    ShortEntry(Rd.Member("payload", PayloadDoc(e.payload)), 449);
  }

  lemma NineMembers(members: seq<Rd.Member>)
    requires |members| == 9 && Ec.MemberBound(members[1]) <= 315 && Ec.MemberBound(members[8]) <= 475
    requires forall i :: 0 <= i < 8 && i != 1 ==> Ec.MemberBound(members[i]) <= 65
    ensures |T.Source(Dc.Lexemes(Rd.DObj(members)))| <= 1300
  {
    hide T.Source, Dc.Lexemes, Ec.MemberBound;
    Ec.MembersBoundEach(members[..1], 65);
    Ec.MembersBoundEach(members[1..2], 315);
    Ec.MembersBoundEach(members[2..8], 65);
    Ec.MembersBoundEach(members[8..], 475);
    Ec.MembersBoundAppend(members[..1], members[1..2]);
    Ec.MembersBoundAppend(members[..2], members[2..8]);
    Ec.MembersBoundAppend(members[..8], members[8..]);
    assert members[..1] + members[1..2] == members[..2] && members[..2] + members[2..8] == members[..8]
           && members[..8] + members[8..] == members;
    Ec.EncodedBytes(Rd.DObj(members));
  }

  /** An envelope of the right shape takes at most 1300 bytes. */
  lemma EnvelopeIsSmall(e: Envelope)
    requires Shape(e)
    ensures |T.Source(Dc.Lexemes(EnvelopeDoc(e)))| <= 1300
  {
    hide T.Source, Dc.Lexemes, Ec.MemberBound, Shape, PayloadDoc;
    var members := Sg.EnvelopeMembers(e.interactionId, e.protocol, e.step, e.stepId, e.prev, Some(e.expiresAt),
                                      PayloadDoc(e.payload));
    forall i | 0 <= i < 8 && i != 1 ensures Ec.MemberBound(members[i]) <= 65 {
      ShortMember(e, i);
    }
    LongMembers(e);
    NineMembers(members);
  }

  // ----- Read back -----

  /** The parser takes the encoding of a well-shaped envelope and gives back its members. */
  lemma WrittenIsValid(sc: Strconv, e: Envelope) returns (v: map<string, Value>)
    requires Sa.OneIsExact(sc) && Shape(e)
    ensures En.Parse(sc, Dc.Lexemes(EnvelopeDoc(e))) == En.Valid(v) && En.CheckEnvelope(Obj(v)) == En.Valid(v)
    ensures Sa.EnvelopeIs(v, e.interactionId, e.protocol, e.step, e.stepId,
                          if e.prev.Some? then Str(e.prev.value) else Null,
                          Str(e.expiresAt), Rd.ValueOf(sc, PayloadDoc(e.payload)))
  {
    hide Shape, Dc.Lexemes, T.Source, Rd.ValueOf, PayloadDoc, Rd.Acceptable, Dc.PlainNumbers, En.Parse, En.WireId,
         En.IsUuid, En.AllSpace, Sc.KeysExactly, Ec.Unescaped, En.CheckEnvelope, Sa.EnvelopeIs, Sg.EnvelopeMembers;
    EnvelopeIsSmall(e);
    InteractionIdIsPlain(e);
    StepIsVisible(e);
    PayloadValue(sc, e.payload);
    var payload := PayloadDoc(e.payload);
    Sa.EnvelopeAcceptable(sc, e.interactionId, e.protocol, e.step, e.stepId, e.prev, Some(e.expiresAt), payload);
    Sa.EnvelopeValue(sc, e.interactionId, e.protocol, e.step, e.stepId, e.prev, Some(e.expiresAt), payload);
    Ec.EncodeThenParse(sc, EnvelopeDoc(e));
    v := Rd.ValueOf(sc, EnvelopeDoc(e)).members;
    Sa.OptionalValue(sc, e.prev);
    Sa.OptionalValue(sc, Some(e.expiresAt));
    Sa.VersionedEnvelopeIsValid(v, e.interactionId, e.protocol, e.step, e.stepId, Rd.ValueOf(sc, Sg.OrNull(e.prev)),
                                Rd.ValueOf(sc, Sg.OrNull(Some(e.expiresAt))), Rd.ValueOf(sc, payload));
  }

  /** An envelope of the right shape is read back from its own encoding. */
  lemma WrittenIsRead(sc: Strconv, e: Envelope)
    requires Sa.OneIsExact(sc) && Shape(e)
    ensures ParsePresenceEnvelope(sc, Dc.Lexemes(EnvelopeDoc(e))) == Read(e)
  {
    hide Shape, Dc.Lexemes, T.Source, En.Parse, En.CheckEnvelope, Sa.EnvelopeIs, FromValid, PayloadIs, Rd.ValueOf,
         EnvelopeDoc, PayloadDoc;
    EnvelopeIsSmall(e);
    PayloadValue(sc, e.payload);
    var v := WrittenIsValid(sc, e);
    ValidIsRead(v, e, Rd.ValueOf(sc, PayloadDoc(e.payload)));
  }

  lemma StepIsVisible(e: Envelope)
    requires Shape(e)
    ensures !En.AllSpace(e.protocol) && !En.AllSpace(e.step)
  {
    hide Tx.Split, PresenceTimestamp, Mailbox, Nonce, Host, Uuid;
    assert !En.InteractionSpace(e.protocol[0]) && !En.InteractionSpace(e.step[0]);
  }

  predicate PayloadIs(v: Value, p: Payload) {
    && PayloadKeys(v) && v.members["nonce"] == Str(p.nonce) && v.members["issued_at"] == Str(p.issuedAt)
    && v.members["address"] == Str(p.address)
  }

  lemma PayloadValue(sc: Strconv, p: Payload)
    ensures Rd.Acceptable(sc, PayloadDoc(p), MAX_DEPTH - 1) && Dc.PlainNumbers(PayloadDoc(p))
    ensures PayloadIs(Rd.ValueOf(sc, PayloadDoc(p)), p)
  {
    hide Rd.MembersInto;
    var members := PayloadDoc(p).members;
    assert "nonce" != "issued_at" && "nonce" != "address" && "issued_at" != "address" by {
      assert |"nonce"| == 5 && |"issued_at"| == 9 && |"address"| == 7;
    }
    Ec.ObjectValue(sc, members);
    var obj := Rd.ValueOf(sc, PayloadDoc(p)).members;
    assert Ec.Holds(sc, obj, members[0]) && Ec.Holds(sc, obj, members[1]) && Ec.Holds(sc, obj, members[2]);
  }

  lemma KeysAreTheSet(v: map<string, Value>)
    requires Sc.KeysExactly(v, Sc.ENVELOPE_KEYS, [])
    ensures v.Keys == set k | k in Sc.ENVELOPE_KEYS
  {
  }

  lemma MapIsPoured(v: map<string, Value>, e: Envelope, payload: Value)
    requires PayloadIs(payload, e.payload) && En.CheckEnvelope(Obj(v)) == En.Valid(v)
             && e.interactionVersion == e.protocolVersion == 1
    requires v.Keys == set k | k in Sc.ENVELOPE_KEYS
    requires Sa.EnvelopeIs(v, e.interactionId, e.protocol, e.step, e.stepId,
                           if e.prev.Some? then Str(e.prev.value) else Null, Str(e.expiresAt), payload)
    ensures PayloadKeys(v["payload"]) && FromMap(v) == Some(e)
  {
    Sa.AllKeysThere(v);
    hide En.CheckEnvelope, Sc.KeysExactly;
    assert 1.0.Floor == 1;
    var p := v["payload"].members;
    assert TextField(p["nonce"]) == Some(e.payload.nonce) && TextField(p["issued_at"]) == Some(e.payload.issuedAt);
    assert TextField(p["address"]) == Some(e.payload.address) && TextField(v["expires_at"]) == Some(e.expiresAt);
    hide TextField;
  }

  lemma ValidIsRead(v: map<string, Value>, e: Envelope, payload: Value)
    requires Shape(e) && PayloadIs(payload, e.payload) && En.CheckEnvelope(Obj(v)) == En.Valid(v)
    requires Sa.EnvelopeIs(v, e.interactionId, e.protocol, e.step, e.stepId,
                           if e.prev.Some? then Str(e.prev.value) else Null, Str(e.expiresAt), payload)
    ensures FromValid(v) == Read(e)
  {
    hide Shape, En.CheckEnvelope, Sc.KeysExactly, FromMap, PayloadIs, PayloadKeys;
    KeysAreTheSet(v);
    Sa.AllKeysThere(v);
    ShapeVersions(e);
    MapIsPoured(v, e, payload);
  }

  lemma ShapeVersions(e: Envelope)
    requires Shape(e)
    ensures e.interactionVersion == 1 && e.protocolVersion == 1
  {
  }

  // ----- No late refusal -----

  /** With the addresses, the target and the references checked, the carrier budget cannot be exceeded. */
  lemma CarrierFits(c: Context, e: Envelope, observed: int, target: string, references: seq<string>)
    requires GoodContext(c) && Shape(e) && |target| <= 998 && |Join(references)| <= MAX_JOINED
    ensures PresenceTimestamp(e.expiresAt).Some? && Assemble(c, e, observed, target, references).Ready?
  {
    hide Shape, Mailbox, PresenceTimestamp, Dc.Lexemes, T.Source, EnvelopeDoc;
    EnvelopeIsSmall(e);
    ShapeHasExpiry(e);
    ShortMailbox(c.from);
    ShortMailbox(c.to);
    assert Base64Length(|T.Source(Dc.Lexemes(EnvelopeDoc(e)))|) <= 1736;
  }

  lemma ShortMailbox(address: string)
    requires Mailbox(Tx.Lower(address))
    ensures |address| <= 320
  {
    Utf8.EncodingIsLonger(Tx.Lower(address));
  }

  /** A probe is prepared exactly when its context and the callbacks' answers are good. */
  lemma ProbeNeverTooLarge(c: Context, a: Answers)
    ensures PrepareProbe(c, a).Ready? <==> GoodContext(c) && ProbeOf(c, a).Some?
  {
    hide GoodContext, ProbeOf, Assemble, Shape, PresenceTimestamp;
    if GoodContext(c) && ProbeOf(c, a).Some? {
      ProbeHasShape(c, a);
      EmptyJoin();
      CarrierFits(c, ProbeOf(c, a).value, a.now.value, "", []);
    }
  }

  lemma EmptyJoin()
    ensures |Join([])| == 0
  {
  }

  /** An answer is never refused for its size: it is prepared exactly when the parent, the addresses, the probe, the
      references and the identifier are good. */
  lemma AliveNeverTooLarge(c: Context, probe: Envelope, messageId: Option<string>, references: seq<string>, a: Answers)
    ensures PrepareAlive(c, probe, messageId, references, a) != RefusedForSize
    ensures PrepareAlive(c, probe, messageId, references, a).Ready? <==>
              && messageId.Some? && messageId.value != "" && PresenceMessageId(messageId.value).Some?
              && GoodContext(c) && AliveOf(c, probe, a).Some?
              && |references| <= MAX_INPUT && AllWithin(references, Some(1024))
              && Chain(references, MessageId(messageId.value).value).Some?
  {
    hide GoodContext, AliveOf, Assemble, Shape, PresenceTimestamp, MessageId, Chain, AllWithin, Utf8.ByteLength;
    if messageId.Some? && MessageId(messageId.value).Some? && GoodContext(c) && AliveOf(c, probe, a).Some? {
      var target := MessageId(messageId.value).value;
      AliveHasShape(c, probe, a);
      CanonicalIsFixed(messageId.value);
      if Chain(references, target).Some? {
        CutKeepsTarget(references, target);
        CarrierFits(c, AliveOf(c, probe, a).value, a.now.value, target, Cut(Chain(references, target).value));
      }
    }
  }

  /** The recipient of a prepared probe can compose the answer with any identifier not yet in use. */
  lemma AnswerExists(c: Context, a: Answers, peer: Context, b: Answers)
    requires GoodContext(c) && ProbeOf(c, a).Some? && GoodContext(peer) && Tx.Lower(peer.from) == Tx.Lower(c.to)
    requires b.now.Some? && Milliseconds(b.now.value) && FreshUuid(b.first)
    requires Tx.Lower(b.first.value) != Tx.Lower(a.first.value) && Tx.Lower(b.first.value) != Tx.Lower(a.second.value)
    ensures AliveOf(peer, ProbeOf(c, a).value, b).Some?
  {
    ProbeHasShape(c, a);
    ProbeIdentifiers(c, a);
    hide GoodContext, ProbeOf, Shape, Tx.Lower, Tx.Split, FreshUuid;
  }

  /** Every probe that is prepared can be answered: by its recipient, to any parent with a good identifier, under any
      identifier not yet in use. */
  lemma AnyProbeIsAnswered(c: Context, a: Answers, peer: Context, parent: string, b: Answers)
    requires GoodContext(c) && ProbeOf(c, a).Some? && GoodContext(peer) && Tx.Lower(peer.from) == Tx.Lower(c.to)
    requires parent != "" && PresenceMessageId(parent).Some?
    requires b.now.Some? && Milliseconds(b.now.value) && FreshUuid(b.first)
    requires Tx.Lower(b.first.value) != Tx.Lower(a.first.value) && Tx.Lower(b.first.value) != Tx.Lower(a.second.value)
    ensures PrepareProbe(c, a).Ready? && PrepareAlive(peer, ProbeOf(c, a).value, Some(parent), [], b).Ready?
  {
    hide GoodContext, ProbeOf, AliveOf, PrepareProbe, PrepareAlive, FreshUuid, Tx.Lower, MessageId;
    ProbeNeverTooLarge(c, a);
    AnswerExists(c, a, peer, b);
    assert Chain([], MessageId(parent).value).Some?;
    AliveNeverTooLarge(peer, ProbeOf(c, a).value, Some(parent), [], b);
  }

  // ----- The exchange -----

  /** The whole exchange. The attachment of a prepared probe is read back as a well-shaped probe addressed to its
      recipient; whatever answer the recipient prepares to it is read back as the next step of the same interaction,
      with the probe's nonce and expiry and a new step identifier. */
  lemma ProbeThenAlive(sc: Strconv, c: Context, a: Answers, peer: Context, messageId: Option<string>,
                       references: seq<string>, b: Answers)
    requires Sa.OneIsExact(sc) && PrepareProbe(c, a).Ready?
    ensures var sent := PrepareProbe(c, a).prepared;
            var read := ParsePresenceEnvelope(sc, sent.attachment);
            && sent.from == Tx.Lower(c.from) && sent.to == Tx.Lower(c.to)
            && read.Read? && Shape(read.e) && read.e.step == "probe" && read.e.payload.address == sent.to
            && var reply := PrepareAlive(peer, read.e, messageId, references, b);
               (reply.Ready? ==>
                 var answer := ParsePresenceEnvelope(sc, reply.prepared.attachment);
                 && reply.prepared.from == sent.to && reply.prepared.to == Tx.Lower(peer.to)
                 && MessageId(messageId.value) == Some(reply.prepared.inReplyTo)
                 && answer.Read? && Shape(answer.e) && answer.e.step == "alive" && answer.e.prev == Some(read.e.stepId)
                 && answer.e.interactionId == read.e.interactionId && answer.e.payload == read.e.payload
                 && answer.e.expiresAt == read.e.expiresAt && answer.e.stepId != read.e.stepId
                 && reply.prepared.expiresAtMs == sent.expiresAtMs
                 && Fits(reply.prepared.references)
                 && TargetLastAndOnce(reply.prepared.references, reply.prepared.inReplyTo))
  {
    hide GoodContext, ProbeOf, Shape, PresenceTimestamp, ParsePresenceEnvelope, EnvelopeDoc, Dc.Lexemes, T.Source,
         Rendered, AliveOf, MessageId, Chain, Utf8.ByteLength, AllWithin, Join;
    var probe := ProbeOf(c, a).value;
    ProbeHasShape(c, a);
    WrittenIsRead(sc, probe);
    var reply := PrepareAlive(peer, probe, messageId, references, b);
    if reply.Ready? {
      AliveHasShape(peer, probe, b);
      RepliesToSender(peer, probe, b);
      WrittenIsRead(sc, AliveOf(peer, probe, b).value);
      CanonicalIsFixed(messageId.value);
      CutKeepsTarget(references, MessageId(messageId.value).value);
    }
  }

  lemma RepliesToSender(c: Context, probe: Envelope, a: Answers)
    requires GoodContext(c) && AliveOf(c, probe, a).Some?
    ensures Tx.Lower(c.from) == probe.payload.address
  {
  }
}
