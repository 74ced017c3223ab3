/**
 Where the two halves meet: whatever is prepared is recognised, from its own attachment, exactly
 when the body it arrives with still reads the same.
 */
module SignalAgreement {
  import opened Outcomes
  import opened Sequences
  import opened Values
  import opened References
  import opened SignalTime
  import Tx = Texts
  import T = JsonText
  import Dc = Decoding
  import Rd = Reader
  import En = Envelopes
  import Ec = Encoded
  import Sg = Signals
  import opened SignalContent

  ghost predicate OneIsExact(sc: Strconv) {
    sc.parse("1") == Some(1.0)
  }

  lemma OneIsRead(sc: Strconv)
    requires OneIsExact(sc)
    ensures InteractionNumber(sc, "1") == Some(1.0) && T.GoodLexeme(T.Number("1"))
  {
    assert Digits("1", 1) == 1;
    assert 1.0.Floor == 1;
  }

  // ----- The envelope as a tree -----

  lemma EnvelopeKeysDistinct(members: seq<Rd.Member>)
    requires |members| == 9 && forall i :: 0 <= i < 9 ==> members[i].key == ENVELOPE_KEYS[i]
    ensures Rd.NoDuplicateKeys(members)
  {
    assert "step_id"[0] != "payload"[0];
    forall i, j | 0 <= i < j < 9 ensures ENVELOPE_KEYS[i] != ENVELOPE_KEYS[j] {
      assert |ENVELOPE_KEYS[i]| != |ENVELOPE_KEYS[j]| || (i == 5 && j == 8);
    }
  }

  /** An envelope of the struct's nine members, none of them a container but the payload, is acceptable
      when its payload is. */
  lemma EnvelopeAcceptable(sc: Strconv, id: string, protocol: string, step: string, stepId: string,
                           prev: Option<string>,
                           expires: Option<string>, payload: Rd.Doc)
    requires OneIsExact(sc) && Rd.Acceptable(sc, payload, MAX_DEPTH - 1) && Dc.PlainNumbers(payload)
    ensures var d := Rd.DObj(Sg.EnvelopeMembers(id, protocol, step, stepId, prev, expires, payload));
            Rd.Acceptable(sc, d, MAX_DEPTH) && Dc.PlainNumbers(d)
  {
    OneIsRead(sc);
    var members := Sg.EnvelopeMembers(id, protocol, step, stepId, prev, expires, payload);
    EnvelopeKeysDistinct(members);
    forall i | 0 <= i < |members|
      ensures Rd.Acceptable(sc, members[i].doc, MAX_DEPTH - 1) && Dc.PlainNumbers(members[i].doc) {
      if i == 8 {
        assert members[i].doc == payload;
      }
    }
  }

  /** The decoded envelope, key by key. */
  ghost predicate EnvelopeIs(e: map<string, Value>, id: string, protocol: string, step: string, stepId: string,
                             prev: Value, expires: Value, payload: Value) {
    && KeysExactly(e, ENVELOPE_KEYS, [])
    && At(e, "interaction_version") == Num(1.0) && At(e, "interaction_id") == Str(id)
    && At(e, "protocol") == Str(protocol)
    && At(e, "protocol_version") == Num(1.0) && At(e, "step") == Str(step) && At(e, "step_id") == Str(stepId)
    && At(e, "prev_step_id") == prev && At(e, "expires_at") == expires && At(e, "payload") == payload
  }

  lemma EnvelopeValue(sc: Strconv, id: string, protocol: string, step: string, stepId: string, prev: Option<string>,
                      expires: Option<string>, payload: Rd.Doc)
    requires OneIsExact(sc)
    ensures var v := Rd.ValueOf(sc, Rd.DObj(Sg.EnvelopeMembers(id, protocol, step, stepId, prev, expires, payload)));
            && v.Obj?
            && EnvelopeIs(v.members, id, protocol, step, stepId, Rd.ValueOf(sc, Sg.OrNull(prev)),
                          Rd.ValueOf(sc, Sg.OrNull(expires)), Rd.ValueOf(sc, payload))
  {
    hide Rd.MembersInto;
    OneIsRead(sc);
    var members := Sg.EnvelopeMembers(id, protocol, step, stepId, prev, expires, payload);
    EnvelopeKeysDistinct(members);
    Ec.ObjectValue(sc, members);
    var e := Rd.ValueOf(sc, Rd.DObj(members)).members;
    assert Ec.Holds(sc, e, members[0]) && Ec.Holds(sc, e, members[1]) && Ec.Holds(sc, e, members[2]);
    assert Ec.Holds(sc, e, members[3]) && Ec.Holds(sc, e, members[4]) && Ec.Holds(sc, e, members[5]);
    assert Ec.Holds(sc, e, members[6]) && Ec.Holds(sc, e, members[7]) && Ec.Holds(sc, e, members[8]);
  }

  lemma AllKeysThere(e: map<string, Value>)
    requires KeysExactly(e, ENVELOPE_KEYS, [])
    ensures "interaction_version" in e && "interaction_id" in e && "protocol" in e && "protocol_version" in e
            && "step" in e
    ensures "step_id" in e && "prev_step_id" in e && "expires_at" in e && "payload" in e
  {
    assert forall k :: k in ENVELOPE_KEYS ==> k in e;
    assert ENVELOPE_KEYS[0] in e && ENVELOPE_KEYS[1] in e && ENVELOPE_KEYS[2] in e && ENVELOPE_KEYS[3] in e
           && ENVELOPE_KEYS[4] in e;
    assert ENVELOPE_KEYS[5] in e && ENVELOPE_KEYS[6] in e && ENVELOPE_KEYS[7] in e && ENVELOPE_KEYS[8] in e;
  }

  lemma VersionedEnvelopeIsValid(e: map<string, Value>, id: string, protocol: string, step: string, stepId: string,
                                 prev: Value, expires: Value, payload: Value)
    requires EnvelopeIs(e, id, protocol, step, stepId, prev, expires, payload)
    requires En.WireId(id) && En.IsUuid(stepId) && !En.AllSpace(protocol) && !En.AllSpace(step)
    requires prev.Null? || (prev.Str? && En.IsUuid(prev.s))
    requires expires.Null? || expires.Str?
    ensures En.CheckEnvelope(Obj(e)) == En.Valid(e)
  {
    hide En.WireId, En.IsUuid, En.AllSpace, KeysExactly;
    AllKeysThere(e);
    assert 1.0.Floor == 1;
  }

  // ----- The identifiers -----

  lemma {:induction false} SplitCovers(s: string, c: char, i: nat)
    requires i < |s| && s[i] != c
    ensures exists j :: 0 <= j < |Tx.Split(s, c)| && s[i] in Tx.Split(s, c)[j]
  {
    var parts, rest := Tx.Split(s, c), Tx.Split(s[1..], c);
    if i == 0 {
      assert s[0] in parts[0];
    } else {
      SplitCovers(s[1..], c, i - 1);
      var j :| 0 <= j < |rest| && s[1..][i - 1] in rest[j];
      assert s[i] in parts[if s[0] == c then j + 1 else j];
    }
  }

  lemma HostChars(host: string)
    requires Sg.Host(host)
    ensures host != ""
    ensures forall i :: 0 <= i < |host| ==> Sg.Alphanumeric(host[i]) || host[i] == '-' || host[i] == '.'
  {
    forall i | 0 <= i < |host| && host[i] != '.' ensures Sg.Alphanumeric(host[i]) || host[i] == '-' {
      SplitCovers(host, '.', i);
      var j :| 0 <= j < |Tx.Split(host, '.')| && host[i] in Tx.Split(host, '.')[j];
      assert Sg.Label(Tx.Split(host, '.')[j]);
    }
    assert host == "" ==> Tx.Split(host, '.')[0] == "";
    assert Sg.Label(Tx.Split(host, '.')[0]);
  }

  lemma FirstAt(a: string, b: string)
    requires '@' !in a
    ensures Tx.IndexOf(a + "@" + b, '@') == |a|
  {
    var s := a + "@" + b;
    assert s[|a|] == '@';
    assert forall k :: 0 <= k < |a| ==> s[k] == a[k];
    IndexFound(s, |a|);
  }

  lemma {:induction false} IndexFound(s: string, at: nat)
    requires at < |s| && s[at] == '@' && forall k :: 0 <= k < at ==> s[k] != '@'
    ensures Tx.IndexOf(s, '@') == at
  {
    if at > 0 {
      IndexFound(s[1..], at - 1);
    }
  }

  lemma UuidHasNoAt(id: string)
    requires En.IsUuid(id)
    ensures '@' !in id
  {
    forall i | 0 <= i < |id| ensures id[i] != '@' {
      assert i in {8, 13, 18, 23} || T.HexDigit(id[i]).Some?;
    }
  }

  /** An identifier and a host make a wire identifier, which splits back into the two. */
  lemma UuidAtHost(id: string, host: string)
    requires En.IsUuid(id) && Sg.Host(host)
    ensures En.WireId(id + "@" + host) && Tx.Split(id + "@" + host, '@') == [id, host]
  {
    var s := id + "@" + host;
    UuidHasNoAt(id);
    HostChars(host);
    FirstAt(id, host);
    assert s[..|id|] == id && s[|id| + 1..] == host;
    forall i | |id| < i < |s| ensures s[i] != '@' && !En.InteractionSpace(s[i]) {
      assert s[i] == host[i - |id| - 1];
    }
    Tx.SplitAtOnly(id, host, '@');
  }

  lemma LowerTwice(s: string)
    ensures Tx.Lower(Tx.Lower(s)) == Tx.Lower(s)
  {
  }

  // ----- The payload -----

  /** What the preparation guarantees about the content of a kind. */
  predicate ContentFits(kind: string, content: Sg.Content) {
    if kind == "ack" then
      && content.status in ["received", "will_process", "will_not_process"] && content.expires.None?
      && (content.note.Some? ==> Sg.GoodNote(content.note.value))
    else
      && kind in ["read", "working", "typing"] && content.status == "" && content.note.None?
      && (content.expires.Some? <==> kind != "read")
      && (content.expires.Some? ==> Milliseconds(content.expires.value))
  }

  lemma ContentIsFitting(input: Sg.Input, now: int)
    requires Sg.ContentOf(input, now).Success?
    ensures ContentFits(input.kind, Sg.ContentOf(input, now).value)
    ensures var content := Sg.ContentOf(input, now).value;
            Sg.SignalText(input.kind, input.status, input.note)
              == Sg.SignalText(input.kind, content.status, content.note)
  {
  }

  lemma PayloadAcceptable(sc: Strconv, target: string, content: Sg.Content)
    ensures var d := Sg.PayloadDoc(target, content);
            Rd.Acceptable(sc, d, MAX_DEPTH - 1) && Dc.PlainNumbers(d) && Rd.NoDuplicateKeys(d.members)
  {
    var members := Sg.PayloadDoc(target, content).members;
    assert |"subject_message_id"| == 18 && |"status"| == 6 && |"note"| == 4;
    forall i | 0 <= i < |members| ensures members[i].doc.DStr? {
    }
  }

  lemma PlainPayloadIsRecognised(sc: Strconv, kind: string, target: string)
    requires Canonical(target) && kind in ["read", "working", "typing"]
    ensures var v := Rd.ValueOf(sc, Sg.PayloadDoc(target, Sg.Content("", None, None)));
            v.Obj? && PayloadFallback(kind, v.members) == Some(Sg.SignalText(kind, "", None))
  {
    hide Rd.MembersInto, Sg.SignalText, MessageId;
    PayloadAcceptable(sc, target, Sg.Content("", None, None));
    var members := Sg.PayloadDoc(target, Sg.Content("", None, None)).members;
    Ec.ObjectValue(sc, members);
    var p := Rd.ValueOf(sc, Rd.DObj(members)).members;
    assert Ec.Holds(sc, p, members[0]);
  }

  lemma AckPayloadIsRecognised(sc: Strconv, target: string, content: Sg.Content)
    requires Canonical(target) && ContentFits("ack", content)
    ensures var v := Rd.ValueOf(sc, Sg.PayloadDoc(target, content));
            v.Obj? && PayloadFallback("ack", v.members) == Some(Sg.SignalText("ack", content.status, content.note))
  {
    hide Rd.MembersInto, Sg.SignalText, Sg.GoodNote, MessageId;
    PayloadAcceptable(sc, target, content);
    var members := Sg.PayloadDoc(target, content).members;
    Ec.ObjectValue(sc, members);
    var p := Rd.ValueOf(sc, Rd.DObj(members)).members;
    assert Ec.Holds(sc, p, members[0]) && Ec.Holds(sc, p, members[1]);
    if content.note.Some? {
      assert Ec.Holds(sc, p, members[2]);
    }
  }

  lemma PayloadIsRecognised(sc: Strconv, kind: string, target: string, content: Sg.Content)
    requires Canonical(target) && ContentFits(kind, content)
    ensures var v := Rd.ValueOf(sc, Sg.PayloadDoc(target, content));
            v.Obj? && PayloadFallback(kind, v.members) == Some(Sg.SignalText(kind, content.status, content.note))
  {
    hide Rd.ValueOf, Sg.SignalText, Sg.GoodNote, MessageId, PayloadFallback;
    if kind == "ack" {
      AckPayloadIsRecognised(sc, target, content);
    } else {
      PlainPayloadIsRecognised(sc, kind, target);
      SameText(kind, content);
      assert Sg.PayloadDoc(target, content) == Sg.PayloadDoc(target, Sg.Content("", None, None));
    }
  }

  lemma SameText(kind: string, content: Sg.Content)
    requires ContentFits(kind, content) && kind != "ack"
    ensures Sg.SignalText(kind, "", None) == Sg.SignalText(kind, content.status, content.note)
  {
  }

  // ----- The envelope is recognised -----

  /** The encoded envelope parses, to exactly the members that were put into it. */
  lemma EnvelopeDecoded(sc: Strconv, input: Sg.Input, target: string, content: Sg.Content, interaction: string,
                        step: string)
    returns (e: map<string, Value>)
    requires OneIsExact(sc) && Sg.Mailbox(input.to) && ContentFits(input.kind, content)
             && Sg.GoodUuids(interaction, step)
    requires content.expires.Some? ==> Milliseconds(content.expires.value)
    requires |T.Source(Dc.Lexemes(Sg.EnvelopeDoc(input, target, content, interaction, step)))| <= MAX_BYTES
    ensures En.Parse(sc, Dc.Lexemes(Sg.EnvelopeDoc(input, target, content, interaction, step))) == En.Valid(e)
    ensures EnvelopeIs(e, interaction + "@" + Sg.HostOf(input.to), input.kind, input.kind, step, Null,
                       if content.expires.Some? then Str(FormatUtc(content.expires.value)) else Null,
                       Rd.ValueOf(sc, Sg.PayloadDoc(target, content)))
  {
    hide Dc.Lexemes, En.Parse, Rd.ValueOf, Rd.Acceptable, Sg.PayloadDoc, KeysExactly, En.WireId, En.IsUuid, Tx.Split,
         Sg.Mailbox, FormatUtc;
    var host := Sg.HostOf(input.to);
    HostOfMailbox(input.to);
    var id := interaction + "@" + host;
    var payload := Sg.PayloadDoc(target, content);
    var expires := Sg.ExpiryText(content.expires);
    var d := Rd.DObj(Sg.EnvelopeMembers(id, input.kind, input.kind, step, None, expires, payload));
    PayloadAcceptable(sc, target, content);
    EnvelopeAcceptable(sc, id, input.kind, input.kind, step, None, expires, payload);
    EnvelopeValue(sc, id, input.kind, input.kind, step, None, expires, payload);
    Ec.EncodeThenParse(sc, d);
    UuidAtHost(interaction, host);
    KindIsVisible(input.kind, content);
    e := Rd.ValueOf(sc, d).members;
    OptionalValue(sc, None);
    OptionalValue(sc, expires);
    VersionedEnvelopeIsValid(e, id, input.kind, input.kind, step, Rd.ValueOf(sc, Sg.OrNull(None)),
                             Rd.ValueOf(sc, Sg.OrNull(expires)), Rd.ValueOf(sc, payload));
  }

  lemma EnvelopeIsRecognised(sc: Strconv, input: Sg.Input, target: string, content: Sg.Content, interaction: string,
                             step: string)
    requires OneIsExact(sc) && Sg.Mailbox(input.to) && Canonical(target) && ContentFits(input.kind, content)
    requires Sg.GoodUuids(interaction, step) && Tx.Lower(interaction) == interaction && Tx.Lower(step) == step
    requires content.expires.Some? ==> Milliseconds(content.expires.value)
    requires |T.Source(Dc.Lexemes(Sg.EnvelopeDoc(input, target, content, interaction, step)))| <= MAX_BYTES
    ensures var r := En.Parse(sc, Dc.Lexemes(Sg.EnvelopeDoc(input, target, content, interaction, step)));
            && r.Valid? && At(r.envelope, "protocol") == Str(input.kind)
            && Fallback(r.envelope) == Some(Sg.SignalText(input.kind, content.status, content.note))
  {
    hide Dc.Lexemes, En.Parse, Rd.ValueOf, Sg.SignalText, Sg.PayloadDoc, PayloadFallback, KeysExactly, En.IsUuid,
         Tx.Split, UtcExpiry, Sg.Mailbox, MessageId, Sg.EnvelopeDoc, FormatUtc;
    var e := EnvelopeDecoded(sc, input, target, content, interaction, step);
    HostOfMailbox(input.to);
    UuidAtHost(interaction, Sg.HostOf(input.to));
    KindIsVisible(input.kind, content);
    PayloadIsRecognised(sc, input.kind, target, content);
    if content.expires.Some? {
      FormattedIsRead(content.expires.value);
    }
  }

  lemma HostOfMailbox(mailbox: string)
    requires Sg.Mailbox(mailbox)
    ensures Sg.Host(Sg.HostOf(mailbox))
  {
  }

  lemma KindIsVisible(kind: string, content: Sg.Content)
    requires ContentFits(kind, content)
    ensures |kind| <= 7
    ensures !En.AllSpace(kind) && kind in ["ack", "read", "working", "typing"] && kind != "repeat.stop"
  {
    assert kind != "" && !En.InteractionSpace(kind[0]);
  }

  lemma OptionalValue(sc: Strconv, value: Option<string>)
    ensures Rd.ValueOf(sc, Sg.OrNull(value)) == if value.Some? then Str(value.value) else Null
  {
  }

  /** Everything prepared parses to a valid envelope whose fallback text is the body it was prepared with. */
  lemma PreparedIsRecognised(sc: Strconv, input: Sg.Input, callbacks: bool, now: int, first: string, second: string)
    requires OneIsExact(sc) && Sg.Prepare(input, callbacks, now, first, second).Ready?
    ensures var request := Sg.Prepare(input, callbacks, now, first, second).prepared.request;
            var r := En.Parse(sc, request.attachment);
            && r.Valid? && At(r.envelope, "protocol") == Str(input.kind) && input.kind != "repeat.stop"
            && Fallback(r.envelope) == Some(request.bodyText)
  {
    hide Fallback, En.Parse, Dc.Lexemes, Sg.SignalText, Sg.HeadingOf, Sg.ContentOf, Sg.EnvelopeDoc;
    var heading := Sg.HeadingOf(input).value;
    var content := Sg.ContentOf(input, now).value;
    ContentIsFitting(input, now);
    KindIsVisible(input.kind, content);
    LowerTwice(first);
    LowerTwice(second);
    EnvelopeIsRecognised(sc, input, heading.target, content, Tx.Lower(first), Tx.Lower(second));
  }

  lemma PayloadNamesTarget(sc: Strconv, target: string, content: Sg.Content)
    ensures var v := Rd.ValueOf(sc, Sg.PayloadDoc(target, content));
            v.Obj? && At(v.members, "subject_message_id") == Str(target)
  {
    hide Rd.MembersInto;
    PayloadAcceptable(sc, target, content);
    var members := Sg.PayloadDoc(target, content).members;
    Ec.ObjectValue(sc, members);
    assert Ec.Holds(sc, Rd.ValueOf(sc, Rd.DObj(members)).members, members[0]);
  }

  lemma ContentExpiry(input: Sg.Input, now: int)
    requires Sg.ContentOf(input, now).Success?
    ensures Sg.ContentOf(input, now).value.expires
            == if input.kind in {"working", "typing"} then input.expiresAtMs else None
  {
  }

  /** What is prepared is one reply to the parent: the addresses are turned round, header and envelope name the
      parent, the chain ends in it, and key, step and expiry of the record are those of the envelope. */
  lemma PreparedAnswersParent(sc: Strconv, input: Sg.Input, callbacks: bool, now: int, first: string, second: string)
    returns (e: map<string, Value>)
    requires OneIsExact(sc) && Sg.Prepare(input, callbacks, now, first, second).Ready?
    ensures var p := Sg.Prepare(input, callbacks, now, first, second).prepared;
            && input.messageId.Some? && MessageId(input.messageId.value) == Some(p.request.inReplyTo)
            && p.request.to == input.from && p.request.from == input.to
            && p.accountScope == input.accountScope && p.preparedAtMs == now
            && p.request.subject == (if input.subject == "" then "Re: Your message" else input.subject)
            && Thread(input.references, p.request.inReplyTo, p.request.references)
            && Fits(p.request.references) && TargetLastAndOnce(p.request.references, p.request.inReplyTo)
            && p.expiresAtMs == (if input.kind in {"working", "typing"} then input.expiresAtMs else None)
            && En.Parse(sc, p.request.attachment) == En.Valid(e)
            && At(e, "payload").Obj? && At(At(e, "payload").members, "subject_message_id") == Str(p.request.inReplyTo)
            && At(e, "protocol") == Str(input.kind) && At(e, "step") == Str(input.kind) && At(e, "prev_step_id") == Null
            && p.idempotencyKey == "signal-" + TextAt(e, "step_id")
            && Sg.Mailbox(input.to)
            && Tx.Split(TextAt(e, "interaction_id"), '@') == [Tx.Lower(first), Sg.HostOf(input.to)]
            && (if p.expiresAtMs.None? then At(e, "expires_at") == Null
                else At(e, "expires_at").Str? && PresenceTimestamp(At(e, "expires_at").s) == p.expiresAtMs)
  {
    hide En.Parse, Dc.Lexemes, Sg.SignalText, Sg.ContentOf, Sg.EnvelopeDoc, Sg.PayloadDoc, KeysExactly, Tx.Split,
         Sg.Mailbox, MessageId, Fits, TargetLastAndOnce, Thread, FormatUtc, Rd.ValueOf, En.IsUuid, ContentFits,
         PresenceTimestamp;
    ContentExpiry(input, now);
    var content := Sg.ContentOf(input, now).value;
    var target := Sg.HeadingOf(input).value.target;
    HeadingNamesParent(input);
    hide Sg.HeadingOf;
    ContentIsFitting(input, now);
    e := EnvelopeDecoded(sc, input, target, content, Tx.Lower(first), Tx.Lower(second));
    PayloadNamesTarget(sc, target, content);
    HostOfMailbox(input.to);
    UuidAtHost(Tx.Lower(first), Sg.HostOf(input.to));
    if content.expires.Some? {
      FormattedIsRead(content.expires.value);
    }
  }

  lemma HeadingNamesParent(input: Sg.Input)
    requires input.messageId.Some? && Sg.HeadingOf(input).Success?
    ensures MessageId(input.messageId.value) == Some(Sg.HeadingOf(input).value.target)
  {
    hide MessageId, Chain, Sg.Mailbox, Sg.Header;
  }

  function OnlyPart(request: Sg.Request): Inventory {
    Inventory("complete", Some([Part(Some(request.filename), Some(request.contentType))]))
  }

  /** The verdict on a prepared email that arrives with text `body` and no HTML. */
  ghost function Arrived(sc: Strconv, request: Sg.Request, body: string): Classification {
    Classified(sc, OnlyPart(request), Bodies("complete", Some(body), None), Some(request.attachment)).classification
  }

  predicate LowerAlready(s: string) {
    forall i :: 0 <= i < |s| ==> !('A' <= s[i] <= 'Z') && s[i] != ';'
  }

  lemma KeptLower(s: string)
    requires LowerAlready(s)
    ensures Tx.Lower(s) == s && Tx.Split(s, ';') == [s]
  {
    Tx.SplitNowhere(s, ';');
  }

  lemma AttachmentNames()
    ensures Tx.Lower("interaction.json") == "interaction.json" && JsonMedia(Some("application/json"))
  {
    hide Tx.Lower, Tx.Split;
    KeptLower("interaction.json");
    KeptLower("application/json");
    assert TrimBlanks("application/json") == "application/json";
  }

  lemma OnlyPartIsCanonical(request: Sg.Request)
    requires request.filename == "interaction.json" && request.contentType == "application/json"
    ensures var part := OnlyPart(request).parts.value[0]; IsCanonical(part) && JsonMedia(part.contentType)
  {
    hide Tx.Lower, JsonMedia;
    AttachmentNames();
  }

  lemma PreparedAttachment(input: Sg.Input, callbacks: bool, now: int, first: string, second: string)
    requires Sg.Prepare(input, callbacks, now, first, second).Ready?
    ensures var request := Sg.Prepare(input, callbacks, now, first, second).prepared.request;
            request.filename == "interaction.json" && request.contentType == "application/json"
  {
    hide Dc.Lexemes, Sg.SignalText, Sg.HeadingOf, Sg.ContentOf, Sg.EnvelopeDoc;
  }

  /** A prepared email arriving with any body whatever is informational exactly when the body matches its own. */
  lemma ArrivalIsExact(sc: Strconv, input: Sg.Input, callbacks: bool, now: int, first: string, second: string,
                       body: string)
    requires OneIsExact(sc) && Sg.Prepare(input, callbacks, now, first, second).Ready?
    ensures var request := Sg.Prepare(input, callbacks, now, first, second).prepared.request;
            Arrived(sc, request, body) == InformationalOnly <==> TextMatches(body, request.bodyText, true)
  {
    hide Sg.Prepare, Fallback, En.Parse, TextMatches, At, Classified, JsonMedia, IsCanonical;
    var request := Sg.Prepare(input, callbacks, now, first, second).prepared.request;
    PreparedAttachment(input, callbacks, now, first, second);
    PreparedIsRecognised(sc, input, callbacks, now, first, second);
    OnlyPartIsCanonical(request);
    InformationalExactly(sc, OnlyPart(request), Bodies("complete", Some(body), None), Some(request.attachment));
  }

  // ----- What transport does to the body -----

  predicate EndsInReturn(s: string) {
    s != "" && s[|s| - 1] == '\r'
  }

  /** A text that ends in a carriage return, split before it. */
  lemma ReturnThenNewline(text: string)
    requires |text| > 1 && EndsInReturn(text)
    ensures var stem := text[..|text| - 1];
            && text + "\n" == stem + "\r\n" && Tx.Crlf(text) + "\n" == Tx.Crlf(stem) + "\r\n"
            && Tx.Normalised(text) == Tx.Normalised(stem) + "\r"
  {
    hide Tx.Normalised, Tx.Crlf;
    var stem := text[..|text| - 1];
    assert text == stem + "\r";
    Tx.NormalisedAppend(stem, "\r");
    LoneReturn();
    CrlfAppend(stem, '\r');
    Regrouped(Tx.Crlf(stem), "\r", "\n");
    Regrouped(stem, "\r", "\n");
    assert "\r" + "\n" == "\r\n";
  }

  lemma LoneReturn()
    ensures Tx.Normalised("\r") == "\r" && Tx.Normalised("\n") == "\n" && Tx.Normalised("\r\n") == "\n"
  {
    Tx.NormalisedPair("");
    assert "\r\n" + "" == "\r\n";
  }

  /** How each way of arriving normalises. */
  lemma ArrivalsNormalised(text: string)
    requires |text| > 1
    ensures Tx.Normalised(Tx.Crlf(text)) == text
    ensures Tx.Normalised(Tx.Crlf(text) + "\r\n") == text + "\n"
    ensures Tx.Normalised(Tx.Crlf(text) + "\n") == if EndsInReturn(text) then text[..|text| - 1] + "\n" else text + "\n"
    ensures Tx.Normalised(text + "\n")
            == Tx.Normalised(if EndsInReturn(text) then text[..|text| - 1] else text) + "\n"
  {
    hide Tx.Normalised, Tx.Crlf;
    LoneReturn();
    Tx.NormalisedCrlf(text, "\r\n");
    PlainCrlf(text);
    if EndsInReturn(text) {
      ReturnThenNewline(text);
      Tx.NormalisedCrlf(text[..|text| - 1], "\r\n");
      Tx.NormalisedAppend(text[..|text| - 1], "\r\n");
    } else {
      Tx.NormalisedCrlf(text, "\n");
      Tx.NormalisedAppend(text, "\n");
    }
  }

  lemma PlainCrlf(text: string)
    ensures Tx.Normalised(Tx.Crlf(text)) == text
  {
    Tx.NormalisedCrlf(text, "");
    assert Tx.Crlf(text) + "" == Tx.Crlf(text) && text + "" == text;
  }

  /** A text that is neither its own normal form nor its own with a newline cannot match. */
  lemma ExactMatch(body: string, text: string, whole: string)
    requires |text| > 1 && Tx.Normalised(body) == whole && |whole| > 1
    ensures TextMatches(body, text, true) <==> whole == Tx.Normalised(text) || whole == Tx.Normalised(text) + "\n"
  {
  }

  lemma NoMatchWithPair(text: string, a: string)
    requires Tx.HasCrlf(text)
    ensures text + a != Tx.Normalised(text) && text + a != Tx.Normalised(text) + "\n"
  {
    Tx.NormalisedDiffers(text, a, "");
    Tx.NormalisedDiffers(text, a, "\n");
    assert Tx.Normalised(text) + "" == Tx.Normalised(text);
  }

  lemma ReturnNeverNewline(stem: string, n: string)
    requires n == stem || Tx.HasCrlf(stem)
    requires n == Tx.Normalised(stem)
    ensures stem + "\n" != n + "\r" && stem + "\n" != n + "\r" + "\n"
  {
    if Tx.HasCrlf(stem) {
      Tx.NormalisedDiffers(stem, "\n", "\r");
      Tx.NormalisedDiffers(stem, "\n", "\r\n");
      assert n + "\r" + "\n" == n + "\r\n";
    } else {
      assert (stem + "\n")[|stem|] == '\n' && (n + "\r")[|stem|] == '\r' && (n + "\r" + "\n")[|stem|] == '\r';
    }
  }
  lemma {:induction false} CrlfAppend(s: string, c: char)
    ensures Tx.Crlf(s + [c]) == Tx.Crlf(s) + Tx.CrlfChar(c)
  {
    if s == [] {
      assert s + [c] == [c];
    } else {
      CrlfAppend(s[1..], c);
      assert (s + [c])[1..] == s[1..] + [c];
      hide Tx.CrlfChar;
      Regrouped(Tx.CrlfChar(s[0]), Tx.Crlf(s[1..]), Tx.CrlfChar(c));
    }
  }

  lemma NormalisedNotEmpty(text: string)
    requires text != ""
    ensures Tx.Normalised(text) != ""
  {
  }

  /** With a final newline added and nothing else changed. */
  lemma NewlineSurvival(text: string)
    requires |text| > 1
    ensures TextMatches(text, text, true)
    ensures TextMatches(text + "\n", text, true) <==> !EndsInReturn(text)
  {
    hide Tx.Normalised, Tx.HasCrlf;
    ArrivalsNormalised(text);
    if EndsInReturn(text) {
      var stem := text[..|text| - 1];
      ReturnThenNewline(text);
      NormalisedNotEmpty(stem);
      ExactMatch(text + "\n", text, Tx.Normalised(stem) + "\n");
      var n := Tx.Normalised(stem);
      assert (n + "\n")[|n|] == '\n' && (n + "\r")[|n|] == '\r' && (n + "\r" + "\n")[|n|] == '\r';
    }
  }

  /** With every line end rewritten. */
  lemma CrlfSurvival(text: string)
    requires |text| > 1
    ensures TextMatches(Tx.Crlf(text), text, true) <==> !Tx.HasCrlf(text)
    ensures TextMatches(Tx.Crlf(text) + "\r\n", text, true) <==> !Tx.HasCrlf(text)
  {
    hide Tx.Normalised, Tx.HasCrlf, TextMatches;
    ArrivalsNormalised(text);
    ExactMatch(Tx.Crlf(text), text, text);
    ExactMatch(Tx.Crlf(text) + "\r\n", text, text + "\n");
    if Tx.HasCrlf(text) {
      NoMatchWithPair(text, "");
      NoMatchWithPair(text, "\n");
      assert text + "" == text;
    } else {
      Tx.NormalisedSame(text);
    }
  }

  /** With every line end rewritten and a bare newline added afterwards. */
  lemma CrlfThenNewlineSurvival(text: string)
    requires |text| > 1
    ensures TextMatches(Tx.Crlf(text) + "\n", text, true) <==> !Tx.HasCrlf(text) && !EndsInReturn(text)
  {
    hide Tx.Normalised, Tx.HasCrlf, TextMatches;
    ArrivalsNormalised(text);
    if EndsInReturn(text) {
      var stem := text[..|text| - 1];
      ReturnThenNewline(text);
      ExactMatch(Tx.Crlf(text) + "\n", text, stem + "\n");
      if !Tx.HasCrlf(stem) {
        Tx.NormalisedSame(stem);
      }
      ReturnNeverNewline(stem, Tx.Normalised(stem));
    } else {
      ExactMatch(Tx.Crlf(text) + "\n", text, text + "\n");
      if Tx.HasCrlf(text) {
        NoMatchWithPair(text, "\n");
      } else {
        Tx.NormalisedSame(text);
      }
    }
  }

  /** The note of an acknowledgement, or nothing. */
  function NoteOf(input: Sg.Input): string {
    if input.kind == "ack" && input.note.Some? then input.note.value else ""
  }

  lemma PrefixKeepsPairs(prefix: string, note: string)
    requires |prefix| > 1 && '\r' !in prefix
    ensures Tx.HasCrlf(prefix + note) <==> Tx.HasCrlf(note)
    ensures EndsInReturn(prefix + note) <==> EndsInReturn(note)
  {
    var text := prefix + note;
    assert forall i :: 0 <= i < |note| ==> text[|prefix| + i] == note[i];
    forall i | 0 <= i < |note| ensures Tx.CrlfAt(text, |prefix| + i) <==> Tx.CrlfAt(note, i) {
    }
    forall i | 0 <= i < |prefix| ensures !Tx.CrlfAt(text, i) {
      assert text[i] == prefix[i];
    }
    if Tx.HasCrlf(note) {
      var i :| 0 <= i < |note| && Tx.CrlfAt(note, i);
      assert Tx.CrlfAt(text, |prefix| + i);
    }
    if Tx.HasCrlf(text) {
      var i :| 0 <= i < |text| && Tx.CrlfAt(text, i);
      assert Tx.CrlfAt(note, i - |prefix|);
    }
  }

  predicate Unreturned(s: string) {
    |s| > 1 && forall i :: 0 <= i < |s| ==> s[i] != '\r'
  }

  lemma StatusTexts()
    ensures Unreturned("Received your message.")
    ensures Unreturned("I intend to process your message.")
    ensures Unreturned("I will not process your message.")
  {
  }

  lemma KindTexts()
    ensures Unreturned("I read your message.")
    ensures Unreturned("I am working on your message.")
    ensures Unreturned("I am composing a reply to your message.")
  {
  }

  lemma PlainBody(kind: string, content: Sg.Content)
    requires ContentFits(kind, content)
    ensures Unreturned(Sg.SignalText(kind, content.status, None))
  {
    hide Unreturned;
    StatusTexts();
    KindTexts();
  }

  lemma BodyIsPrefixAndNote(input: Sg.Input, now: int) returns (prefix: string)
    requires Sg.ContentOf(input, now).Success?
    ensures |prefix| > 1 && '\r' !in prefix
    ensures Sg.SignalText(input.kind, input.status, input.note) == prefix + NoteOf(input)
  {
    var content := Sg.ContentOf(input, now).value;
    ContentIsFitting(input, now);
    PlainBody(input.kind, content);
    hide Sg.ContentOf;
    var plain := Sg.SignalText(input.kind, content.status, None);
    if input.kind == "ack" && content.note.Some? {
      prefix := plain + "\n\n";
      Regrouped(plain, "\n\n", content.note.value);
    } else {
      prefix := plain;
      assert plain + "" == plain;
    }
  }

  /** Every email prepared is classified as informational from its own attachment and body. It stays so
      when transport rewrites the line ends, with or without a final line end, exactly when the note has
      no CRLF pair; when only a bare newline is added, exactly when the note does not end in a carriage return. */
  lemma PreparedIsInformational(sc: Strconv, input: Sg.Input, callbacks: bool, now: int, first: string, second: string)
    requires OneIsExact(sc) && Sg.Prepare(input, callbacks, now, first, second).Ready?
    ensures var request := Sg.Prepare(input, callbacks, now, first, second).prepared.request;
            var note := NoteOf(input);
            && Arrived(sc, request, request.bodyText) == InformationalOnly
            && (Arrived(sc, request, Tx.Crlf(request.bodyText)) == InformationalOnly <==> !Tx.HasCrlf(note))
            && (Arrived(sc, request, Tx.Crlf(request.bodyText) + "\r\n") == InformationalOnly <==> !Tx.HasCrlf(note))
            && (Arrived(sc, request, request.bodyText + "\n") == InformationalOnly <==> !EndsInReturn(note))
            && (Arrived(sc, request, Tx.Crlf(request.bodyText) + "\n") == InformationalOnly
                <==> !Tx.HasCrlf(note) && !EndsInReturn(note))
  {
    var text := Sg.Prepare(input, callbacks, now, first, second).prepared.request.bodyText;
    var prefix := PreparedBody(input, callbacks, now, first, second);
    hide Sg.Prepare, Arrived, TextMatches, Tx.Crlf, Tx.HasCrlf, EndsInReturn;
    PrefixKeepsPairs(prefix, NoteOf(input));
    NewlineSurvival(text);
    CrlfSurvival(text);
    CrlfThenNewlineSurvival(text);
    ArrivalIsExact(sc, input, callbacks, now, first, second, text);
    ArrivalIsExact(sc, input, callbacks, now, first, second, Tx.Crlf(text));
    ArrivalIsExact(sc, input, callbacks, now, first, second, Tx.Crlf(text) + "\r\n");
    ArrivalIsExact(sc, input, callbacks, now, first, second, text + "\n");
    ArrivalIsExact(sc, input, callbacks, now, first, second, Tx.Crlf(text) + "\n");
  }

  lemma PreparedBody(input: Sg.Input, callbacks: bool, now: int, first: string, second: string) returns (prefix: string)
    requires Sg.Prepare(input, callbacks, now, first, second).Ready?
    ensures |prefix| > 1 && '\r' !in prefix
    ensures Sg.Prepare(input, callbacks, now, first, second).prepared.request.bodyText == prefix + NoteOf(input)
  {
    hide Sg.HeadingOf, Sg.ContentOf, Sg.SignalText, Dc.Lexemes, Sg.EnvelopeDoc;
    prefix := BodyIsPrefixAndNote(input, now);
  }

  // ----- The size check cannot fail -----

  lemma {:induction false} SplitIsShorter(s: string, c: char)
    ensures forall i :: 0 <= i < |Tx.Split(s, c)| ==> |Tx.Split(s, c)[i]| <= |s|
  {
    if s != [] {
      SplitIsShorter(s[1..], c);
    }
  }

  lemma HostIsShort(mailbox: string)
    requires Sg.Mailbox(mailbox) && Utf8.ByteLength(mailbox) <= 320
    ensures |Sg.HostOf(mailbox)| <= 320
    ensures forall i :: 0 <= i < |Sg.HostOf(mailbox)| ==> Sg.HostOf(mailbox)[i] as int < 0x80
  {
    SplitIsShorter(mailbox, '@');
    Utf8.EncodingIsLonger(mailbox);
    HostChars(Sg.HostOf(mailbox));
  }

  lemma ShortKeys()
    ensures forall i :: 0 <= i < 9 ==> Ec.QuotedBound(ENVELOPE_KEYS[i]) <= 122
  {
    forall i | 0 <= i < 9 ensures Ec.QuotedBound(ENVELOPE_KEYS[i]) <= 122 {
      assert |ENVELOPE_KEYS[i]| <= 20;
      Ec.BasicBound(ENVELOPE_KEYS[i]);
    }
  }

  lemma UuidIsAscii(id: string)
    requires En.IsUuid(id)
    ensures |id| == 36 && forall i :: 0 <= i < 36 ==> id[i] as int < 0x80
  {
    forall i | 0 <= i < 36 ensures id[i] as int < 0x80 {
      assert i in {8, 13, 18, 23} || T.HexDigit(id[i]).Some?;
    }
  }

  lemma {:induction false} Utf16AtMostTwice(s: string)
    ensures Tx.Utf16Length(s) <= 2 * |s|
  {
    if s != [] {
      Utf16AtMostTwice(s[1..]);
    }
  }

  lemma TextBound(s: string)
    ensures Ec.QuotedBound(s) <= 2 + 12 * |s|
  {
    Utf16AtMostTwice(s);
  }

  lemma NoteBound(note: string)
    requires Tx.Utf16Length(note) <= 2000
    ensures Ec.QuotedBound(note) <= 12002
  {
    if Ec.Unescaped(note) {
      Ec.Utf16OfBasic(note);
    }
  }

  lemma ShortStrings(id: string, kind: string, stepId: string, expires: Option<string>)
    requires Utf8.Ascii(id) && |id| <= 357 && |kind| <= 7 && Utf8.Ascii(stepId) && |stepId| == 36
    requires expires.Some? ==> |expires.value| == 24
    ensures Ec.QuotedBound(id) <= 2144 && Ec.QuotedBound(kind) <= 2144 && Ec.QuotedBound(stepId) <= 2144
    ensures expires.Some? ==> Ec.QuotedBound(expires.value) <= 2144
    ensures |Utf8.Encode("1")| == 1
  {
    Ec.BasicBound(id);
    TextBound(kind);
    Ec.BasicBound(stepId);
    Utf8.AsciiEncoding("1");
    if expires.Some? {
      TextBound(expires.value);
    }
  }

  /** No member of the envelope but the payload takes much. */
  lemma OtherMembersAreShort(id: string, kind: string, stepId: string, expires: Option<string>, payload: Rd.Doc, i: nat)
    requires i < 8 && Utf8.Ascii(id) && |id| <= 357 && |kind| <= 7 && Utf8.Ascii(stepId) && |stepId| == 36
    requires expires.Some? ==> |expires.value| == 24
    ensures Ec.MemberBound(Sg.EnvelopeMembers(id, kind, kind, stepId, None, expires, payload)[i]) <= 2270
  {
    hide Ec.QuotedBound, Utf8.Ascii, Utf8.Encode;
    ShortKeys();
    ShortStrings(id, kind, stepId, expires);
    var member := Sg.EnvelopeMembers(id, kind, kind, stepId, None, expires, payload)[i];
    assert member.key == ENVELOPE_KEYS[i];
    assert Ec.Bound(member.doc) <= 2144;
  }

  lemma PayloadIsShort(target: string, kind: string, content: Sg.Content)
    requires Canonical(target) && ContentFits(kind, content)
    ensures Ec.Bound(Sg.PayloadDoc(target, content)) <= 36600
  {
    hide Tx.Utf16Length, MessageId;
    LengthOfCanonical(target);
    TextBound(target);
    TextBound("subject_message_id");
    TextBound("status");
    TextBound("note");
    TextBound(content.status);
    var members := Sg.PayloadDoc(target, content).members;
    forall i | 0 <= i < |members| ensures Ec.MemberBound(members[i]) <= 12198 {
      if members[i].key == "note" {
        NoteBound(content.note.value);
      }
    }
    Ec.MembersBoundEach(members, 12198);
  }

  lemma ShortMembers(id: string, kind: string, stepId: string, expires: Option<string>, payload: Rd.Doc)
    requires Utf8.Ascii(id) && |id| <= 357 && |kind| <= 7 && Utf8.Ascii(stepId) && |stepId| == 36
    requires (expires.Some? ==> |expires.value| == 24) && Ec.Bound(payload) <= 36600
    ensures var doc := Rd.DObj(Sg.EnvelopeMembers(id, kind, kind, stepId, None, expires, payload));
            |T.Source(Dc.Lexemes(doc))| <= MAX_BYTES
  {
    hide T.Source, Dc.Lexemes, Ec.MemberBound;
    var members := Sg.EnvelopeMembers(id, kind, kind, stepId, None, expires, payload);
    forall i | 0 <= i < 8 ensures Ec.MemberBound(members[i]) <= 2270 {
      OtherMembersAreShort(id, kind, stepId, expires, payload, i);
    }
    PayloadMember(members[8]);
    Ec.ObjectBytes(members, 8, 2270, 36700);
  }

  lemma EnvelopeIsShort(input: Sg.Input, target: string, content: Sg.Content, interaction: string, step: string)
    requires Sg.Mailbox(input.to) && Utf8.ByteLength(input.to) <= 320 && Canonical(target)
    requires ContentFits(input.kind, content) && Sg.GoodUuids(interaction, step)
    requires content.expires.Some? ==> Milliseconds(content.expires.value)
    ensures |T.Source(Dc.Lexemes(Sg.EnvelopeDoc(input, target, content, interaction, step)))| <= MAX_BYTES
  {
    hide T.Source, Dc.Lexemes, Sg.PayloadDoc, Sg.Mailbox, MessageId, ContentFits, Tx.Split, Sg.EnvelopeMembers,
         En.IsUuid;
    var host := Sg.HostOf(input.to);
    HostIsShort(input.to);
    UuidIsAscii(interaction);
    UuidIsAscii(step);
    KindIsVisible(input.kind, content);
    PayloadIsShort(target, input.kind, content);
    AsciiJoin(interaction, host);
    ShortMembers(interaction + "@" + host, input.kind, step, Sg.ExpiryText(content.expires),
                 Sg.PayloadDoc(target, content));
  }

  lemma AsciiJoin(a: string, b: string)
    requires Utf8.Ascii(a) && Utf8.Ascii(b)
    ensures Utf8.Ascii(a + "@" + b)
  {
  }

  lemma PayloadMember(member: Rd.Member)
    requires member.key == "payload" && Ec.Bound(member.doc) <= 36600
    ensures Ec.MemberBound(member) <= 36700
  {
    TextBound("payload");
    hide Ec.QuotedBound, Ec.Bound;
  }

  lemma NeverAssembledTooLarge(input: Sg.Input, heading: Sg.Heading, content: Sg.Content, now: int,
                               interaction: string, step: string)
    requires Sg.Mailbox(input.to) && Utf8.ByteLength(input.to) <= 320 && Canonical(heading.target)
             && ContentFits(input.kind, content)
    requires content.expires.Some? ==> Milliseconds(content.expires.value)
    ensures Sg.Assemble(input, heading, content, now, interaction, step).Ready? <==> Sg.GoodUuids(interaction, step)
    ensures Sg.Assemble(input, heading, content, now, interaction, step) != Sg.Refused(Sg.TooLarge)
  {
    hide Dc.Lexemes, Sg.SignalText, Sg.EnvelopeDoc, T.Source, Sg.Mailbox, Utf8.ByteLength, MessageId, ContentFits;
    if Sg.GoodUuids(interaction, step) {
      EnvelopeIsShort(input, heading.target, content, interaction, step);
    }
  }

  /** The earlier checks already imply the last one: no preparation is ever refused for its size, so a
      signal is prepared exactly when its heading, its content and its identifiers are good. */
  lemma NeverTooLarge(input: Sg.Input, callbacks: bool, now: int, first: string, second: string)
    ensures Sg.Prepare(input, callbacks, now, first, second) != Sg.Refused(Sg.TooLarge)
    ensures Sg.Prepare(input, callbacks, now, first, second).Ready? <==>
            && input.messageId.Some? && input.messageId.value != "" && Sg.HeadingOf(input).Success?
            && callbacks && Milliseconds(now) && Sg.ContentOf(input, now).Success?
            && Sg.GoodUuids(Tx.Lower(first), Tx.Lower(second))
  {
    hide Sg.Assemble, Sg.ContentOf, Sg.GoodUuids, ContentFits, Sg.Mailbox, MessageId, Utf8.ByteLength, Sg.SignalText,
         Fits, TargetLastAndOnce, Milliseconds, Tx.Lower, Chain;
    if input.messageId.Some? && Sg.HeadingOf(input).Success? && Sg.ContentOf(input, now).Success? {
      ContentIsFitting(input, now);
      hide Sg.HeadingOf;
      NeverAssembledTooLarge(input, Sg.HeadingOf(input).value, Sg.ContentOf(input, now).value, now, Tx.Lower(first),
                             Tx.Lower(second));
    }
  }
}
