/**
 What every verdict of the classifier says about the email, over the parts of its inventory, its bodies and its
 attachment, and which text a valid envelope stands for, field by field.
 */
module SignalVerdicts {
  import opened Outcomes
  import opened Values
  import opened SignalContent
  import Tx = Texts
  import T = JsonText
  import En = Envelopes
  import Sg = Signals
  import Es = EnvelopeShapes
  import Rf = References
  import St = SignalTime

  // ----- The text a valid envelope stands for -----

  const FIELDS: set<string> := {"interaction_version", "interaction_id", "protocol", "protocol_version", "step",
                                "step_id", "prev_step_id", "expires_at", "payload"}

  ghost predicate NineFields(e: map<string, Value>) {
    e.Keys == FIELDS
  }

  /** A repeat-stop notice: it answers a step, does not expire, and may give a reason. */
  ghost predicate StopsRepeating(e: map<string, Value>, text: string) {
    && NineFields(e) && e["protocol"] == Str("repeat.stop") && e["protocol_version"] == Num(1.0)
    && e["step"] == Str("stop") && e["prev_step_id"].Str? && e["expires_at"] == Null && e["payload"].Obj?
    && var p := e["payload"].members;
       || (p.Keys == {} && text == "Stopped this repeating message.")
       || (&& p.Keys == {"reason"} && p["reason"].Str? && p["reason"].s != ""
           && Tx.Utf16Length(p["reason"].s) <= 280 && '\0' !in p["reason"].s
           && text == "Stopped this repeating message. Reason: " + p["reason"].s)
  }

  /** The interaction and its step have different identifiers, whatever their case. */
  ghost predicate OwnIdentifiers(e: map<string, Value>)
    requires NineFields(e)
  {
    && e["interaction_id"].Str? && e["step_id"].Str?
    && forall uuid, domain :: '@' !in uuid && e["interaction_id"].s == uuid + "@" + domain ==>
         Tx.Lower(uuid) != Tx.Lower(e["step_id"].s)
  }

  predicate TargetField(p: map<string, Value>) {
    && "subject_message_id" in p && p["subject_message_id"].Str?
    && Rf.MessageId(p["subject_message_id"].s) == Some(p["subject_message_id"].s)
  }

  predicate StatusText(status: string, text: string) {
    || (status == "received" && text == "Received your message.")
    || (status == "will_process" && text == "I intend to process your message.")
    || (status == "will_not_process" && text == "I will not process your message.")
  }

  /** The payload of an acknowledgement: a target, one of three states, and perhaps a note. */
  ghost predicate Acknowledges(p: map<string, Value>, text: string) {
    && TargetField(p) && "status" in p && p["status"].Str?
    && exists state :: StatusText(p["status"].s, state)
         && (|| (p.Keys == {"subject_message_id", "status"} && text == state)
             || (&& p.Keys == {"subject_message_id", "status", "note"} && p["note"].Str?
                 && Tx.Utf16Length(p["note"].s) <= 2000 && '\0' !in p["note"].s
                 && text == state + "\n\n" + p["note"].s))
  }

  predicate PlainText(kind: string, text: string) {
    || (kind == "read" && text == "I read your message.")
    || (kind == "working" && text == "I am working on your message.")
    || (kind == "typing" && text == "I am composing a reply to your message.")
  }

  /** A status signal: it begins an interaction of its own, and only what is still going on expires. */
  ghost predicate Reports(e: map<string, Value>, text: string) {
    && NineFields(e) && e["protocol_version"] == Num(1.0) && e["step"] == e["protocol"] && e["protocol"].Str?
    && e["prev_step_id"] == Null && OwnIdentifiers(e) && e["payload"].Obj?
    && (if e["protocol"].s in {"working", "typing"}
        then e["expires_at"].Str? && St.UtcExpiry(e["expires_at"].s)
        else e["expires_at"] == Null)
    && var p := e["payload"].members;
       || (e["protocol"].s == "ack" && Acknowledges(p, text))
       || (PlainText(e["protocol"].s, text) && p.Keys == {"subject_message_id"} && TargetField(p))
  }

  ghost predicate StandsFor(e: map<string, Value>, text: string) {
    StopsRepeating(e, text) || Reports(e, text)
  }

  lemma KeysAreNine(e: map<string, Value>)
    ensures KeysExactly(e, ENVELOPE_KEYS, []) <==> NineFields(e)
  {
    forall k ensures k in ENVELOPE_KEYS <==> k in FIELDS {
      FieldIsKey(k);
    }
    hide ENVELOPE_KEYS, FIELDS;
  }

  lemma FieldIsKey(k: string)
    ensures k in ENVELOPE_KEYS <==> k in FIELDS
  {
    if k in ENVELOPE_KEYS {
      var i :| 0 <= i < 9 && ENVELOPE_KEYS[i] == k;
      KeyIsField(i);
    } else {
      EarlyFields();
      LateFields();
    }
  }

  lemma KeyIsField(i: nat)
    requires i < 9
    ensures ENVELOPE_KEYS[i] in FIELDS
  {
  }

  lemma EarlyFields()
    ensures {"interaction_version", "interaction_id", "protocol", "protocol_version"} <= set k | k in ENVELOPE_KEYS
  {
    var keys := ENVELOPE_KEYS;
    assert keys[0] in keys && keys[1] in keys && keys[2] in keys && keys[3] in keys;
  }

  lemma LateFields()
    ensures {"step", "step_id", "prev_step_id", "expires_at", "payload"} <= set k | k in ENVELOPE_KEYS
  {
    var keys := ENVELOPE_KEYS;
    assert keys[4] in keys && keys[5] in keys && keys[6] in keys && keys[7] in keys && keys[8] in keys;
  }

  /** The first part of an identifier with one at sign. */
  lemma SplitAtSign(s: string, uuid: string, domain: string)
    requires '@' !in uuid && s == uuid + "@" + domain
    ensures Tx.Split(s, '@')[0] == uuid
  {
    Tx.SplitHead(s, '@');
    Es.FirstAt(s, |uuid|);
    assert s[..|uuid|] == uuid;
  }

  lemma StopsExactly(e: map<string, Value>, text: string)
    requires At(e, "protocol") == Str("repeat.stop")
    ensures RepeatStopFallback(e) == Some(text) <==> StopsRepeating(e, text)
  {
    KeysAreNine(e);
    hide ENVELOPE_KEYS;
    if NineFields(e) && At(e, "payload").Obj? {
      ReasonKeys(At(e, "payload").members);
    }
  }

  lemma ReasonKeys(p: map<string, Value>)
    ensures KeysExactly(p, [], ["reason"]) <==> p.Keys == {} || p.Keys == {"reason"}
    ensures p.Keys == {} ==> "reason" !in p
  {
  }

  lemma PayloadKeys(p: map<string, Value>)
    ensures KeysExactly(p, ["subject_message_id"], []) <==> p.Keys == {"subject_message_id"}
    ensures KeysExactly(p, ["subject_message_id", "status"], ["note"]) <==>
              || p.Keys == {"subject_message_id", "status"}
              || p.Keys == {"subject_message_id", "status", "note"}
  {
    var plain, both, all := ["subject_message_id"], ["subject_message_id", "status"], ["note"];
    assert plain[0] in plain && both[0] in both && both[1] in both && all[0] in all;
    assert forall k :: k in both ==> k in {"subject_message_id", "status"};
  }

  lemma PayloadExactly(protocol: string, p: map<string, Value>, text: string)
    requires protocol in {"ack", "read", "working", "typing"}
    ensures PayloadFallback(protocol, p) == Some(text) <==>
              || (protocol == "ack" && Acknowledges(p, text))
              || (PlainText(protocol, text) && p.Keys == {"subject_message_id"} && TargetField(p))
  {
    PayloadKeys(p);
    hide Rf.MessageId, KeysExactly, Tx.Utf16Length;
    if protocol == "ack" {
      AckExactly(p, text);
    }
  }

  lemma AckExactly(p: map<string, Value>, text: string)
    ensures PayloadFallback("ack", p) == Some(text) <==> Acknowledges(p, text)
  {
    PayloadKeys(p);
    hide Rf.MessageId, KeysExactly, Tx.Utf16Length;
    if p.Keys == {"subject_message_id", "status"} || p.Keys == {"subject_message_id", "status", "note"} {
      assert "subject_message_id" in p && "status" in p;
      NoteKey(p);
      if p["status"].Str? {
        StateText(p["status"].s);
        if "note" in p && p["note"].Str? {
          Glued(Sg.SignalText("ack", p["status"].s, None), p["note"].s);
        }
      }
    }
  }

  lemma NoteKey(p: map<string, Value>)
    ensures p.Keys == {"subject_message_id", "status"} ==> "note" !in p
  {
  }

  lemma StateText(status: string)
    ensures status in ["received", "will_process", "will_not_process"] <==> exists state :: StatusText(status, state)
    ensures forall state :: StatusText(status, state) ==> Sg.SignalText("ack", status, None) == state
  {
    if status == "received" {
      assert StatusText(status, "Received your message.");
    } else if status == "will_process" {
      assert StatusText(status, "I intend to process your message.");
    } else if status == "will_not_process" {
      assert StatusText(status, "I will not process your message.");
    }
  }

  lemma Glued(state: string, note: string)
    ensures state + ("\n\n" + note) == state + "\n\n" + note
  {
  }

  /** What a valid envelope stands for, and when it stands for nothing. */
  lemma FallbackExactly(e: map<string, Value>, text: string)
    requires Es.GoodEnvelope(e)
    ensures Fallback(e) == Some(text) <==> StandsFor(e, text)
  {
    hide ENVELOPE_KEYS, KeysExactly, RepeatStopFallback, PayloadFallback, Acknowledges, PlainText, TargetField,
         St.UtcExpiry, StopsRepeating, OwnIdentifiers, Es.WireIdText, Es.UuidText, Es.SomethingVisible;
    KeysAreNine(e);
    StopsSayStop(e, text);
    if e["protocol"] == Str("repeat.stop") {
      StopsExactly(e, text);
      StopIsNoKind(e["protocol"].s, text);
    } else if NineFields(e) && e["payload"].Obj? {
      IdentifiersDiffer(e);
      if e["protocol"].s in {"ack", "read", "working", "typing"} {
        PayloadExactly(e["protocol"].s, e["payload"].members, text);
      } else {
        OnlyThree(e["protocol"].s, text);
      }
    }
  }

  lemma StopsSayStop(e: map<string, Value>, text: string)
    ensures StopsRepeating(e, text) ==> "protocol" in e && e["protocol"] == Str("repeat.stop")
  {
  }

  lemma StopIsNoKind(kind: string, text: string)
    requires kind == "repeat.stop"
    ensures kind != "ack" && !PlainText(kind, text)
  {
  }

  lemma OnlyThree(kind: string, text: string)
    requires kind !in {"ack", "read", "working", "typing"}
    ensures !PlainText(kind, text)
  {
  }

  lemma IdentifiersDiffer(e: map<string, Value>)
    requires Es.GoodEnvelope(e) && NineFields(e)
    ensures OwnIdentifiers(e) <==>
              Tx.Lower(Tx.Split(TextAt(e, "interaction_id"), '@')[0]) != Tx.Lower(TextAt(e, "step_id"))
  {
    var id := e["interaction_id"].s;
    hide Es.UuidText, Es.DomainText;
    var uuid, domain :| Es.UuidText(uuid) && Es.DomainText(domain) && id == uuid + "@" + domain;
    Es.NoAtInUuid(uuid);
    SplitAtSign(id, uuid, domain);
    forall u, d | '@' !in u && id == u + "@" + d ensures Tx.Split(id, '@')[0] == u {
      SplitAtSign(id, u, d);
    }
  }

  // ----- The content type -----

  predicate Blanks(s: string) {
    forall i :: 0 <= i < |s| ==> s[i] == ' ' || s[i] == '\t'
  }

  /** `application/json` in any case, blanks around it, and whatever parameters after a semicolon. */
  ghost predicate JsonType(contentType: Option<string>) {
    && contentType.Some?
    && exists lead, name, trail, rest ::
         && Blanks(lead) && Tx.Lower(name) == "application/json" && Blanks(trail) && (rest == "" || rest[0] == ';')
         && contentType.value == lead + name + trail + rest
  }

  lemma {:induction false} TrimmedBlanks(s: string) returns (lead: string, trail: string)
    ensures Blanks(lead) && Blanks(trail) && s == lead + TrimBlanks(s) + trail
  {
    if s != [] && (s[0] == ' ' || s[0] == '\t') {
      lead, trail := TrimmedBlanks(s[1..]);
      lead := [s[0]] + lead;
    } else if s != [] && (s[|s| - 1] == ' ' || s[|s| - 1] == '\t') {
      lead, trail := TrimmedBlanks(s[..|s| - 1]);
      trail := trail + [s[|s| - 1]];
    } else {
      lead, trail := "", "";
    }
  }

  predicate Solid(name: string) {
    name != "" && !Blanks(name[..1]) && !Blanks(name[|name| - 1..])
  }

  lemma {:induction false} BlanksAreTrimmed(lead: string, name: string, trail: string)
    requires Blanks(lead) && Blanks(trail) && Solid(name)
    ensures TrimBlanks(lead + name + trail) == name
    decreases |lead| + |trail|
  {
    var s := lead + name + trail;
    if lead != "" {
      assert s[1..] == lead[1..] + name + trail;
      BlanksAreTrimmed(lead[1..], name, trail);
    } else {
      assert s[0] == name[0] == name[..1][0];
      if trail != "" {
        assert s[..|s| - 1] == lead + name + trail[..|trail| - 1];
        BlanksAreTrimmed(lead, name, trail[..|trail| - 1]);
      } else {
        assert s == name && s[|s| - 1] == name[|name| - 1..][0];
      }
    }
  }

  lemma JsonName(name: string)
    requires Tx.Lower(name) == "application/json"
    ensures Solid(name) && ';' !in name
  {
    var lower := Tx.Lower(name);
    assert forall i :: 0 <= i < 16 ==> lower[i] != ';' && lower[i] != ' ' && lower[i] != '\t';
    assert forall i :: 0 <= i < 16 ==> Tx.LowerChar(name[i]) == lower[i];
    assert name[..1][0] == name[0] && name[15..][0] == name[15];
  }

  lemma JsonExactly(contentType: Option<string>)
    ensures JsonMedia(contentType) <==> JsonType(contentType)
  {
    if contentType.Some? {
      var s := contentType.value;
      var semicolon := Tx.IndexOf(s, ';');
      Tx.SplitHead(s, ';');
      if JsonMedia(contentType) {
        var lead, trail := TrimmedBlanks(s[..semicolon]);
        assert s == lead + TrimBlanks(s[..semicolon]) + trail + s[semicolon..];
      }
      if lead, name, trail, rest :| Blanks(lead) && Tx.Lower(name) == "application/json" && Blanks(trail)
                                    && (rest == "" || rest[0] == ';') && s == lead + name + trail + rest {
        JsonIsTrimmed(s, lead, name, trail, rest);
      }
    }
  }

  lemma JsonIsTrimmed(s: string, lead: string, name: string, trail: string, rest: string)
    requires Blanks(lead) && Tx.Lower(name) == "application/json" && Blanks(trail) && (rest == "" || rest[0] == ';')
    requires s == lead + name + trail + rest
    ensures TrimBlanks(Tx.Split(s, ';')[0]) == name
  {
    JsonName(name);
    Tx.SplitHead(s, ';');
    var head := lead + name + trail;
    assert ';' !in head && s == head + rest;
    BeforeSemicolon(s, |head|);
    assert s[..|head|] == head;
    BlanksAreTrimmed(lead, name, trail);
  }

  lemma BeforeSemicolon(s: string, at: nat)
    requires at <= |s| && (at < |s| ==> s[at] == ';') && forall i :: 0 <= i < at ==> s[i] != ';'
    ensures Tx.IndexOf(s, ';') == at
  {
  }

  // ----- The verdicts -----

  predicate Named(part: Part) {
    part.filename.Some? && Tx.Lower(part.filename.value) == "interaction.json"
  }

  predicate Listed(inventory: Inventory) {
    inventory.status == "complete" && inventory.parts.Some?
  }

  /** The interaction is the only part there is. */
  predicate Alone(inventory: Inventory) {
    Listed(inventory) && |inventory.parts.value| == 1 && Named(inventory.parts.value[0])
  }

  /** The body is the text, up to line ends and one final newline; the text of a status signal may be missing. */
  predicate Says(text: Option<string>, expected: string, protocol: Value) {
    var actual := Tx.Normalised(if text.Some? then text.value else "");
    || actual in {Tx.Normalised(expected), Tx.Normalised(expected) + "\n"}
    || (protocol != Str("repeat.stop") && actual in {"", "\n"})
  }

  lemma {:induction false} SomeNamed(parts: seq<Part>)
    ensures Canonicals(parts) == [] <==> forall i :: 0 <= i < |parts| ==> !Named(parts[i])
  {
    if parts != [] {
      SomeNamed(parts[1..]);
      hide Named, IsCanonical;
      NamedIsCanonical(parts[0]);
      assert forall i :: 1 <= i < |parts| ==> parts[i] == parts[1..][i - 1];
    }
  }

  lemma NamedIsCanonical(part: Part)
    ensures Named(part) <==> IsCanonical(part)
  {
  }

  lemma CanonicalsSplit(parts: seq<Part>, i: nat)
    requires i < |parts|
    ensures |Canonicals(parts)| == |Canonicals(parts[..i])| + (if Named(parts[i]) then 1 else 0)
                                   + |Canonicals(parts[i + 1..])|
  {
    NamedIsCanonical(parts[i]);
    hide Named, IsCanonical;
    assert parts == parts[..i] + ([parts[i]] + parts[i + 1..]);
    CanonicalsAppend(parts[..i], [parts[i]] + parts[i + 1..]);
    CanonicalsAppend([parts[i]], parts[i + 1..]);
    assert [parts[i]][1..] == [];
  }

  lemma TwoNamed(parts: seq<Part>, i: nat, j: nat)
    requires i < j < |parts| && Named(parts[i]) && Named(parts[j])
    ensures |Canonicals(parts)| >= 2
  {
    hide Named, Canonicals;
    CanonicalsSplit(parts, j);
    assert parts[..j][i] == parts[i];
    SomeNamed(parts[..j]);
  }

  ghost predicate OnlyNamed(parts: seq<Part>, i: nat) {
    i < |parts| && Named(parts[i]) && forall j :: 0 <= j < |parts| && Named(parts[j]) ==> j == i
  }

  ghost predicate NamedTwice(parts: seq<Part>) {
    exists i, j :: 0 <= i < j < |parts| && Named(parts[i]) && Named(parts[j])
  }

  lemma {:induction false} FirstNamed(parts: seq<Part>) returns (i: nat)
    requires Canonicals(parts) != []
    ensures i < |parts| && Named(parts[i]) && forall j :: 0 <= j < i ==> !Named(parts[j])
  {
    NamedIsCanonical(parts[0]);
    hide Named, IsCanonical;
    if Named(parts[0]) {
      i := 0;
    } else {
      i := FirstNamed(parts[1..]);
      i := i + 1;
    }
  }

  /** After the first there is another, or there is none. */
  lemma CountNamed(parts: seq<Part>)
    requires Canonicals(parts) != []
    ensures |Canonicals(parts)| == 1 <==> exists i :: OnlyNamed(parts, i)
    ensures |Canonicals(parts)| == 1 <==> !NamedTwice(parts)
  {
    hide Canonicals, Named;
    var i := FirstNamed(parts);
    var after := parts[i + 1..];
    CanonicalsSplit(parts, i);
    SomeNamed(parts[..i]);
    SomeNamed(after);
    if |Canonicals(parts)| == 1 {
      OnlyFirst(parts, i);
    } else {
      var k := FirstNamed(after);
      assert after[k] == parts[i + 1 + k];
      assert NamedTwice(parts);
    }
  }

  lemma OnlyFirst(parts: seq<Part>, i: nat)
    requires i < |parts| && Named(parts[i]) && |Canonicals(parts)| == 1
    ensures OnlyNamed(parts, i) && !NamedTwice(parts)
  {
    hide Canonicals, Named;
    if j, k :| 0 <= j < k < |parts| && Named(parts[j]) && Named(parts[k]) {
      TwoNamed(parts, j, k);
    }
  }

  /** Where the classification stops because of the inventory alone. */
  lemma InventoryExactly(sc: Strconv, inventory: Inventory, bodies: Bodies, bytes: Option<seq<T.Lexeme>>)
    ensures var r := Classified(sc, inventory, bodies, bytes);
            && (r.reason == InventoryUnavailable <==> !Listed(inventory))
            && (r.reason == NoCanonicalPart <==>
                  && Listed(inventory)
                  && forall i :: 0 <= i < |inventory.parts.value| ==> !Named(inventory.parts.value[i]))
            && (r.reason == DuplicateCanonicalParts <==> Listed(inventory) && NamedTwice(inventory.parts.value))
            && (r.reason == AdditionalParts <==>
                  && Listed(inventory) && |inventory.parts.value| > 1
                  && exists i :: OnlyNamed(inventory.parts.value, i))
            && (r.reason in {InventoryUnavailable, NoCanonicalPart, DuplicateCanonicalParts, AdditionalParts} <==>
                  !Alone(inventory))
  {
    hide Named, En.Parse, Judge, Canonicals;
    if Listed(inventory) {
      var parts := inventory.parts.value;
      SomeNamed(parts);
      if Canonicals(parts) != [] {
        CountNamed(parts);
      }
      if bytes.Some? && Canonicals(parts) != [] {
        JudgesLater(Canonicals(parts)[0].contentType, En.Parse(sc, bytes.value), bodies);
      }
    }
  }

  lemma JudgesLater(media: Option<string>, interaction: En.Interaction, bodies: Bodies)
    ensures Judge(media, interaction, bodies).reason
            !in {InventoryUnavailable, NoCanonicalPart, DuplicateCanonicalParts, AdditionalParts, PartUnavailable}
  {
    hide JsonMedia, Fallback, TextMatches;
  }

  /** What the attachment, the content type and the bodies decide once the interaction is the only part. */
  lemma JudgedExactly(sc: Strconv, inventory: Inventory, bodies: Bodies, bytes: Option<seq<T.Lexeme>>)
    requires Alone(inventory)
    ensures var r := Classified(sc, inventory, bodies, bytes).reason;
            && (r == PartUnavailable <==> bytes.None?)
            && (r == BodiesUnavailable <==> bytes.Some? && bodies.status != "complete")
            && (bytes.Some? && bodies.status == "complete" ==>
                  var read, media := En.Parse(sc, bytes.value), JsonType(inventory.parts.value[0].contentType);
                  && (r == InvalidInteraction <==> read.Invalid?)
                  && (r == UnsupportedContentType <==> !read.Invalid? && !media)
                  && (r == UnsupportedSignal <==>
                        && media
                        && (read.Unsupported? || (read.Valid? && forall text :: !StandsFor(read.envelope, text))))
                  && (r in {HtmlPresent, TextMismatch, InformationalSignal} <==>
                        media && read.Valid? && exists text :: StandsFor(read.envelope, text)))
    ensures var r := Classified(sc, inventory, bodies, bytes).reason;
            bytes.Some? && bodies.status == "complete" && En.Parse(sc, bytes.value).Valid? ==>
              var e := En.Parse(sc, bytes.value).envelope;
              forall text :: JsonType(inventory.parts.value[0].contentType) && StandsFor(e, text) ==>
                var html := bodies.html.Some? && bodies.html.value != "";
                && "protocol" in e
                && (r == HtmlPresent <==> html)
                && (r == TextMismatch <==> !html && !Says(bodies.text, text, e["protocol"]))
                && (r == InformationalSignal <==> !html && Says(bodies.text, text, e["protocol"]))
  {
    hide Named, En.Parse, Canonicals, JsonMedia, JsonType, Fallback, StandsFor, Says, TextMatches, Es.GoodEnvelope,
         Es.SourceOf;
    var parts := inventory.parts.value;
    OnlyCanonical(parts);
    JsonExactly(parts[0].contentType);
    if bytes.Some? && En.Parse(sc, bytes.value).Valid? {
      Es.ParsedExactly(sc, bytes.value);
      var e := En.Parse(sc, bytes.value).envelope;
      forall text ensures Fallback(e) == Some(text) <==> StandsFor(e, text) {
        FallbackExactly(e, text);
      }
      HasProtocol(e);
      if Fallback(e).Some? {
        MatchesIsSays(bodies.text, Fallback(e).value, e["protocol"]);
      }
    }
  }

  lemma OnlyCanonical(parts: seq<Part>)
    requires |parts| == 1 && Named(parts[0])
    ensures Canonicals(parts) == [parts[0]]
  {
    NamedIsCanonical(parts[0]);
    assert parts[1..] == [];
  }

  lemma HasProtocol(e: map<string, Value>)
    requires Es.GoodEnvelope(e)
    ensures "protocol" in e && At(e, "protocol") == e["protocol"]
  {
  }

  lemma MatchesIsSays(text: Option<string>, expected: string, protocol: Value)
    ensures TextMatches(OrEmpty(text), expected, protocol != Str("repeat.stop")) <==> Says(text, expected, protocol)
  {
  }

  /** The classification that goes with each reason, and when the parsed interaction is reported. */
  lemma ReasonsSayWhich(sc: Strconv, inventory: Inventory, bodies: Bodies, bytes: Option<seq<T.Lexeme>>)
    ensures var r := Classified(sc, inventory, bodies, bytes);
            && (r.classification == Unavailable <==>
                  r.reason in {InventoryUnavailable, PartUnavailable, BodiesUnavailable})
            && (r.classification == PlainMail <==> r.reason == NoCanonicalPart)
            && (r.classification == InformationalOnly <==> r.reason == InformationalSignal)
            && r.interaction == if bytes.None? || r.reason in {InventoryUnavailable, NoCanonicalPart,
                                                               DuplicateCanonicalParts}
                                then None else Some(En.Parse(sc, bytes.value))
  {
    hide En.Parse, Canonicals, JsonMedia, Fallback, TextMatches;
  }
}
