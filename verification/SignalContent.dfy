/**
 Classifying the content of a received email: is it exactly one status signal with its own
 fallback text, and nothing else?
 */
module SignalContent {
  import opened Outcomes
  import opened Sequences
  import opened Values
  import opened References
  import opened SignalTime
  import Tx = Texts
  import T = JsonText
  import En = Envelopes
  import Sg = Signals

  datatype Part = Part(filename: Option<string>, contentType: Option<string>)
  datatype Inventory = Inventory(status: string, parts: Option<seq<Part>>)
  datatype Bodies = Bodies(status: string, text: Option<string>, html: Option<string>)

  datatype Classification = Unavailable | PlainMail | MixedOrUnsupported | InformationalOnly
  datatype Why =
    | InventoryUnavailable | NoCanonicalPart | DuplicateCanonicalParts | AdditionalParts | PartUnavailable
    | BodiesUnavailable | InvalidInteraction | UnsupportedContentType | UnsupportedSignal | HtmlPresent
    | TextMismatch | InformationalSignal
  datatype Verdict = Verdict(classification: Classification, reason: Why, interaction: Option<En.Interaction>)

  const ENVELOPE_KEYS: seq<string> := ["interaction_version", "interaction_id", "protocol", "protocol_version",
                                       "step", "step_id", "prev_step_id", "expires_at", "payload"]

  // ----- Keys -----

  /** All required keys, and nothing but required and optional ones. */
  predicate KeysExactly(value: map<string, Value>, required: seq<string>, optional: seq<string>) {
    && (forall k :: k in required ==> k in value)
    && (forall k :: k in value ==> k in required || k in optional)
  }

  /** `signalExactKeys`. */
  method SignalExactKeys(value: map<string, Value>, required: seq<string>, optional: seq<string>) returns (ok: bool)
    ensures ok <==> KeysExactly(value, required, optional)
  {
    var allowed: map<string, bool> := map[];
    for i := 0 to |required|
      invariant forall k :: k in allowed <==> k in required[..i]
      invariant forall k :: k in allowed ==> k in value
    {
      if required[i] !in value {
        return false;
      }
      allowed := allowed[required[i] := true];
    }
    assert required[..|required|] == required;
    for i := 0 to |optional|
      invariant forall k :: k in allowed <==> k in required || k in optional[..i]
    {
      allowed := allowed[optional[i] := true];
    }
    assert optional[..|optional|] == optional;
    var todo := value.Keys;
    while todo != {}
      invariant todo <= value.Keys
      invariant forall k :: k in value && k !in todo ==> k in allowed
      decreases |todo|
    {
      var key :| key in todo;
      if key !in allowed {
        return false;
      }
      todo := todo - {key};
    }
    ok := true;
  }

  /** A Go map lookup: nothing and null are both nil. */
  function At(e: map<string, Value>, key: string): Value {
    if key in e then e[key] else Null
  }

  function TextAt(e: map<string, Value>, key: string): string {
    if At(e, key).Str? then At(e, key).s else ""
  }

  // ----- The text a valid envelope stands for -----

  function RepeatStopText(reason: string): string {
    if reason == "" then "Stopped this repeating message." else "Stopped this repeating message. Reason: " + reason
  }

  function RepeatStopFallback(e: map<string, Value>): Option<string> {
    if || !At(e, "prev_step_id").Str? || !KeysExactly(e, ENVELOPE_KEYS, []) || At(e, "protocol_version") != Num(1.0)
       || At(e, "step") != Str("stop") || At(e, "expires_at") != Null || !At(e, "payload").Obj?
    then None
    else
      var p := At(e, "payload").members;
      if !KeysExactly(p, [], ["reason"]) then None
      else if "reason" !in p then Some(RepeatStopText(""))
      else if !p["reason"].Str? || p["reason"].s == "" || Tx.Utf16Length(p["reason"].s) > 280
        || '\0' in p["reason"].s then None
      else Some(RepeatStopText(p["reason"].s))
  }

  /** `signalContentFallback`; both identifiers of a valid envelope are ASCII, so folding is lowering. */
  function Fallback(e: map<string, Value>): Option<string> {
    var protocol := TextAt(e, "protocol");
    if protocol == "repeat.stop" then RepeatStopFallback(e)
    else if || !KeysExactly(e, ENVELOPE_KEYS, []) || At(e, "protocol_version") != Num(1.0)
            || protocol !in ["ack", "read", "working", "typing"] || At(e, "step") != Str(protocol)
            || At(e, "prev_step_id") != Null
            || Tx.Lower(Tx.Split(TextAt(e, "interaction_id"), '@')[0]) == Tx.Lower(TextAt(e, "step_id"))
    then None
    else if (if protocol in ["working", "typing"] then !At(e, "expires_at").Str? || !UtcExpiry(At(e, "expires_at").s)
             else At(e, "expires_at") != Null)
    then None
    else if !At(e, "payload").Obj? then None
    else PayloadFallback(protocol, At(e, "payload").members)
  }

  function PayloadFallback(protocol: string, p: map<string, Value>): Option<string> {
    if !KeysExactly(p, if protocol == "ack" then ["subject_message_id", "status"] else ["subject_message_id"],
                    if protocol == "ack" then ["note"] else [])
    then None
    else if !At(p, "subject_message_id").Str?
      || MessageId(At(p, "subject_message_id").s) != Some(At(p, "subject_message_id").s) then None
    else if protocol != "ack" then Some(Sg.SignalText(protocol, "", None))
    else if TextAt(p, "status") !in ["received", "will_process", "will_not_process"] then None
    else if "note" !in p then Some(Sg.SignalText("ack", TextAt(p, "status"), None))
    else if !p["note"].Str? || !Sg.GoodNote(p["note"].s) then None
    else Some(Sg.SignalText("ack", TextAt(p, "status"), Some(p["note"].s)))
  }

  // ----- The classification -----

  function OrEmpty(s: Option<string>): string {
    if s.Some? then s.value else ""
  }

  function TrimBlanks(s: string): string {
    if s != [] && (s[0] == ' ' || s[0] == '\t') then TrimBlanks(s[1..])
    else if s != [] && (s[|s| - 1] == ' ' || s[|s| - 1] == '\t') then TrimBlanks(s[..|s| - 1])
    else s
  }

  predicate JsonMedia(contentType: Option<string>) {
    contentType.Some? && Tx.Lower(TrimBlanks(Tx.Split(contentType.value, ';')[0])) == "application/json"
  }

  predicate IsCanonical(part: Part) {
    part.filename.Some? && Tx.Lower(part.filename.value) == "interaction.json"
  }

  function Canonicals(parts: seq<Part>): (r: seq<Part>)
    ensures |r| <= |parts|
  {
    if parts == [] then [] else (if IsCanonical(parts[0]) then [parts[0]] else []) + Canonicals(parts[1..])
  }

  lemma {:induction false} CanonicalsAppend(s: seq<Part>, t: seq<Part>)
    ensures Canonicals(s + t) == Canonicals(s) + Canonicals(t)
  {
    if s == [] {
      assert s + t == t;
    } else {
      hide IsCanonical;
      assert (s + t)[1..] == s[1..] + t;
      CanonicalsAppend(s[1..], t);
      Regrouped(if IsCanonical(s[0]) then [s[0]] else [], Canonicals(s[1..]), Canonicals(t));
    }
  }

  /** The body matches the fallback up to line ends and one final newline; the text of a status
      signal may also be missing. */
  predicate TextMatches(text: string, expected: string, textOptional: bool) {
    var actual := Tx.Normalised(text);
    || actual == Tx.Normalised(expected)
    || actual == Tx.Normalised(expected) + "\n"
    || (textOptional && (actual == "" || actual == "\n"))
  }

  function Judge(media: Option<string>, interaction: En.Interaction, bodies: Bodies): Verdict {
    var seen := Some(interaction);
    if bodies.status != "complete" then Verdict(Unavailable, BodiesUnavailable, seen)
    else if interaction.Invalid? then Verdict(MixedOrUnsupported, InvalidInteraction, seen)
    else if !JsonMedia(media) then Verdict(MixedOrUnsupported, UnsupportedContentType, seen)
    else if !interaction.Valid? || Fallback(interaction.envelope).None? then
      Verdict(MixedOrUnsupported, UnsupportedSignal, seen)
    else if OrEmpty(bodies.html) != "" then Verdict(MixedOrUnsupported, HtmlPresent, seen)
    else if !TextMatches(OrEmpty(bodies.text), Fallback(interaction.envelope).value,
                         At(interaction.envelope, "protocol") != Str("repeat.stop"))
    then Verdict(MixedOrUnsupported, TextMismatch, seen)
    else Verdict(InformationalOnly, InformationalSignal, seen)
  }

  function Classified(sc: Strconv, inventory: Inventory, bodies: Bodies, bytes: Option<seq<T.Lexeme>>): Verdict {
    if inventory.status != "complete" || inventory.parts.None? then Verdict(Unavailable, InventoryUnavailable, None)
    else
      var parts := inventory.parts.value;
      var canonical := Canonicals(parts);
      if |canonical| == 0 then Verdict(PlainMail, NoCanonicalPart, None)
      else if |canonical| != 1 then Verdict(MixedOrUnsupported, DuplicateCanonicalParts, None)
      else
        var interaction := if bytes.Some? then Some(En.Parse(sc, bytes.value)) else None;
        if |parts| != 1 then Verdict(MixedOrUnsupported, AdditionalParts, interaction)
        else if interaction.None? then Verdict(Unavailable, PartUnavailable, None)
        else Judge(canonical[0].contentType, interaction.value, bodies)
  }

  /** `ClassifySignalContent`. */
  method ClassifySignalContent(sc: Strconv, inventory: Inventory, bodies: Bodies, bytes: Option<seq<T.Lexeme>>)
      returns (r: Verdict)
    ensures r == Classified(sc, inventory, bodies, bytes)
  {
    if inventory.status != "complete" || inventory.parts.None? {
      return Verdict(Unavailable, InventoryUnavailable, None);
    }
    var parts := inventory.parts.value;
    var canonical: seq<Part> := [];
    for i := 0 to |parts|
      invariant canonical == Canonicals(parts[..i])
    {
      assert parts[..i + 1] == parts[..i] + [parts[i]];
      CanonicalsAppend(parts[..i], [parts[i]]);
      if parts[i].filename.Some? && Tx.Lower(parts[i].filename.value) == "interaction.json" {
        canonical := canonical + [parts[i]];
      }
    }
    assert parts[..|parts|] == parts;
    if |canonical| == 0 {
      return Verdict(PlainMail, NoCanonicalPart, None);
    }
    if |canonical| != 1 {
      return Verdict(MixedOrUnsupported, DuplicateCanonicalParts, None);
    }
    var interaction: Option<En.Interaction> := None;
    if bytes.Some? {
      var parsed, _ := En.ParseInteractionEnvelope(sc, bytes.value);
      interaction := Some(parsed);
    }
    if |parts| != 1 {
      return Verdict(MixedOrUnsupported, AdditionalParts, interaction);
    }
    if interaction.None? {
      return Verdict(Unavailable, PartUnavailable, None);
    }
    r := Judge(canonical[0].contentType, interaction.value, bodies);
  }

  /** Informational means exactly this: the one part of the inventory is the interaction, as JSON; it is a valid
      envelope that stands for a text; there is no HTML, and the text body, read whole, is that text. */
  lemma InformationalExactly(sc: Strconv, inventory: Inventory, bodies: Bodies, bytes: Option<seq<T.Lexeme>>)
    ensures Classified(sc, inventory, bodies, bytes).classification == InformationalOnly <==>
            && inventory.status == "complete" && bodies.status == "complete"
            && inventory.parts.Some? && |inventory.parts.value| == 1
            && IsCanonical(inventory.parts.value[0]) && JsonMedia(inventory.parts.value[0].contentType)
            && bytes.Some? && En.Parse(sc, bytes.value).Valid?
            && var e := En.Parse(sc, bytes.value).envelope;
               && Fallback(e).Some? && OrEmpty(bodies.html) == ""
               && TextMatches(OrEmpty(bodies.text), Fallback(e).value, At(e, "protocol") != Str("repeat.stop"))
  {
    hide IsCanonical, JsonMedia, En.Parse, Fallback, TextMatches;
    if inventory.parts.Some? && |inventory.parts.value| == 1 {
      var part := inventory.parts.value[0];
      assert inventory.parts.value == [part] && inventory.parts.value[1..] == [];
    }
  }
}
