/**
 What acceptance of an envelope guarantees: the verdicts of the shape check, of the parser and of the validator,
 field by field, with the identifiers and the whitespace spelled out.
 */
module EnvelopeShapes {
  import opened Outcomes
  import opened Utf8
  import opened Values
  import opened Envelopes
  import T = JsonText
  import Dc = Decoding
  import Rd = Reader
  import Sn = Snapshots
  import Tx = Texts
  import Jg = JsonGrammar
  import Js = JsonStrings

  /** `interactionSpace`. */
  const SPACES := "\t\n\U{B}\U{C}\r \U{A0}\U{1680}\U{2000}\U{2001}\U{2002}\U{2003}\U{2004}\U{2005}\U{2006}\U{2007}"
                  + "\U{2008}\U{2009}\U{200A}\U{2028}\U{2029}\U{202F}\U{205F}\U{3000}\U{FEFF}"

  predicate HexText(s: string) {
    forall i :: 0 <= i < |s| ==> s[i] in "0123456789abcdefABCDEF"
  }

  /** Hexadecimal digits in groups of eight, four, four, four and twelve. */
  predicate UuidText(s: string) {
    && |s| == 36 && s[8] == s[13] == s[18] == s[23] == '-'
    && HexText(s[..8]) && HexText(s[9..13]) && HexText(s[14..18]) && HexText(s[19..23]) && HexText(s[24..])
  }

  predicate DomainText(s: string) {
    s != "" && forall i :: 0 <= i < |s| ==> s[i] != '@' && s[i] !in SPACES
  }

  ghost predicate WireIdText(s: string) {
    exists uuid, domain :: UuidText(uuid) && DomainText(domain) && s == uuid + "@" + domain
  }

  predicate SomethingVisible(s: string) {
    exists i :: 0 <= i < |s| && s[i] !in SPACES
  }

  predicate WholeNumber(v: Value, n: int) {
    n >= 1 && v == Num(n as real)
  }

  /** Every field of a valid envelope. */
  ghost predicate GoodEnvelope(e: map<string, Value>) {
    && "interaction_version" in e && e["interaction_version"] == Num(1.0)
    && "interaction_id" in e && e["interaction_id"].Str? && WireIdText(e["interaction_id"].s)
    && "protocol" in e && e["protocol"].Str? && SomethingVisible(e["protocol"].s)
    && "protocol_version" in e && (exists n :: WholeNumber(e["protocol_version"], n))
    && "step" in e && e["step"].Str? && SomethingVisible(e["step"].s)
    && "step_id" in e && e["step_id"].Str? && UuidText(e["step_id"].s)
    && "prev_step_id" in e
    && (e["prev_step_id"] == Null || (e["prev_step_id"].Str? && UuidText(e["prev_step_id"].s)))
    && "expires_at" in e && (e["expires_at"] == Null || e["expires_at"].Str?)
    && "payload" in e
  }

  /** An envelope of a later version, whatever its other fields. */
  predicate LaterVersion(value: Value, n: int) {
    && value.Obj? && "interaction_version" in value.members
    && n != 1 && WholeNumber(value.members["interaction_version"], n)
  }

  // ----- The pieces -----

  lemma UuidIsUuidText(s: string)
    ensures IsUuid(s) <==> UuidText(s)
  {
    HexDigits();
    if UuidText(s) {
      forall i | 0 <= i < 36 ensures if i in {8, 13, 18, 23} then s[i] == '-' else T.HexDigit(s[i]).Some? {
        if i !in {8, 13, 18, 23} {
          UuidTextAt(s, i);
        }
      }
    }
  }

  lemma UuidTextAt(s: string, i: nat)
    requires UuidText(s) && i < 36 && i !in {8, 13, 18, 23}
    ensures s[i] in "0123456789abcdefABCDEF"
  {
    if i < 8 {
      assert s[..8][i] == s[i];
    } else if i < 13 {
      assert s[9..13][i - 9] == s[i];
    } else if i < 18 {
      assert s[14..18][i - 14] == s[i];
    } else if i < 23 {
      assert s[19..23][i - 19] == s[i];
    } else {
      assert s[24..][i - 24] == s[i];
    }
  }

  lemma HexDigits()
    ensures forall c: char :: T.HexDigit(c).Some? <==> c in "0123456789abcdefABCDEF"
  {
    forall c: char ensures T.HexDigit(c).Some? <==> c in "0123456789abcdefABCDEF" {
      HexDigitIs(c);
    }
  }

  lemma HexDigitIs(c: char)
    ensures T.HexDigit(c).Some? <==> c in "0123456789abcdefABCDEF"
  {
    var digits := "0123456789abcdefABCDEF";
    if '0' <= c <= '9' {
      assert digits[c as int - '0' as int] == c;
    } else if 'a' <= c <= 'f' {
      assert digits[c as int - 'a' as int + 10] == c;
    } else if 'A' <= c <= 'F' {
      assert digits[c as int - 'A' as int + 16] == c;
    }
  }

  lemma SpaceIs(c: char)
    ensures InteractionSpace(c) <==> c in SPACES
  {
    if '\U{2000}' <= c <= '\U{200A}' {
      assert SPACES[8 + (c as int - 0x2000)] == c;
    } else if '\t' <= c <= '\r' {
      assert SPACES[c as int - 9] == c;
    }
    assert SPACES[5] == ' ' && SPACES[6] == '\U{A0}' && SPACES[7] == '\U{1680}' && SPACES[19] == '\U{2028}';
    assert SPACES[20] == '\U{2029}' && SPACES[21] == '\U{202F}' && SPACES[22] == '\U{205F}';
    assert SPACES[23] == '\U{3000}' && SPACES[24] == '\U{FEFF}';
  }

  lemma WireIdIsWireIdText(s: string)
    ensures WireId(s) <==> WireIdText(s)
  {
    hide IsUuid, UuidText, InteractionSpace, SPACES;
    forall c: char ensures InteractionSpace(c) <==> c in SPACES {
      SpaceIs(c);
    }
    if WireId(s) {
      var at := Tx.IndexOf(s, '@');
      UuidIsUuidText(s[..at]);
      var domain := s[at + 1..];
      assert forall i :: 0 <= i < |domain| ==> domain[i] == s[at + 1 + i];
      assert DomainText(domain) && s == s[..at] + "@" + domain;
    }
    if uuid, domain :| UuidText(uuid) && DomainText(domain) && s == uuid + "@" + domain {
      JoinedIsWireId(s, uuid, domain);
    }
  }

  lemma JoinedIsWireId(s: string, uuid: string, domain: string)
    requires UuidText(uuid) && DomainText(domain) && s == uuid + "@" + domain
    ensures WireId(s)
  {
    UuidIsUuidText(uuid);
    NoAtInUuid(uuid);
    hide IsUuid, UuidText, InteractionSpace, SPACES;
    FirstAt(s, |uuid|);
    assert s[..|uuid|] == uuid && s[|uuid| + 1..] == domain;
    forall i | |uuid| < i < |s| ensures s[i] != '@' && !InteractionSpace(s[i]) {
      assert s[i] == domain[i - |uuid| - 1];
      SpaceIs(s[i]);
    }
  }

  lemma NoAtInUuid(s: string)
    requires UuidText(s)
    ensures '@' !in s
  {
    forall i | 0 <= i < 36 ensures s[i] != '@' {
      if i !in {8, 13, 18, 23} {
        UuidTextAt(s, i);
      }
    }
  }

  lemma {:induction false} FirstAt(s: string, at: nat)
    requires at < |s| && s[at] == '@' && forall i :: 0 <= i < at ==> s[i] != '@'
    ensures Tx.IndexOf(s, '@') == at
  {
  }

  lemma VisibleIs(s: string)
    ensures !AllSpace(s) <==> SomethingVisible(s)
  {
    hide InteractionSpace, SPACES;
    forall c: char ensures InteractionSpace(c) <==> c in SPACES {
      SpaceIs(c);
    }
  }

  lemma PositiveIsWhole(v: Value)
    ensures PositiveInteger(v) <==> exists n :: WholeNumber(v, n)
    ensures forall n :: WholeNumber(v, n) ==> n == v.n.Floor
  {
    if PositiveInteger(v) {
      assert WholeNumber(v, v.n.Floor);
    }
  }

  // ----- The verdicts -----

  /** The shape check, over all decoded values: valid exactly when every field is good, unsupported exactly for a whole
      version other than 1, and otherwise invalid for that one reason. */
  lemma CheckedExactly(value: Value)
    ensures forall e :: CheckEnvelope(value) == Valid(e) <==> value == Obj(e) && GoodEnvelope(e)
    ensures forall n :: CheckEnvelope(value) == Unsupported(n) <==> LaterVersion(value, n)
    ensures CheckEnvelope(value).Invalid? ==> CheckEnvelope(value) == Invalid(InvalidEnvelope)
  {
    if value.Obj? {
      FieldsAreChecked(value.members);
    }
  }

  lemma FieldsAreChecked(e: map<string, Value>)
    ensures CheckEnvelope(Obj(e)) == Valid(e) <==> GoodEnvelope(e)
    ensures CheckEnvelope(Obj(e)).Valid? ==> CheckEnvelope(Obj(e)).envelope == e
    ensures forall n :: CheckEnvelope(Obj(e)) == Unsupported(n) <==> LaterVersion(Obj(e), n)
  {
    hide IsUuid, UuidText, WireId, WireIdText, AllSpace, SomethingVisible;
    if "interaction_version" in e {
      PositiveIsWhole(e["interaction_version"]);
      assert e["interaction_version"] == Num(1.0) ==> WholeNumber(e["interaction_version"], 1);
    }
    if "protocol_version" in e {
      PositiveIsWhole(e["protocol_version"]);
    }
    TextsAreChecked(e, "interaction_id");
    TextsAreChecked(e, "protocol");
    TextsAreChecked(e, "step");
    TextsAreChecked(e, "step_id");
    TextsAreChecked(e, "prev_step_id");
  }

  lemma TextsAreChecked(e: map<string, Value>, key: string)
    ensures key in e && e[key].Str? ==>
              && (IsUuid(e[key].s) <==> UuidText(e[key].s)) && (WireId(e[key].s) <==> WireIdText(e[key].s))
              && (!AllSpace(e[key].s) <==> SomethingVisible(e[key].s))
  {
    if key in e && e[key].Str? {
      UuidIsUuidText(e[key].s);
      WireIdIsWireIdText(e[key].s);
      VisibleIs(e[key].s);
    }
  }

  // ----- Both entry points -----

  /** `v` is the value of a source: small enough, valid UTF-8 with every surrogate paired, and the tokens of one tree
      that nests within the limit, repeats no key and has safe numbers only. */
  ghost predicate SourceOf(sc: Strconv, ls: seq<T.Lexeme>, v: Value) {
    && |T.Source(ls)| <= 65536 && Utf8.Valid(T.Source(ls)) && T.Outside(T.Source(ls))
    && exists d :: Rd.Tokens(d) == Dc.TokensOf(ls) && Rd.Acceptable(sc, d, 64) && v == Rd.ValueOf(sc, d)
  }

  lemma ParsedIsSource(sc: Strconv, ls: seq<T.Lexeme>)
    ensures forall v :: ParsedValue(sc, ls) == Some(v) <==> SourceOf(sc, ls, v)
  {
    hide Rd.ReadAll, Rd.Acceptable, Rd.ValueOf, Rd.Tokens, Dc.TokensOf, T.Source, Utf8.Valid, T.Outside;
    Rd.AcceptsExactlyTrees(sc, Dc.TokensOf(ls));
  }

  /** The verdicts of the parser. */
  lemma ParsedExactly(sc: Strconv, ls: seq<T.Lexeme>)
    ensures Parse(sc, ls) == Invalid(TooLarge) <==> |T.Source(ls)| > 65536
    ensures Parse(sc, ls) == Invalid(InvalidJson) <==> |T.Source(ls)| <= 65536 && forall v :: !SourceOf(sc, ls, v)
    ensures forall e :: Parse(sc, ls) == Valid(e) <==> SourceOf(sc, ls, Obj(e)) && GoodEnvelope(e)
    ensures forall n :: Parse(sc, ls) == Unsupported(n) <==> exists v :: SourceOf(sc, ls, v) && LaterVersion(v, n)
    ensures Parse(sc, ls) != Invalid(InvalidInput)
  {
    hide SourceOf, ParsedValue, CheckEnvelope, GoodEnvelope, LaterVersion, T.Source;
    ParsedIsSource(sc, ls);
    ParsedIsSmall(sc, ls);
    if ParsedValue(sc, ls).Some? {
      CheckedExactly(ParsedValue(sc, ls).value);
    }
  }

  lemma ParsedIsSmall(sc: Strconv, ls: seq<T.Lexeme>)
    ensures forall v :: SourceOf(sc, ls, v) ==> |T.Source(ls)| <= 65536
  {
  }

  /** The verdicts of the validator. */
  lemma ValidatedExactly(sc: Strconv, h: Sn.Heap, a: Sn.Any)
    ensures Validate(sc, h, a) == Invalid(InvalidInput) <==> forall v :: !Sn.Fits(sc, h, a, 64, 65536, v)
    ensures forall e :: Validate(sc, h, a) == Valid(e) <==> Sn.Fits(sc, h, a, 64, 65536, Obj(e)) && GoodEnvelope(e)
    ensures forall n :: Validate(sc, h, a) == Unsupported(n) <==>
                          exists v :: Sn.Fits(sc, h, a, 64, 65536, v) && LaterVersion(v, n)
    ensures Validate(sc, h, a) !in {Invalid(TooLarge), Invalid(InvalidJson)}
  {
    hide Sn.Fits, CheckEnvelope, GoodEnvelope, LaterVersion;
    if v :| Sn.Fits(sc, h, a, 64, 65536, v) {
      forall w | Sn.Fits(sc, h, a, 64, 65536, w) ensures w == v {
        OnlyCopy(sc, h, a, v, w);
      }
      CheckedExactly(v);
    }
  }

  lemma OnlyCopy(sc: Strconv, h: Sn.Heap, a: Sn.Any, v: Value, w: Value)
    requires Sn.Fits(sc, h, a, 64, 65536, v) && Sn.Fits(sc, h, a, 64, 65536, w)
    ensures v == w
  {
    Sn.OneCopy(sc, h, a, v, w);
  }

  // ----- Sources as JSON texts -----

  /** Every string literal spells a text: no surrogate stands alone. */
  ghost predicate AllSpelled(ls: seq<T.Lexeme>) {
    forall i :: 0 <= i < |ls| && ls[i].Literal? ==> exists s :: Js.Spelled(ls[i].items, s)
  }

  lemma NothingReplaced(ls: seq<T.Lexeme>)
    requires T.GoodText(ls)
    ensures Utf8.Valid(T.Source(ls)) && (T.Outside(T.Source(ls)) <==> AllSpelled(ls))
  {
    T.AcceptedMeansNothingReplaced(ls);
    hide T.Decode, Js.Spelled, T.Source, T.Outside, T.GoodItem, Utf8.Valid;
    forall i | 0 <= i < |ls| && ls[i].Literal?
      ensures !T.Decode(ls[i].items).1 <==> exists s :: Js.Spelled(ls[i].items, s) {
      assert T.GoodLexeme(ls[i]);
      LiteralSpelled(ls[i].items);
    }
  }

  lemma LiteralSpelled(items: seq<T.Item>)
    requires T.GoodItems(items)
    ensures !T.Decode(items).1 <==> exists s :: Js.Spelled(items, s)
  {
    hide T.Decode, Js.Spelled, T.GoodItem;
    var decoded := T.Decode(items);
    Js.DecodesExactly(items, decoded.0);
    assert !decoded.1 ==> decoded == (decoded.0, false);
    if s :| Js.Spelled(items, s) {
      Js.DecodesExactly(items, s);
    }
  }

  /** Which sources have a value: at most 64 KiB of JSON, every literal spelling a text, of a tree that nests at most 64
      deep, repeats no key in an object and has safe numbers only; that tree's value is the value. */
  lemma SourceIsJsonText(sc: Strconv, ls: seq<T.Lexeme>, v: Value)
    requires T.GoodText(ls)
    ensures SourceOf(sc, ls, v) <==>
              && |T.Source(ls)| <= 65536 && AllSpelled(ls)
              && exists d :: Jg.TextOf(Jg.Compact(ls), d) && Rd.Acceptable(sc, d, 64) && v == Rd.ValueOf(sc, d)
  {
    NothingReplaced(ls);
    hide T.Source, T.Outside, Utf8.Valid, AllSpelled, Jg.TextOf, Jg.Compact, Rd.Acceptable, Rd.ValueOf, Rd.Tokens,
         Dc.TokensOf, T.GoodText;
    if d :| Rd.Tokens(d) == Dc.TokensOf(ls) && Rd.Acceptable(sc, d, 64) && v == Rd.ValueOf(sc, d) {
      Jg.TokensExactlyText(ls, d);
    }
    if d :| Jg.TextOf(Jg.Compact(ls), d) && Rd.Acceptable(sc, d, 64) && v == Rd.ValueOf(sc, d) {
      Jg.TokensExactlyText(ls, d);
    }
  }
}
