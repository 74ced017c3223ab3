/**
 The interaction envelope: the shape check shared by both entry points, parsing a source and
 validating a decoded value, and the agreement of the two.
 */
module Envelopes {
  import opened Outcomes
  import opened Utf8
  import opened Values
  import T = JsonText
  import Dc = Decoding
  import Rd = Reader
  import Sn = Snapshots
  import Tx = Texts

  datatype Reason = TooLarge | InvalidJson | InvalidEnvelope | InvalidInput

  datatype Interaction = Invalid(reason: Reason) | Unsupported(version: int) | Valid(envelope: map<string, Value>)

  // ----- The shape check -----

  predicate IsUuid(s: string) {
    && |s| == 36
    && forall i :: 0 <= i < 36 ==> if i in {8, 13, 18, 23} then s[i] == '-' else T.HexDigit(s[i]).Some?
  }

  predicate InteractionSpace(c: char) {
    || '\t' <= c <= '\r' || c == ' ' || c == '\U{A0}' || c == '\U{1680}' || '\U{2000}' <= c <= '\U{200A}'
    || c == '\U{2028}' || c == '\U{2029}' || c == '\U{202F}' || c == '\U{205F}' || c == '\U{3000}' || c == '\U{FEFF}'
  }

  /** `uuid@domain`, split at its only `@`. */
  predicate WireId(s: string) {
    var at := Tx.IndexOf(s, '@');
    && at < |s|
    && IsUuid(s[..at])
    && s[at + 1..] != []
    && forall i :: at < i < |s| ==> s[i] != '@' && !InteractionSpace(s[i])
  }

  predicate AllSpace(s: string) {
    forall i :: 0 <= i < |s| ==> InteractionSpace(s[i])
  }

  predicate PositiveInteger(v: Value) {
    v.Num? && v.n >= 1.0 && v.n.Floor as real == v.n
  }

  predicate Has(obj: map<string, Value>, key: string, good: Value -> bool) {
    key in obj && good(obj[key])
  }

  predicate IsString(v: Value) {
    v.Str?
  }

  predicate IsWireId(v: Value) {
    v.Str? && WireId(v.s)
  }

  predicate IsVisible(v: Value) {
    v.Str? && !AllSpace(v.s)
  }

  predicate IsUuidValue(v: Value) {
    v.Str? && IsUuid(v.s)
  }

  predicate NullOr(v: Value, good: Value -> bool) {
    v.Null? || good(v)
  }

  function CheckEnvelope(value: Value): Interaction {
    if !value.Obj? then Invalid(InvalidEnvelope)
    else
      var obj := value.members;
      if !Has(obj, "interaction_version", PositiveInteger) then Invalid(InvalidEnvelope)
      else if obj["interaction_version"].n != 1.0 then Unsupported(obj["interaction_version"].n.Floor)
      else if && Has(obj, "interaction_id", IsWireId)
              && Has(obj, "protocol", IsVisible)
              && Has(obj, "protocol_version", PositiveInteger)
              && Has(obj, "step", IsVisible)
              && Has(obj, "step_id", IsUuidValue)
              && "prev_step_id" in obj && NullOr(obj["prev_step_id"], IsUuidValue)
              && "expires_at" in obj && NullOr(obj["expires_at"], IsString)
              && "payload" in obj
      then Valid(obj)
      else Invalid(InvalidEnvelope)
  }

  // ----- From a source -----

  /** `ParseInteractionEnvelope` on a source whose lexemes are `ls`: the interaction and, when it
      is not invalid, the copy of the source. */
  method ParseInteractionEnvelope(sc: Strconv, ls: seq<T.Lexeme>) returns (r: Interaction, source: Option<seq<byte>>)
    ensures r == Parse(sc, ls)
    ensures source == if r.Invalid? then None else Some(T.Source(ls))
  {
    var bytes := T.Source(ls);
    if |bytes| > MAX_BYTES {
      return Invalid(TooLarge), None;
    }
    var unicode := T.InteractionUnicode(bytes);
    if !unicode {
      return Invalid(InvalidJson), None;
    }
    var dec := new Rd.Decoder(Dc.TokensOf(ls));
    var value := Rd.ReadInteractionJson(sc, dec, 0);
    if value.None? {
      return Invalid(InvalidJson), None;
    }
    if dec.pos < |dec.tokens| {
      return Invalid(InvalidJson), None;
    }
    r := CheckEnvelope(value.value);
    source := if r.Invalid? then None else Some(bytes);
  }

  /** The value of a source that is small enough, scans, and is one acceptable tree. */
  function ParsedValue(sc: Strconv, ls: seq<T.Lexeme>): Option<Value> {
    if |T.Source(ls)| <= MAX_BYTES && Utf8.Valid(T.Source(ls)) && T.Outside(T.Source(ls)) then
      Rd.ReadAll(sc, Dc.TokensOf(ls))
    else None
  }

  function Parse(sc: Strconv, ls: seq<T.Lexeme>): Interaction {
    if |T.Source(ls)| > MAX_BYTES then Invalid(TooLarge)
    else match ParsedValue(sc, ls)
      case None => Invalid(InvalidJson)
      case Some(value) => CheckEnvelope(value)
  }

  // ----- From a decoded value -----

  ghost function Validate(sc: Strconv, h: Sn.Heap, a: Sn.Any): Interaction {
    if v :| Sn.Fits(sc, h, a, MAX_DEPTH, MAX_BYTES, v) then CheckEnvelope(v) else Invalid(InvalidInput)
  }

  method ValidateInteractionEnvelope(sc: Strconv, h: Sn.Heap, a: Sn.Any) returns (r: Interaction)
    ensures r == Validate(sc, h, a)
  {
    var budget := new Sn.Budget(MAX_BYTES);
    var snapshot := Sn.Snapshot(sc, h, a, 0, budget);
    if snapshot.None? {
      r := Invalid(InvalidInput);
    } else {
      OnlySnapshot(sc, h, a, snapshot.value);
      r := CheckEnvelope(snapshot.value);
    }
  }

  lemma OnlySnapshot(sc: Strconv, h: Sn.Heap, a: Sn.Any, v: Value)
    requires Sn.Fits(sc, h, a, MAX_DEPTH, MAX_BYTES, v)
    ensures Validate(sc, h, a) == CheckEnvelope(v)
  {
    forall w | Sn.Fits(sc, h, a, MAX_DEPTH, MAX_BYTES, w) ensures w == v {
      Sn.OneCopy(sc, h, a, v, w);
    }
  }

  // ----- The weight of what was parsed -----

  /** No token takes fewer bytes of source than this. */
  function TokenBytes(t: Rd.Token): nat {
    match t
    case StringToken(s) => 2 + ByteLength(s)
    case NumberToken(text) => ByteLength(text)
    case BoolToken(_) => 4
    case NullToken => 4
    case ErrorToken => 0
    case _ => 1
  }

  function StreamBytes(tokens: seq<Rd.Token>): nat {
    if tokens == [] then 0 else TokenBytes(tokens[0]) + StreamBytes(tokens[1..])
  }

  lemma {:induction false} StreamBytesAppend(s: seq<Rd.Token>, t: seq<Rd.Token>)
    ensures StreamBytes(s + t) == StreamBytes(s) + StreamBytes(t)
  {
    if s == [] {
      assert s + t == t;
    } else {
      assert (s + t)[1..] == s[1..] + t;
      StreamBytesAppend(s[1..], t);
    }
  }

  lemma OneChar(c: char, rest: string)
    ensures ByteLength([c] + rest) == |EncodeChar(c)| + ByteLength(rest)
  {
    assert ([c] + rest)[1..] == rest;
  }

  lemma ItemAtLeast(item: T.Item)
    requires T.GoodItem(item)
    ensures item.Short? ==> |EncodeChar(T.Unescape(item.letter))| == 1
    ensures item.Hex? ==> |T.ItemBytes(item)| == 6
  {
    if item.Hex? {
      T.HexBytes(item.digits);
    }
  }

  /** Decoding never makes a literal longer. */
  lemma {:induction false} DecodeShrinks(items: seq<T.Item>)
    requires T.GoodItems(items)
    ensures ByteLength(T.Decode(items).0) <= |T.ItemsBytes(items)|
    decreases |items|
  {
    if items != [] {
      ItemAtLeast(items[0]);
      if T.PairAt(items) {
        ItemAtLeast(items[1]);
        DecodeShrinks(items[2..]);
        assert items[1..][1..] == items[2..];
        OneChar(T.Combine(T.Code(items[0].digits), T.Code(items[1].digits)), T.Decode(items[2..]).0);
      } else {
        DecodeShrinks(items[1..]);
        OneChar(T.Decode(items).0[0], T.Decode(items[1..]).0);
        assert T.Decode(items).0 == [T.Decode(items).0[0]] + T.Decode(items[1..]).0;
      }
    }
  }

  lemma LexemeAtLeast(l: T.Lexeme, e: Dc.Expecting, stack: seq<Dc.Expecting>)
    requires T.GoodLexeme(l)
    ensures Dc.Transition(l, e, stack).Move? ==> StreamBytes(Dc.Transition(l, e, stack).tokens) <= |T.LexemeBytes(l)|
  {
    if l.Literal? {
      DecodeShrinks(l.items);
    } else {
      EncodingIsLonger(T.PlainText(l));
    }
  }

  lemma {:induction false} SourceAtLeast(ls: seq<T.Lexeme>, e: Dc.Expecting, stack: seq<Dc.Expecting>)
    requires T.GoodText(ls)
    ensures StreamBytes(Dc.TokensFrom(ls, e, stack)) <= |T.Source(ls)|
    decreases |ls|
  {
    if ls != [] {
      LexemeAtLeast(ls[0], e, stack);
      hide Dc.Transition, T.LexemeBytes, T.GoodLexeme, StreamBytes;
      var move := Dc.Transition(ls[0], e, stack);
      if move.Move? {
        SourceAtLeast(ls[1..], move.e, move.stack);
        StreamBytesAppend(move.tokens, Dc.TokensFrom(ls[1..], move.e, move.stack));
      } else {
        NoBytesOfError();
      }
    } else {
      NoBytesOfError();
    }
  }

  lemma NoBytesOfError()
    ensures StreamBytes([]) == StreamBytes([Rd.ErrorToken]) == 0
  {
  }

  /** The weight of a tree is at most the bytes of its tokens. */
  lemma {:induction false} TreeWeighs(sc: Strconv, d: Rd.Doc, limit: nat)
    requires Rd.Acceptable(sc, d, limit)
    ensures Weight(Rd.ValueOf(sc, d)) <= StreamBytes(Rd.Tokens(d))
    decreases d, 1
  {
    match d
    case DArr(items) =>
      ItemsWeigh(sc, items, limit - 1);
      StreamBytesAppend([Rd.BeginArray] + Rd.ItemsTokens(items), [Rd.EndArray]);
      StreamBytesAppend([Rd.BeginArray], Rd.ItemsTokens(items));
    case DObj(members) =>
      var none: map<string, Value> := map[];
      assert none.Keys == {};
      Rd.FreshMeansDistinct({}, members);
      MembersWeigh(sc, none, members, limit - 1);
      StreamBytesAppend([Rd.BeginObject] + Rd.MembersTokens(members), [Rd.EndObject]);
      StreamBytesAppend([Rd.BeginObject], Rd.MembersTokens(members));
    case DNum(text) => NumberAtLeastOne(text);
    case _ =>
  }

  lemma NumberAtLeastOne(text: string)
    requires NumberSyntax(text)
    ensures ByteLength(text) >= 1
  {
    EncodingIsLonger(text);
  }

  lemma PrependWeight(v: Value, items: seq<Value>)
    ensures Weight(Arr([v] + items)) == Weight(v) + Weight(Arr(items))
  {
    PrependItems(v, items, |items|);
  }

  lemma {:induction false} PrependItems(v: Value, items: seq<Value>, n: nat)
    requires n <= |items|
    ensures ItemsWeight(Arr([v] + items), n + 1) == Weight(v) + ItemsWeight(Arr(items), n)
  {
    if n > 0 {
      PrependItems(v, items, n - 1);
    }
  }

  lemma {:induction false} ItemsWeigh(sc: Strconv, items: seq<Rd.Doc>, limit: nat)
    requires forall i :: 0 <= i < |items| ==> Rd.Acceptable(sc, items[i], limit)
    ensures Weight(Arr(Rd.ItemsValue(sc, items))) <= 1 + StreamBytes(Rd.ItemsTokens(items))
    decreases items, 0
  {
    if items != [] {
      TreeWeighs(sc, items[0], limit);
      ItemsWeigh(sc, items[1..], limit);
      PrependWeight(Rd.ValueOf(sc, items[0]), Rd.ItemsValue(sc, items[1..]));
      StreamBytesAppend(Rd.Tokens(items[0]), Rd.ItemsTokens(items[1..]));
    }
  }

  lemma {:induction false} MembersWeigh(sc: Strconv, obj: map<string, Value>, members: seq<Rd.Member>, limit: nat)
    requires Rd.Fresh(obj.Keys, members)
    requires forall i :: 0 <= i < |members| ==> Rd.Acceptable(sc, members[i].doc, limit)
    ensures Weight(Obj(Rd.MembersInto(sc, obj, members))) <= Weight(Obj(obj)) + StreamBytes(Rd.MembersTokens(members))
    decreases members, 0
  {
    if members != [] {
      var m := members[0];
      var v := Rd.ValueOf(sc, m.doc);
      TreeWeighs(sc, m.doc, limit);
      Sn.AddMemberWeight(obj, m.key, v);
      assert obj[m.key := v].Keys == obj.Keys + {m.key};
      MembersWeigh(sc, obj[m.key := v], members[1..], limit);
      StreamBytesAppend([Rd.StringToken(m.key)] + Rd.Tokens(m.doc), Rd.MembersTokens(members[1..]));
      StreamBytesAppend([Rd.StringToken(m.key)], Rd.Tokens(m.doc));
    }
  }

  // ----- Nesting and numbers of what was parsed -----

  /** Every number of `v` came out of `interactionNumber`. */
  ghost predicate NumbersRead(sc: Strconv, v: Value) {
    match v
    case Num(n) => exists text :: InteractionNumber(sc, text) == Some(n)
    case Arr(items) => forall i :: 0 <= i < |items| ==> NumbersRead(sc, items[i])
    case Obj(members) => forall k :: k in members ==> NumbersRead(sc, members[k])
    case _ => true
  }

  lemma {:induction false} TreeNests(sc: Strconv, d: Rd.Doc, limit: nat)
    requires Rd.Acceptable(sc, d, limit)
    ensures Nests(Rd.ValueOf(sc, d), limit) && NumbersRead(sc, Rd.ValueOf(sc, d))
    decreases d, 1
  {
    match d
    case DArr(items) => ItemsNest(sc, items, limit - 1);
    case DObj(members) => MembersNest(sc, map[], members, limit - 1);
    case _ =>
  }

  lemma {:induction false} ItemsNest(sc: Strconv, items: seq<Rd.Doc>, limit: nat)
    requires forall i :: 0 <= i < |items| ==> Rd.Acceptable(sc, items[i], limit)
    ensures forall i :: 0 <= i < |Rd.ItemsValue(sc, items)| ==>
              Nests(Rd.ItemsValue(sc, items)[i], limit) && NumbersRead(sc, Rd.ItemsValue(sc, items)[i])
    decreases items, 0
  {
    if items != [] {
      TreeNests(sc, items[0], limit);
      ItemsNest(sc, items[1..], limit);
    }
  }

  lemma {:induction false} MembersNest(sc: Strconv, obj: map<string, Value>, members: seq<Rd.Member>, limit: nat)
    requires forall i :: 0 <= i < |members| ==> Rd.Acceptable(sc, members[i].doc, limit)
    requires forall k :: k in obj ==> Nests(obj[k], limit) && NumbersRead(sc, obj[k])
    ensures forall k :: k in Rd.MembersInto(sc, obj, members) ==>
              Nests(Rd.MembersInto(sc, obj, members)[k], limit) && NumbersRead(sc, Rd.MembersInto(sc, obj, members)[k])
    decreases members, 0
  {
    if members != [] {
      TreeNests(sc, members[0].doc, limit);
      MembersNest(sc, obj[members[0].key := Rd.ValueOf(sc, members[0].doc)], members[1..], limit);
    }
  }

  // ----- Both entry points agree -----

  /** `a` is `v` as the decoder builds it: text strings, float64 numbers, fresh maps and slices. */
  ghost predicate Represents(h: Sn.Heap, a: Sn.Any, v: Value)
    decreases v
  {
    match v
    case Null => a.Nil?
    case Bool(b) => a == Sn.Boolean(b)
    case Str(s) => a == Sn.String(Sn.Text(s))
    case Num(n) => a == Sn.Float(n)
    case Arr(items) =>
      && a.SliceRef? && |items| == |Sn.SliceAt(h, a.ref)|
      && forall i :: 0 <= i < |items| ==> Represents(h, Sn.SliceAt(h, a.ref)[i], items[i])
    case Obj(members) =>
      && a.MapRef?
      && (forall g :: g in Sn.MapAt(h, a.ref) ==> g.Text? && g.s in members)
      && forall k :: k in members ==>
          Sn.Text(k) in Sn.MapAt(h, a.ref) && Represents(h, Sn.MapAt(h, a.ref)[Sn.Text(k)], members[k])
  }

  /** What the decoder built is copied unchanged: formatting and parsing its numbers gives them back. */
  lemma {:induction false} RepresentedIsCopied(sc: Strconv, h: Sn.Heap, a: Sn.Any, v: Value)
    requires Faithful(sc) && NumbersRead(sc, v) && Represents(h, a, v)
    ensures Sn.Copies(sc, h, a, v)
    decreases v
  {
    match v
    case Num(n) =>
      var text :| InteractionNumber(sc, text) == Some(n);
      NumberRoundTrip(sc, text);
    case Arr(items) =>
      forall i | 0 <= i < |items| ensures Sn.Copies(sc, h, Sn.SliceAt(h, a.ref)[i], items[i]) {
        RepresentedIsCopied(sc, h, Sn.SliceAt(h, a.ref)[i], items[i]);
      }
    case Obj(members) =>
      forall k | k in members ensures Sn.Copies(sc, h, Sn.MapAt(h, a.ref)[Sn.Text(k)], members[k]) {
        RepresentedIsCopied(sc, h, Sn.MapAt(h, a.ref)[Sn.Text(k)], members[k]);
      }
    case _ =>
  }

  /** What was parsed weighs no more than its source, and nests within the limit. */
  lemma ParsedFits(sc: Strconv, ls: seq<T.Lexeme>)
    requires T.GoodText(ls) && ParsedValue(sc, ls).Some?
    ensures Weight(ParsedValue(sc, ls).value) <= |T.Source(ls)| <= MAX_BYTES
    ensures Nests(ParsedValue(sc, ls).value, MAX_DEPTH) && NumbersRead(sc, ParsedValue(sc, ls).value)
  {
    Rd.AcceptsExactlyTrees(sc, Dc.TokensOf(ls));
    var d :| Rd.Tokens(d) == Dc.TokensOf(ls) && Rd.Acceptable(sc, d, MAX_DEPTH);
    TreeWeighs(sc, d, MAX_DEPTH);
    TreeNests(sc, d, MAX_DEPTH);
    SourceAtLeast(ls, Dc.TopValue, []);
  }

  /** Whatever the parser reads, the validator accepts or refuses alike: handed the decoded value,
      it comes to the same interaction, so every envelope parsed from a source also validates. */
  lemma EntryPointsAgree(sc: Strconv, ls: seq<T.Lexeme>, h: Sn.Heap, a: Sn.Any)
    requires Faithful(sc) && T.GoodText(ls) && ParsedValue(sc, ls).Some?
    requires Represents(h, a, ParsedValue(sc, ls).value)
    ensures Validate(sc, h, a) == Parse(sc, ls)
  {
    var v := ParsedValue(sc, ls).value;
    ParsedFits(sc, ls);
    RepresentedIsCopied(sc, h, a, v);
    OnlySnapshot(sc, h, a, v);
  }
}
