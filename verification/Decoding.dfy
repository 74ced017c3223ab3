/**
 From lexemes to tokens: the decoder's own punctuation rules, and the encoder that is its
 inverse. What breaks a rule becomes an `ErrorToken`, where the decoder would report an error.
 */
module Decoding {
  import opened Outcomes
  import opened Sequences
  import opened Utf8
  import opened JsonText
  import opened Reader

  /** What the decoder expects next; the states of the enclosing containers are on a stack. */
  datatype Expecting =
    | TopValue
    | ArrayStart
    | ArrayValue
    | ArrayComma
    | ObjectStart
    | ObjectKey
    | ObjectColon
    | ObjectValue
    | ObjectComma

  predicate ValueAllowed(e: Expecting) {
    e.TopValue? || e.ArrayStart? || e.ArrayValue? || e.ObjectValue?
  }

  function AfterValue(e: Expecting): Expecting {
    match e
    case ArrayStart => ArrayComma
    case ArrayValue => ArrayComma
    case ObjectValue => ObjectComma
    case _ => e
  }

  function ScalarToken(l: Lexeme): Token {
    match l
    case Literal(items) => StringToken(Decode(items).0)
    case Number(text) => NumberToken(text)
    case Word(text) => if text == "null" then NullToken else BoolToken(text == "true")
    case _ => ErrorToken
  }

  /** What one lexeme does: the tokens it yields and where the decoder stands afterwards. */
  datatype Move = Move(tokens: seq<Token>, e: Expecting, stack: seq<Expecting>) | Refused

  function Transition(l: Lexeme, e: Expecting, stack: seq<Expecting>): Move {
    match l
    case Space(_) => Move([], e, stack)
    case OpenArray => if ValueAllowed(e) then Move([BeginArray], ArrayStart, [e] + stack) else Refused
    case OpenObject => if ValueAllowed(e) then Move([BeginObject], ObjectStart, [e] + stack) else Refused
    case CloseArray =>
      if (e.ArrayStart? || e.ArrayComma?) && stack != [] then Move([EndArray], AfterValue(stack[0]), stack[1..])
      else Refused
    case CloseObject =>
      if (e.ObjectStart? || e.ObjectComma?) && stack != [] then Move([EndObject], AfterValue(stack[0]), stack[1..])
      else Refused
    case Colon => if e.ObjectColon? then Move([], ObjectValue, stack) else Refused
    case Comma =>
      if e.ArrayComma? then Move([], ArrayValue, stack)
      else if e.ObjectComma? then Move([], ObjectKey, stack)
      else Refused
    case _ =>
      if l.Literal? && (e.ObjectStart? || e.ObjectKey?) then Move([ScalarToken(l)], ObjectColon, stack)
      else if ValueAllowed(e) then Move([ScalarToken(l)], AfterValue(e), stack)
      else Refused
  }

  function TokensFrom(ls: seq<Lexeme>, e: Expecting, stack: seq<Expecting>): seq<Token> {
    if ls == [] then []
    else match Transition(ls[0], e, stack)
      case Refused => [ErrorToken]
      case Move(tokens, e', stack') => tokens + TokensFrom(ls[1..], e', stack')
  }

  /** The tokens of a whole source. */
  function TokensOf(ls: seq<Lexeme>): seq<Token> {
    TokensFrom(ls, TopValue, [])
  }

  // ----- The encoder -----

  function HexLetter(n: nat): (c: char)
    requires n < 16
    ensures HexDigit(c) == Some(n)
  {
    if n < 10 then '0' + n as char else 'a' + (n - 10) as char
  }

  /** How the encoder, without HTML escaping, writes one character of a string. */
  function QuoteChar(c: char): Item {
    match c
    case '"' => Short('"')
    case '\\' => Short('\\')
    case '\U{8}' => Short('b')
    case '\U{C}' => Short('f')
    case '\n' => Short('n')
    case '\r' => Short('r')
    case '\t' => Short('t')
    case _ =>
      if c < ' ' then Hex(['0', '0', HexLetter(c as int / 16), HexLetter(c as int % 16)])
      else if c == '\U{2028}' then Hex(['2', '0', '2', '8'])
      else if c == '\U{2029}' then Hex(['2', '0', '2', '9'])
      else Plain(c)
  }

  function Quote(s: string): seq<Item> {
    if s == [] then [] else [QuoteChar(s[0])] + Quote(s[1..])
  }

  lemma QuotedChar(c: char)
    ensures GoodItem(QuoteChar(c))
    ensures QuoteChar(c).Hex? ==> Code(QuoteChar(c).digits) == c as int && !High(c as int) && !Low(c as int)
    ensures QuoteChar(c).Short? ==> Unescape(QuoteChar(c).letter) == c
    ensures QuoteChar(c).Plain? ==> QuoteChar(c).c == c
  {
  }

  /** Decoding gives back what was quoted, and replaces nothing. */
  lemma {:induction false} QuoteDecodes(s: string)
    ensures GoodItems(Quote(s)) && Decode(Quote(s)) == (s, false)
  {
    if s != [] {
      QuoteDecodes(s[1..]);
      QuotedChar(s[0]);
      assert Quote(s)[1..] == Quote(s[1..]);
      assert [s[0]] + s[1..] == s;
    }
  }

  /** The lexemes the encoder writes for a tree. */
  function Lexemes(d: Doc): (ls: seq<Lexeme>)
    decreases d, 1
  {
    match d
    case DNull => [Word("null")]
    case DBool(b) => [Word(if b then "true" else "false")]
    case DNum(text) => [Number(text)]
    case DStr(s) => [Literal(Quote(s))]
    case DArr(items) => [OpenArray] + ItemsLexemes(items) + [CloseArray]
    case DObj(members) => [OpenObject] + MembersLexemes(members) + [CloseObject]
  }

  function ItemsLexemes(items: seq<Doc>): seq<Lexeme>
    decreases items, 0
  {
    if items == [] then []
    else
      var separator := if |items| > 1 then [Comma] else [];
      Lexemes(items[0]) + (separator + ItemsLexemes(items[1..]))
  }

  function MembersLexemes(members: seq<Member>): seq<Lexeme>
    decreases members, 0
  {
    if members == [] then []
    else
      var separator := if |members| > 1 then [Comma] else [];
      [Literal(Quote(members[0].key)), Colon] + (Lexemes(members[0].doc) + (separator + MembersLexemes(members[1..])))
  }

  /** Every number of the tree is plain ASCII text without a quotation mark. */
  ghost predicate PlainNumbers(d: Doc) {
    match d
    case DNum(text) => GoodLexeme(Number(text))
    case DArr(items) => forall i :: 0 <= i < |items| ==> PlainNumbers(items[i])
    case DObj(members) => forall i :: 0 <= i < |members| ==> PlainNumbers(members[i].doc)
    case _ => true
  }

  lemma {:induction false} EncodedIsGood(d: Doc)
    requires PlainNumbers(d)
    ensures GoodText(Lexemes(d))
    decreases d, 1
  {
    match d
    case DStr(s) => QuoteDecodes(s);
    case DArr(items) => ItemsGood(items);
    case DObj(members) => MembersGood(members);
    case _ =>
  }

  lemma {:induction false} ItemsGood(items: seq<Doc>)
    requires forall i :: 0 <= i < |items| ==> PlainNumbers(items[i])
    ensures GoodText(ItemsLexemes(items))
    decreases items, 0
  {
    if items != [] {
      EncodedIsGood(items[0]);
      ItemsGood(items[1..]);
    }
  }

  lemma {:induction false} MembersGood(members: seq<Member>)
    requires forall i :: 0 <= i < |members| ==> PlainNumbers(members[i].doc)
    ensures GoodText(MembersLexemes(members))
    decreases members, 0
  {
    if members != [] {
      QuoteDecodes(members[0].key);
      EncodedIsGood(members[0].doc);
      MembersGood(members[1..]);
    }
  }

  lemma OneLexeme(l: Lexeme, rest: seq<Lexeme>, e: Expecting, stack: seq<Expecting>)
    requires Transition(l, e, stack).Move?
    ensures var move := Transition(l, e, stack);
            TokensFrom([l] + rest, e, stack) == move.tokens + TokensFrom(rest, move.e, move.stack)
  {
    assert ([l] + rest)[1..] == rest;
  }

  /** Where a value is allowed, the decoder reads an encoded tree back as its tokens and goes on. */
  lemma {:induction false} EncodedIsRead(d: Doc, rest: seq<Lexeme>, e: Expecting, stack: seq<Expecting>)
    requires ValueAllowed(e)
    ensures TokensFrom(Lexemes(d) + rest, e, stack) == Tokens(d) + TokensFrom(rest, AfterValue(e), stack)
    decreases d, 1
  {
    hide TokensFrom, Transition, ItemsLexemes, MembersLexemes;
    if d.DArr? {
      ArrayIsRead(d.items, rest, e, stack);
    } else if d.DObj? {
      ObjectIsRead(d.members, rest, e, stack);
    } else {
      ScalarIsRead(d, rest, e, stack);
    }
  }

  lemma OneScalar(l: Lexeme, rest: seq<Lexeme>, e: Expecting, stack: seq<Expecting>)
    requires ValueAllowed(e) && (l.Literal? || l.Number? || l.Word?)
    requires l.Literal? ==> !e.ObjectStart? && !e.ObjectKey?
    ensures TokensFrom([l] + rest, e, stack) == [ScalarToken(l)] + TokensFrom(rest, AfterValue(e), stack)
  {
    hide TokensFrom, ScalarToken, AfterValue;
    OneLexeme(l, rest, e, stack);
  }

  lemma ScalarIsRead(d: Doc, rest: seq<Lexeme>, e: Expecting, stack: seq<Expecting>)
    requires ValueAllowed(e) && !d.DArr? && !d.DObj?
    ensures TokensFrom(Lexemes(d) + rest, e, stack) == Tokens(d) + TokensFrom(rest, AfterValue(e), stack)
  {
    hide TokensFrom, Transition, AfterValue, Quote, Decode;
    if d.DStr? {
      QuoteDecodes(d.s);
    }
    OneScalar(Lexemes(d)[0], rest, e, stack);
  }

  lemma {:induction false} ArrayIsRead(items: seq<Doc>, rest: seq<Lexeme>, e: Expecting, stack: seq<Expecting>)
    requires ValueAllowed(e)
    ensures TokensFrom([OpenArray] + ItemsLexemes(items) + [CloseArray] + rest, e, stack)
         == [BeginArray] + ItemsTokens(items) + [EndArray] + TokensFrom(rest, AfterValue(e), stack)
    decreases items, 1
  {
    hide TokensFrom, ItemsLexemes, ItemsTokens;
    var after := TokensFrom(rest, AfterValue(e), stack);
    Regrouped([OpenArray] + ItemsLexemes(items), [CloseArray], rest);
    Regrouped([OpenArray], ItemsLexemes(items), [CloseArray] + rest);
    Regrouped([BeginArray] + ItemsTokens(items), [EndArray], after);
    Regrouped([BeginArray], ItemsTokens(items), [EndArray] + after);
    OneLexeme(OpenArray, ItemsLexemes(items) + ([CloseArray] + rest), e, stack);
    ItemsAreRead(items, rest, ArrayStart, e, stack);
  }

  lemma {:induction false} ObjectIsRead(members: seq<Member>, rest: seq<Lexeme>, e: Expecting, stack: seq<Expecting>)
    requires ValueAllowed(e)
    ensures TokensFrom([OpenObject] + MembersLexemes(members) + [CloseObject] + rest, e, stack)
         == [BeginObject] + MembersTokens(members) + [EndObject] + TokensFrom(rest, AfterValue(e), stack)
    decreases members, 1
  {
    hide TokensFrom, MembersLexemes, MembersTokens;
    var after := TokensFrom(rest, AfterValue(e), stack);
    Regrouped([OpenObject] + MembersLexemes(members), [CloseObject], rest);
    Regrouped([OpenObject], MembersLexemes(members), [CloseObject] + rest);
    Regrouped([BeginObject] + MembersTokens(members), [EndObject], after);
    Regrouped([BeginObject], MembersTokens(members), [EndObject] + after);
    OneLexeme(OpenObject, MembersLexemes(members) + ([CloseObject] + rest), e, stack);
    MembersAreRead(members, rest, ObjectStart, e, stack);
  }

  lemma ArrayCloses(rest: seq<Lexeme>, e: Expecting, outer: Expecting, stack: seq<Expecting>)
    requires e.ArrayStart? || e.ArrayComma?
    ensures TokensFrom([CloseArray] + rest, e, [outer] + stack)
            == [EndArray] + TokensFrom(rest, AfterValue(outer), stack)
  {
    hide TokensFrom;
    OneLexeme(CloseArray, rest, e, [outer] + stack);
    assert ([outer] + stack)[1..] == stack;
  }

  lemma ObjectCloses(rest: seq<Lexeme>, e: Expecting, outer: Expecting, stack: seq<Expecting>)
    requires e.ObjectStart? || e.ObjectComma?
    ensures TokensFrom([CloseObject] + rest, e, [outer] + stack)
            == [EndObject] + TokensFrom(rest, AfterValue(outer), stack)
  {
    hide TokensFrom;
    OneLexeme(CloseObject, rest, e, [outer] + stack);
    assert ([outer] + stack)[1..] == stack;
  }

  lemma CommaRead(rest: seq<Lexeme>, e: Expecting, stack: seq<Expecting>)
    requires e.ArrayComma? || e.ObjectComma?
    ensures TokensFrom([Comma] + rest, e, stack)
            == TokensFrom(rest, if e.ArrayComma? then ArrayValue else ObjectKey, stack)
  {
    hide TokensFrom;
    OneLexeme(Comma, rest, e, stack);
  }

  lemma KeyRead(key: string, rest: seq<Lexeme>, e: Expecting, stack: seq<Expecting>)
    requires e.ObjectStart? || e.ObjectKey?
    ensures TokensFrom([Literal(Quote(key)), Colon] + rest, e, stack)
            == [StringToken(key)] + TokensFrom(rest, ObjectValue, stack)
  {
    hide TokensFrom;
    QuoteDecodes(key);
    assert [Literal(Quote(key)), Colon] + rest == [Literal(Quote(key))] + ([Colon] + rest);
    OneLexeme(Literal(Quote(key)), [Colon] + rest, e, stack);
    OneLexeme(Colon, rest, ObjectColon, stack);
  }

  lemma ItemsLexemesCons(items: seq<Doc>, separator: seq<Lexeme>, tail: seq<Lexeme>)
    requires items != [] && separator == if |items| > 1 then [Comma] else []
    ensures ItemsLexemes(items) + tail == Lexemes(items[0]) + (separator + (ItemsLexemes(items[1..]) + tail))
  {
    Regrouped(Lexemes(items[0]), separator + ItemsLexemes(items[1..]), tail);
    Regrouped(separator, ItemsLexemes(items[1..]), tail);
  }

  lemma {:induction false} ItemsAreRead(items: seq<Doc>, rest: seq<Lexeme>, e: Expecting, outer: Expecting,
                                        stack: seq<Expecting>)
    requires e.ArrayStart? || (e.ArrayValue? && items != [])
    ensures TokensFrom(ItemsLexemes(items) + ([CloseArray] + rest), e, [outer] + stack)
         == ItemsTokens(items) + ([EndArray] + TokensFrom(rest, AfterValue(outer), stack))
    decreases items, 0
  {
    hide TokensFrom;
    var tail := [CloseArray] + rest;
    var after := [EndArray] + TokensFrom(rest, AfterValue(outer), stack);
    if items == [] {
      assert ItemsLexemes(items) + tail == tail && ItemsTokens(items) + after == after;
      ArrayCloses(rest, e, outer, stack);
    } else {
      var more := ItemsLexemes(items[1..]) + tail;
      var separator := if |items| > 1 then [Comma] else [];
      ItemsLexemesCons(items, separator, tail);
      EncodedIsRead(items[0], separator + more, e, [outer] + stack);
      ItemsTokensCons(items, after);
      if |items| > 1 {
        CommaRead(more, ArrayComma, [outer] + stack);
        ItemsAreRead(items[1..], rest, ArrayValue, outer, stack);
      } else {
        assert separator + more == tail && ItemsTokens(items[1..]) + after == after;
        ArrayCloses(rest, ArrayComma, outer, stack);
      }
    }
  }

  lemma MembersLexemesCons(members: seq<Member>, separator: seq<Lexeme>, tail: seq<Lexeme>)
    requires members != [] && separator == if |members| > 1 then [Comma] else []
    ensures MembersLexemes(members) + tail
         == [Literal(Quote(members[0].key)), Colon]
            + (Lexemes(members[0].doc) + (separator + (MembersLexemes(members[1..]) + tail)))
  {
    var value := Lexemes(members[0].doc);
    Regrouped([Literal(Quote(members[0].key)), Colon], value + (separator + MembersLexemes(members[1..])), tail);
    Regrouped(value, separator + MembersLexemes(members[1..]), tail);
    Regrouped(separator, MembersLexemes(members[1..]), tail);
  }

  lemma {:induction false} MembersAreRead(members: seq<Member>, rest: seq<Lexeme>, e: Expecting, outer: Expecting,
                                          stack: seq<Expecting>)
    requires e.ObjectStart? || (e.ObjectKey? && members != [])
    ensures TokensFrom(MembersLexemes(members) + ([CloseObject] + rest), e, [outer] + stack)
         == MembersTokens(members) + ([EndObject] + TokensFrom(rest, AfterValue(outer), stack))
    decreases members, 0
  {
    hide TokensFrom;
    var tail := [CloseObject] + rest;
    var after := [EndObject] + TokensFrom(rest, AfterValue(outer), stack);
    if members == [] {
      assert MembersLexemes(members) + tail == tail;
      ObjectCloses(rest, e, outer, stack);
      assert MembersTokens(members) + after == after;
    } else {
      var m := members[0];
      var more := MembersLexemes(members[1..]) + tail;
      var separator := if |members| > 1 then [Comma] else [];
      MembersLexemesCons(members, separator, tail);
      KeyRead(m.key, Lexemes(m.doc) + (separator + more), e, [outer] + stack);
      EncodedIsRead(m.doc, separator + more, ObjectValue, [outer] + stack);
      MembersTokensCons(members, after);
      if |members| > 1 {
        CommaRead(more, ObjectComma, [outer] + stack);
        MembersAreRead(members[1..], rest, ObjectKey, outer, stack);
      } else {
        assert separator + more == tail && MembersTokens(members[1..]) + after == after;
        ObjectCloses(rest, ObjectComma, outer, stack);
      }
    }
  }

  /** Encoding a tree and decoding the text gives back its tokens; nothing in it is replaced. */
  lemma EncodeThenDecode(d: Doc)
    requires PlainNumbers(d)
    ensures GoodText(Lexemes(d)) && TokensOf(Lexemes(d)) == Tokens(d)
    ensures AllPaired(Lexemes(d))
  {
    EncodedIsGood(d);
    EncodedIsRead(d, [], TopValue, []);
    assert Lexemes(d) + [] == Lexemes(d);
    EncodedIsPaired(d);
  }

  lemma QuotePaired(s: string)
    ensures Paired(Quote(s))
  {
    QuoteDecodes(s);
    PairedDecodesExactly(Quote(s));
  }

  lemma {:induction false} EncodedIsPaired(d: Doc)
    ensures AllPaired(Lexemes(d))
    decreases d, 1
  {
    match d
    case DStr(s) => QuotePaired(s);
    case DArr(items) => ItemsPaired(items);
    case DObj(members) => MembersPaired(members);
    case _ =>
  }

  lemma {:induction false} ItemsPaired(items: seq<Doc>)
    ensures AllPaired(ItemsLexemes(items))
    decreases items, 0
  {
    if items != [] {
      EncodedIsPaired(items[0]);
      ItemsPaired(items[1..]);
    }
  }

  lemma {:induction false} MembersPaired(members: seq<Member>)
    ensures AllPaired(MembersLexemes(members))
    decreases members, 0
  {
    if members != [] {
      QuotePaired(members[0].key);
      EncodedIsPaired(members[0].doc);
      MembersPaired(members[1..]);
    }
  }
}
