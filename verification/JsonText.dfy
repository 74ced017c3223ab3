/**
 JSON text at the level of its lexemes (RFC 8259): what a string literal is made of, what the
 decoder makes of it, and the byte scanner that rejects lone surrogate escapes beforehand.
 */
module JsonText {
  import opened Outcomes
  import opened Sequences
  import opened Utf8

  /** One element of a string literal: a plain character, a two-character escape, or `\uXXXX`. */
  datatype Item = Plain(c: char) | Short(letter: char) | Hex(digits: string)

  datatype Lexeme =
    | Space(ws: string)
    | Comma
    | Colon
    | OpenObject
    | CloseObject
    | OpenArray
    | CloseArray
    | Literal(items: seq<Item>)
    | Number(text: string)
    | Word(text: string)

  const REPLACEMENT: char := '\U{FFFD}'

  function HexDigit(c: char): Option<nat> {
    if '0' <= c <= '9' then Some(c as int - '0' as int)
    else if 'a' <= c <= 'f' then Some(c as int - 'a' as int + 10)
    else if 'A' <= c <= 'F' then Some(c as int - 'A' as int + 10)
    else None
  }

  predicate FourHex(s: string) {
    |s| == 4 && forall i :: 0 <= i < 4 ==> HexDigit(s[i]).Some?
  }

  function Code(s: string): (code: nat)
    requires FourHex(s)
    ensures code < 0x1_0000
  {
    HexDigit(s[0]).value * 4096 + HexDigit(s[1]).value * 256 + HexDigit(s[2]).value * 16 + HexDigit(s[3]).value
  }

  predicate High(code: nat) { 0xD800 <= code <= 0xDBFF }

  predicate Low(code: nat) { 0xDC00 <= code <= 0xDFFF }

  predicate GoodItem(item: Item) {
    match item
    case Plain(c) => c >= ' ' && c != '"' && c != '\\'
    case Short(letter) => letter in "\"\\/bfnrt"
    case Hex(digits) => FourHex(digits)
  }

  predicate GoodItems(items: seq<Item>) {
    forall i :: 0 <= i < |items| ==> GoodItem(items[i])
  }

  /** Outside literals a JSON text has no quotation mark. */
  predicate GoodLexeme(l: Lexeme) {
    match l
    case Literal(items) => GoodItems(items)
    case Space(ws) => forall i :: 0 <= i < |ws| ==> ws[i] in " \t\n\r"
    case Number(text) => Ascii(text) && '"' !in text
    case Word(text) => text in {"true", "false", "null"}
    case _ => true
  }

  predicate GoodText(ls: seq<Lexeme>) {
    forall i :: 0 <= i < |ls| ==> GoodLexeme(ls[i])
  }

  const QUOTE: byte := 34
  const BACKSLASH: byte := 92
  const LETTER_U: byte := 117

  function ItemBytes(item: Item): seq<byte> {
    match item
    case Plain(c) => EncodeChar(c)
    case Short(letter) => [BACKSLASH] + EncodeChar(letter)
    case Hex(digits) => [BACKSLASH, LETTER_U] + Encode(digits)
  }

  function ItemsBytes(items: seq<Item>): seq<byte> {
    if items == [] then [] else ItemBytes(items[0]) + ItemsBytes(items[1..])
  }

  /** The text of a lexeme other than a literal. */
  function PlainText(l: Lexeme): string
    requires !l.Literal?
  {
    match l
    case Space(ws) => ws
    case Comma => ","
    case Colon => ":"
    case OpenObject => "{"
    case CloseObject => "}"
    case OpenArray => "["
    case CloseArray => "]"
    case Number(text) => text
    case Word(text) => text
  }

  function LexemeBytes(l: Lexeme): seq<byte> {
    if l.Literal? then [QUOTE] + ItemsBytes(l.items) + [QUOTE] else Encode(PlainText(l))
  }

  /** The bytes of a text. */
  function Source(ls: seq<Lexeme>): seq<byte> {
    if ls == [] then [] else LexemeBytes(ls[0]) + Source(ls[1..])
  }

  // ----- What the decoder makes of a literal -----

  function Unescape(letter: char): char {
    match letter
    case 'b' => '\U{8}'
    case 'f' => '\U{C}'
    case 'n' => '\n'
    case 'r' => '\r'
    case 't' => '\t'
    case c => c
  }

  function Combine(high: nat, low: nat): char
    requires High(high) && Low(low)
  {
    (0x1_0000 + (high - 0xD800) * 0x400 + (low - 0xDC00)) as char
  }

  predicate PairAt(items: seq<Item>) {
    && |items| >= 2 && items[0].Hex? && FourHex(items[0].digits) && High(Code(items[0].digits))
    && items[1].Hex? && FourHex(items[1].digits) && Low(Code(items[1].digits))
  }

  /** The decoded string, and whether a lone surrogate was replaced on the way. */
  function Decode(items: seq<Item>): (string, bool) {
    if items == [] then ("", false)
    else if PairAt(items) then
      var (rest, replaced) := Decode(items[2..]);
      ([Combine(Code(items[0].digits), Code(items[1].digits))] + rest, replaced)
    else
      var (rest, replaced) := Decode(items[1..]);
      match items[0]
      case Plain(c) => ([c] + rest, replaced)
      case Short(letter) => ([Unescape(letter)] + rest, replaced)
      case Hex(digits) =>
        if FourHex(digits) && !High(Code(digits)) && !Low(Code(digits)) then ([Code(digits) as char] + rest, replaced)
        else ([REPLACEMENT] + rest, true)
  }

  /** RFC 8259 section 7: every high-surrogate escape is directly followed by a low one, and no low one stands alone. */
  predicate Paired(items: seq<Item>) {
    if items == [] then true
    else if PairAt(items) then Paired(items[2..])
    else
      && (items[0].Hex? ==>
            FourHex(items[0].digits) && !High(Code(items[0].digits)) && !Low(Code(items[0].digits)))
      && Paired(items[1..])
  }

  predicate AllPaired(ls: seq<Lexeme>) {
    forall i :: 0 <= i < |ls| && ls[i].Literal? ==> Paired(ls[i].items)
  }

  /** A literal is decoded without a replacement exactly when its surrogates are paired. */
  lemma {:induction false} PairedDecodesExactly(items: seq<Item>)
    ensures Paired(items) <==> !Decode(items).1
  {
    if items != [] {
      PairedDecodesExactly(if PairAt(items) then items[2..] else items[1..]);
    }
  }

  // ----- The scanner -----

  function HexByte(b: byte): Option<nat> {
    HexDigit(b as char)
  }

  /** `ParseUint` of four bytes in base 16. */
  function ParseHex(b: seq<byte>): (code: Option<nat>)
    requires |b| == 4
    ensures code.Some? ==> code.value < 0x1_0000
  {
    if HexByte(b[0]).None? || HexByte(b[1]).None? || HexByte(b[2]).None? || HexByte(b[3]).None? then None
    else Some(HexByte(b[0]).value * 4096 + HexByte(b[1]).value * 256 + HexByte(b[2]).value * 16 + HexByte(b[3]).value)
  }

  /** Where the scanner goes on after the escape that starts at `i`, or nothing when it rejects it. */
  function EscapeEnd(b: seq<byte>, i: nat): (end: Option<nat>)
    requires i < |b| && b[i] == BACKSLASH
    ensures end.Some? ==> i < end.value <= |b|
  {
    if i + 1 >= |b| then None
    else if b[i + 1] != LETTER_U then Some(i + 2)
    else if i + 5 >= |b| then None
    else match ParseHex(b[i + 2..i + 6])
      case None => None
      case Some(code) =>
        if High(code) then
          if i + 11 >= |b| || b[i + 6] != BACKSLASH || b[i + 7] != LETTER_U then None
          else match ParseHex(b[i + 8..i + 12])
            case None => None
            case Some(low) => if Low(low) then Some(i + 12) else None
        else if Low(code) then None
        else Some(i + 6)
  }

  /** The scanner inside a literal, and outside one. */
  predicate Inside(b: seq<byte>)
    decreases |b|
  {
    if b == [] then true
    else if b[0] == QUOTE then Outside(b[1..])
    else if b[0] == BACKSLASH then EscapeEnd(b, 0).Some? && Inside(b[EscapeEnd(b, 0).value..])
    else Inside(b[1..])
  }

  predicate Outside(b: seq<byte>)
    decreases |b|
  {
    if b == [] then true
    else if b[0] == QUOTE then Inside(b[1..])
    else Outside(b[1..])
  }

  lemma EscapeEndShifts(b: seq<byte>, i: nat)
    requires i < |b| && b[i] == BACKSLASH
    ensures EscapeEnd(b, i) == match EscapeEnd(b[i..], 0) case None => None case Some(n) => Some(i + n)
  {
    var s := b[i..];
    if |s| > 5 {
      assert s[2..6] == b[i + 2..i + 6];
    }
    if |s| > 11 {
      assert s[8..12] == b[i + 8..i + 12];
    }
  }

  /** Where the scanner goes on inside a literal, or nothing when it rejects the escape at `i`. */
  function Next(b: seq<byte>, i: nat): (end: Option<nat>)
    requires i < |b|
    ensures end.Some? ==> i < end.value <= |b|
  {
    if b[i] == BACKSLASH then EscapeEnd(b, i) else Some(i + 1)
  }

  lemma InsideStep(b: seq<byte>, i: nat)
    requires i < |b| && b[i] != QUOTE
    ensures Inside(b[i..]) <==> Next(b, i).Some? && Inside(b[Next(b, i).value..])
  {
    assert b[i..][1..] == b[i + 1..];
    if b[i] == BACKSLASH {
      EscapeEndShifts(b, i);
      var end := EscapeEnd(b[i..], 0);
      if end.Some? {
        assert b[i..][end.value..] == b[i + end.value..];
      }
    }
  }

  lemma OutsideStep(b: seq<byte>, i: nat)
    requires i < |b|
    ensures Outside(b[i..]) <==> if b[i] == QUOTE then Inside(b[i + 1..]) else Outside(b[i + 1..])
    ensures b[i] == QUOTE ==> (Inside(b[i..]) <==> Outside(b[i + 1..]))
  {
    assert b[i..][1..] == b[i + 1..];
  }

  /** The body of the inner loop of `interactionUnicode` on a backslash at index `start`. */
  method ScanEscape(source: seq<byte>, start: nat) returns (ok: bool, end: nat)
    requires start < |source| && source[start] == BACKSLASH
    ensures EscapeEnd(source, start) == if ok then Some(end) else None
  {
    var i := start + 1;
    if i >= |source| {
      return false, i;
    }
    if source[i] == LETTER_U {
      if i + 4 >= |source| {
        return false, i;
      }
      var code := ParseHex(source[i + 1..i + 5]);
      if code.None? {
        return false, i;
      }
      i := i + 4;
      if High(code.value) {
        if i + 6 >= |source| || source[i + 1] != BACKSLASH || source[i + 2] != LETTER_U {
          return false, i;
        }
        var low := ParseHex(source[i + 3..i + 7]);
        if low.None? || !Low(low.value) {
          return false, i;
        }
        i := i + 6;
      } else if Low(code.value) {
        return false, i;
      }
    }
    return true, i + 1;
  }

  /** The inner loop, from index `start` just after a quotation mark; `end` is the index of the
      closing one, or the end of the source. */
  method ScanLiteral(source: seq<byte>, start: nat) returns (ok: bool, end: nat)
    requires start <= |source|
    ensures ok ==> start <= end <= |source| && (end < |source| ==> source[end] == QUOTE)
    ensures ok ==> (Inside(source[start..]) <==> Inside(source[end..]))
    ensures !ok ==> !Inside(source[start..])
  {
    var i := start;
    while i < |source| && source[i] != QUOTE
      invariant start <= i <= |source|
      invariant Inside(source[start..]) <==> Inside(source[i..])
      decreases |source| - i
    {
      InsideStep(source, i);
      if source[i] == BACKSLASH {
        var escaped;
        escaped, i := ScanEscape(source, i);
        if !escaped {
          return false, i;
        }
      } else {
        i := i + 1;
      }
    }
    return true, i;
  }

  /** `interactionUnicode`: the index only grows and every read is in range. */
  method InteractionUnicode(source: seq<byte>) returns (ok: bool)
    ensures ok <==> Valid(source) && Outside(source)
  {
    if !Valid(source) {
      return false;
    }
    var i := 0;
    assert source[0..] == source;
    while i < |source|
      invariant 0 <= i <= |source| + 1
      invariant Outside(source) <==> i > |source| || Outside(source[i..])
    {
      OutsideStep(source, i);
      if source[i] == QUOTE {
        var closed;
        closed, i := ScanLiteral(source, i + 1);
        if !closed {
          return false;
        }
        if i < |source| {
          OutsideStep(source, i);
        }
      }
      i := i + 1;
    }
    ok := true;
  }

  // ----- The scanner against the grammar -----

  lemma {:induction false} OutsideSkips(plain: seq<byte>, rest: seq<byte>)
    requires forall i :: 0 <= i < |plain| ==> plain[i] != QUOTE
    ensures Outside(plain + rest) <==> Outside(rest)
  {
    if plain == [] {
      assert plain + rest == rest;
    } else {
      assert (plain + rest)[1..] == plain[1..] + rest;
      OutsideSkips(plain[1..], rest);
    }
  }

  lemma {:induction false} InsideSkips(plain: seq<byte>, rest: seq<byte>)
    requires forall i :: 0 <= i < |plain| ==> plain[i] != QUOTE && plain[i] != BACKSLASH
    ensures Inside(plain + rest) <==> Inside(rest)
  {
    if plain == [] {
      assert plain + rest == rest;
    } else {
      assert (plain + rest)[1..] == plain[1..] + rest;
      InsideSkips(plain[1..], rest);
    }
  }

  lemma HexBytes(digits: string)
    requires FourHex(digits)
    ensures |ItemBytes(Hex(digits))| == 6
    ensures ItemBytes(Hex(digits))[0] == BACKSLASH && ItemBytes(Hex(digits))[1] == LETTER_U
    ensures ParseHex(ItemBytes(Hex(digits))[2..6]) == Some(Code(digits))
  {
    AsciiEncoding(digits);
    assert ItemBytes(Hex(digits))[2..6] == Encode(digits);
  }

  /** `rest` holds a complete `\u` escape of a low surrogate at its start. */
  predicate LowAhead(rest: seq<byte>) {
    && |rest| >= 6 && rest[0] == BACKSLASH && rest[1] == LETTER_U && ParseHex(rest[2..6]).Some?
    && Low(ParseHex(rest[2..6]).value)
  }

  /** A `\u` escape that opens no pair: the scanner goes on after it exactly when it is no surrogate at all. */
  lemma LoneHexScanned(digits: string, rest: seq<byte>)
    requires FourHex(digits) && (High(Code(digits)) ==> !LowAhead(rest))
    ensures Inside(ItemBytes(Hex(digits)) + rest) <==> !High(Code(digits)) && !Low(Code(digits)) && Inside(rest)
  {
    HexBytes(digits);
    var b := ItemBytes(Hex(digits)) + rest;
    assert b[2..6] == ItemBytes(Hex(digits))[2..6];
    assert b[6..] == rest;
    if |rest| >= 6 {
      assert b[8..12] == rest[2..6];
    }
  }

  /** A `\u` escape at the start of a text, seen byte by byte. */
  lemma HexThen(digits: string, rest: seq<byte>)
    requires FourHex(digits)
    ensures var b := ItemBytes(Hex(digits)) + rest;
            && |b| == |rest| + 6 && b[0] == BACKSLASH && b[1] == LETTER_U
            && ParseHex(b[2..6]) == Some(Code(digits)) && b[6..] == rest
  {
    HexBytes(digits);
    hide ItemBytes, Code, ParseHex, FourHex;
    var item := ItemBytes(Hex(digits));
    assert (item + rest)[2..6] == item[2..6];
  }

  lemma PairScanned(high: string, low: string, rest: seq<byte>)
    requires FourHex(high) && FourHex(low) && High(Code(high)) && Low(Code(low))
    ensures Inside(ItemBytes(Hex(high)) + (ItemBytes(Hex(low)) + rest)) <==> Inside(rest)
  {
    hide ItemBytes, Inside, ParseHex, FourHex, EscapeEnd;
    var second := ItemBytes(Hex(low)) + rest;
    var b := ItemBytes(Hex(high)) + second;
    HexThen(low, rest);
    HexThen(high, second);
    assert b[8..12] == second[2..6] && b[12..] == second[6..] && b[6] == second[0] && b[7] == second[1];
    PairEnds(b, Code(high), Code(low));
    TwelveSkipped(b);
  }

  lemma PairEnds(b: seq<byte>, high: nat, low: nat)
    requires |b| >= 12 && b[0] == b[6] == BACKSLASH && b[1] == b[7] == LETTER_U
    requires ParseHex(b[2..6]) == Some(high) && ParseHex(b[8..12]) == Some(low) && High(high) && Low(low)
    ensures EscapeEnd(b, 0) == Some(12)
  {
    hide ParseHex;
  }

  lemma TwelveSkipped(b: seq<byte>)
    requires |b| >= 12 && b[0] == BACKSLASH && EscapeEnd(b, 0) == Some(12)
    ensures Inside(b) <==> Inside(b[12..])
  {
    hide EscapeEnd;
  }

  lemma ItemsSplit(items: seq<Item>, after: seq<byte>)
    requires items != []
    ensures ItemsBytes(items) + after == ItemBytes(items[0]) + (ItemsBytes(items[1..]) + after)
  {
    Regrouped(ItemBytes(items[0]), ItemsBytes(items[1..]), after);
  }

  /** Only the escape of a low surrogate looks like one. */
  lemma ItemLooksLow(item: Item, rest: seq<byte>)
    requires GoodItem(item)
    ensures LowAhead(ItemBytes(item) + rest) ==> item.Hex? && Low(Code(item.digits))
  {
    var b := ItemBytes(item) + rest;
    match item
    case Plain(c) => assert b[0] == EncodeChar(c)[0];
    case Short(letter) => assert b[1] == EncodeChar(letter)[0];
    case Hex(digits) =>
      HexBytes(digits);
      assert b[2..6] == ItemBytes(item)[2..6];
  }

  lemma LowAheadMeansLow(items: seq<Item>, after: seq<byte>)
    requires GoodItems(items) && after != [] && after[0] == QUOTE
    ensures LowAhead(ItemsBytes(items) + after) ==> items != [] && items[0].Hex? && Low(Code(items[0].digits))
  {
    if items == [] {
      assert ItemsBytes(items) + after == after;
    } else {
      ItemsSplit(items, after);
      ItemLooksLow(items[0], ItemsBytes(items[1..]) + after);
    }
  }

  lemma FirstItemScanned(items: seq<Item>, after: seq<byte>)
    requires GoodItems(items) && items != [] && !PairAt(items)
    requires after != [] && after[0] == QUOTE
    ensures var tail := ItemsBytes(items[1..]) + after;
            Inside(ItemBytes(items[0]) + tail) <==>
            Inside(tail) && (items[0].Hex? ==> !High(Code(items[0].digits)) && !Low(Code(items[0].digits)))
  {
    var tail := ItemsBytes(items[1..]) + after;
    match items[0]
    case Plain(c) =>
      assert c as int >= 0x80 || EncodeChar(c)[0] == c as int;
      InsideSkips(EncodeChar(c), tail);
    case Short(letter) =>
      var b := ItemBytes(items[0]) + tail;
      assert b[0] == BACKSLASH && b[1] == letter as int && b[2..] == tail;
    case Hex(digits) =>
      LowAheadMeansLow(items[1..], after);
      LoneHexScanned(digits, tail);
  }

  /** Inside a literal of the grammar, followed by its closing quotation mark, the scanner
      checks exactly that the surrogates are paired. */
  lemma {:induction false} LiteralScanned(items: seq<Item>, rest: seq<byte>)
    requires GoodItems(items)
    ensures Inside(ItemsBytes(items) + ([QUOTE] + rest)) <==> Paired(items) && Outside(rest)
    decreases |items|
  {
    var after := [QUOTE] + rest;
    if items == [] {
      assert ItemsBytes(items) + after == after && after[1..] == rest;
    } else if PairAt(items) {
      LiteralScanned(items[2..], rest);
      assert items[1..][1..] == items[2..];
      ItemsSplit(items, after);
      ItemsSplit(items[1..], after);
      PairScanned(items[0].digits, items[1].digits, ItemsBytes(items[2..]) + after);
    } else {
      LiteralScanned(items[1..], rest);
      ItemsSplit(items, after);
      FirstItemScanned(items, after);
    }
  }

  lemma PlainTextHasNoQuote(l: Lexeme)
    requires GoodLexeme(l) && !l.Literal?
    ensures Ascii(PlainText(l)) && forall i :: 0 <= i < |PlainText(l)| ==> PlainText(l)[i] != '"'
  {
  }

  lemma LexemeOutsideLiterals(l: Lexeme)
    requires GoodLexeme(l) && !l.Literal?
    ensures forall i :: 0 <= i < |LexemeBytes(l)| ==> LexemeBytes(l)[i] != QUOTE
  {
    PlainTextHasNoQuote(l);
    AsciiEncoding(PlainText(l));
  }

  lemma QuoteOpens(rest: seq<byte>)
    ensures Outside([QUOTE] + rest) <==> Inside(rest)
  {
    assert ([QUOTE] + rest)[1..] == rest;
  }

  lemma LexemeScanned(l: Lexeme, rest: seq<byte>)
    requires GoodLexeme(l)
    ensures Outside(LexemeBytes(l) + rest) <==> (l.Literal? ==> Paired(l.items)) && Outside(rest)
  {
    if l.Literal? {
      var body := ItemsBytes(l.items);
      Regrouped([QUOTE], body, [QUOTE]);
      Regrouped([QUOTE], body + [QUOTE], rest);
      Regrouped(body, [QUOTE], rest);
      QuoteOpens(body + ([QUOTE] + rest));
      LiteralScanned(l.items, rest);
    } else {
      LexemeOutsideLiterals(l);
      OutsideSkips(LexemeBytes(l), rest);
    }
  }

  /** On the text of any lexemes whatever, the scanner accepts exactly when every literal has its
      surrogates paired. */
  lemma {:induction false} ScannerIsExact(ls: seq<Lexeme>)
    requires GoodText(ls)
    ensures Outside(Source(ls)) <==> AllPaired(ls)
  {
    if ls != [] {
      ScannerIsExact(ls[1..]);
      LexemeScanned(ls[0], Source(ls[1..]));
      assert AllPaired(ls) <==> (ls[0].Literal? ==> Paired(ls[0].items)) && AllPaired(ls[1..]);
    }
  }

  lemma EncodedIsValid(s: string)
    ensures Valid(Encode(s))
  {
    ValidEncoding(s, []);
    assert Encode(s) + [] == Encode(s);
  }

  lemma ItemValid(item: Item)
    ensures Valid(ItemBytes(item))
  {
    match item
    case Plain(c) =>
      ValidCons(c, []);
      assert EncodeChar(c) + [] == EncodeChar(c);
    case Short(letter) =>
      ValidCons(letter, []);
      assert EncodeChar(letter) + [] == EncodeChar(letter);
      ValidAppend([BACKSLASH], EncodeChar(letter));
    case Hex(digits) =>
      EncodedIsValid(digits);
      ValidAppend([BACKSLASH], [LETTER_U]);
      assert [BACKSLASH] + [LETTER_U] == [BACKSLASH, LETTER_U];
      ValidAppend([BACKSLASH, LETTER_U], Encode(digits));
  }

  lemma {:induction false} ItemsValid(items: seq<Item>)
    ensures Valid(ItemsBytes(items))
  {
    if items != [] {
      ItemsValid(items[1..]);
      ItemValid(items[0]);
      ValidAppend(ItemBytes(items[0]), ItemsBytes(items[1..]));
    }
  }

  lemma LexemeValid(l: Lexeme)
    ensures Valid(LexemeBytes(l))
  {
    if l.Literal? {
      ItemsValid(l.items);
      ValidAppend([QUOTE], ItemsBytes(l.items));
      ValidAppend([QUOTE] + ItemsBytes(l.items), [QUOTE]);
    } else {
      EncodedIsValid(PlainText(l));
    }
  }

  lemma {:induction false} SourceValid(ls: seq<Lexeme>)
    ensures Valid(Source(ls))
  {
    if ls != [] {
      SourceValid(ls[1..]);
      LexemeValid(ls[0]);
      ValidAppend(LexemeBytes(ls[0]), Source(ls[1..]));
    }
  }

  /** What acceptance is worth: every JSON text is valid UTF-8, and the scanner accepts it exactly
      when decoding replaces no character in any of its literals. */
  lemma AcceptedMeansNothingReplaced(ls: seq<Lexeme>)
    requires GoodText(ls)
    ensures Valid(Source(ls))
    ensures Outside(Source(ls)) <==> forall i :: 0 <= i < |ls| && ls[i].Literal? ==> !Decode(ls[i].items).1
  {
    SourceValid(ls);
    ScannerIsExact(ls);
    forall i | 0 <= i < |ls| && ls[i].Literal? ensures Paired(ls[i].items) <==> !Decode(ls[i].items).1 {
      PairedDecodesExactly(ls[i].items);
    }
  }
}
