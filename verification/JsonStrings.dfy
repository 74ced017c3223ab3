/** What a string literal spells (RFC 8259 section 7), and that the decoder reads just that. */
module JsonStrings {
  import opened Outcomes
  import opened JsonText
  import Tx = Texts

  const LETTERS := "\"\\/bfnrt"
  const MEANINGS := "\"\\/\U{8}\U{C}\n\r\t"
  const DIGITS := "0123456789abcdef"

  /** Four hexadecimal digits of either case. */
  predicate Unit(digits: string, unit: int) {
    && |digits| == 4 && 0 <= unit < 0x1_0000
    && Tx.LowerChar(digits[0]) == DIGITS[unit / 4096] && Tx.LowerChar(digits[1]) == DIGITS[unit / 256 % 16]
    && Tx.LowerChar(digits[2]) == DIGITS[unit / 16 % 16] && Tx.LowerChar(digits[3]) == DIGITS[unit % 16]
  }

  /** One element spells one character: itself, a letter after a backslash, or the code point in hexadecimal. */
  ghost predicate One(item: Item, c: char) {
    match item
    case Plain(p) => p == c
    case Short(letter) => exists k :: 0 <= k < 8 && LETTERS[k] == letter && MEANINGS[k] == c
    case Hex(digits) => Unit(digits, c as int)
  }

  /** Two elements spell a character beyond the basic plane: its surrogates, high and low. */
  predicate Two(high: Item, low: Item, c: char) {
    && high.Hex? && low.Hex? && c as int >= 0x1_0000
    && Unit(high.digits, 0xD800 + (c as int - 0x1_0000) / 0x400)
    && Unit(low.digits, 0xDC00 + (c as int - 0x1_0000) % 0x400)
  }

  ghost predicate Spelled(items: seq<Item>, s: string)
    decreases |s|
  {
    if s == "" then items == []
    else
      || (items != [] && One(items[0], s[0]) && Spelled(items[1..], s[1..]))
      || (|items| >= 2 && Two(items[0], items[1], s[0]) && Spelled(items[2..], s[1..]))
  }

  // ----- Units -----

  lemma DigitIs(c: char, n: nat)
    requires n < 16
    ensures HexDigit(c) == Some(n) <==> Tx.LowerChar(c) == DIGITS[n]
  {
    if n < 10 {
      assert DIGITS[n] == '0' + n as char;
    } else {
      assert DIGITS[n] == 'a' + (n - 10) as char;
    }
  }

  lemma UnitHasDigits(digits: string, unit: int)
    requires Unit(digits, unit)
    ensures FourHex(digits) && Code(digits) == unit
  {
    DigitIs(digits[0], unit / 4096);
    DigitIs(digits[1], unit / 256 % 16);
    DigitIs(digits[2], unit / 16 % 16);
    DigitIs(digits[3], unit % 16);
    hide HexDigit, DIGITS, Tx.LowerChar;
    InBaseSixteen(unit);
  }

  lemma InBaseSixteen(n: int)
    requires 0 <= n < 0x1_0000
    ensures n == n / 4096 * 4096 + n / 256 % 16 * 256 + n / 16 % 16 * 16 + n % 16
  {
    var q, d := n / 16, n % 16;
    var r, c := q / 16, q % 16;
    var a, b := r / 16, r % 16;
    HighDigits(a, b, c * 16 + d);
    LowDigits(a * 16 + b, c, d);
  }

  lemma DigitShown(c: char) returns (n: nat)
    requires HexDigit(c).Some?
    ensures n < 16 && HexDigit(c) == Some(n) && Tx.LowerChar(c) == DIGITS[n]
  {
    n := HexDigit(c).value;
    DigitIs(c, n);
  }

  lemma CodeIsUnit(digits: string)
    requires FourHex(digits)
    ensures Unit(digits, Code(digits))
  {
    hide HexDigit, DIGITS, Tx.LowerChar, Unit;
    var a := DigitShown(digits[0]);
    var b := DigitShown(digits[1]);
    var c := DigitShown(digits[2]);
    var d := DigitShown(digits[3]);
    FromDigits(digits, a, b, c, d);
  }

  lemma FromDigits(digits: string, a: nat, b: nat, c: nat, d: nat)
    requires |digits| == 4 && a < 16 && b < 16 && c < 16 && d < 16
    requires Tx.LowerChar(digits[0]) == DIGITS[a] && Tx.LowerChar(digits[1]) == DIGITS[b]
    requires Tx.LowerChar(digits[2]) == DIGITS[c] && Tx.LowerChar(digits[3]) == DIGITS[d]
    ensures Unit(digits, a * 4096 + b * 256 + c * 16 + d)
  {
    hide DIGITS, Tx.LowerChar;
    HighDigits(a, b, c * 16 + d);
    LowDigits(a * 16 + b, c, d);
    assert a * 4096 + b * 256 + c * 16 + d == (a * 16 + b) * 256 + c * 16 + d;
  }

  lemma HighDigits(a: nat, b: nat, rest: nat)
    requires a < 16 && b < 16 && rest < 256
    ensures var n := a * 4096 + b * 256 + rest; n / 4096 == a && n / 256 % 16 == b
  {
    var n := a * 4096 + b * 256 + rest;
    assert n / 256 == a * 16 + b;
  }

  lemma LowDigits(q: nat, c: nat, d: nat)
    requires c < 16 && d < 16
    ensures var n := q * 256 + c * 16 + d; n / 16 % 16 == c && n % 16 == d
  {
    var n := q * 256 + c * 16 + d;
    assert n / 16 == q * 16 + c;
  }

  lemma LetterIs(letter: char)
    requires letter in LETTERS
    ensures exists k :: 0 <= k < 8 && LETTERS[k] == letter && MEANINGS[k] == Unescape(letter)
    ensures forall k :: 0 <= k < 8 && LETTERS[k] == letter ==> MEANINGS[k] == Unescape(letter)
  {
    var k :| 0 <= k < 8 && LETTERS[k] == letter;
  }

  // ----- Characters -----

  /** The unit of a character is no surrogate. */
  lemma NoSurrogate(c: char)
    ensures !High(c as int) && !Low(c as int)
  {
  }

  lemma OneIsDecoded(items: seq<Item>, c: char)
    requires items != [] && GoodItems(items) && One(items[0], c)
    ensures !PairAt(items) && Decode(items) == ([c] + Decode(items[1..]).0, Decode(items[1..]).1)
  {
    NoSurrogate(c);
    match items[0]
    case Plain(_) =>
    case Short(letter) =>
      assert GoodItem(items[0]);
      LetterIs(letter);
    case Hex(digits) => UnitHasDigits(digits, c as int);
  }

  lemma SurrogatesOf(c: char)
    requires c as int >= 0x1_0000
    ensures var high, low := 0xD800 + (c as int - 0x1_0000) / 0x400, 0xDC00 + (c as int - 0x1_0000) % 0x400;
            High(high) && Low(low) && Combine(high, low) == c
  {
  }

  lemma TwoAreDecoded(items: seq<Item>, c: char)
    requires |items| >= 2 && Two(items[0], items[1], c)
    ensures Decode(items) == ([c] + Decode(items[2..]).0, Decode(items[2..]).1)
  {
    SurrogatesOf(c);
    UnitHasDigits(items[0].digits, 0xD800 + (c as int - 0x1_0000) / 0x400);
    UnitHasDigits(items[1].digits, 0xDC00 + (c as int - 0x1_0000) % 0x400);
    hide Combine, Code, FourHex, Unit;
  }

  lemma GoodTails(items: seq<Item>)
    requires GoodItems(items)
    ensures |items| >= 1 ==> GoodItems(items[1..])
    ensures |items| >= 2 ==> GoodItems(items[2..])
  {
    hide GoodItem;
  }

  /** Whatever spells a text is decoded to it, with nothing replaced. */
  lemma {:induction false} SpelledIsDecoded(items: seq<Item>, s: string)
    requires GoodItems(items) && Spelled(items, s)
    ensures Decode(items) == (s, false)
    decreases |s|
  {
    if s != "" {
      GoodTails(items);
      assert [s[0]] + s[1..] == s;
      hide One, Two, Decode, GoodItems;
      if One(items[0], s[0]) && Spelled(items[1..], s[1..]) {
        OneIsDecoded(items, s[0]);
        SpelledIsDecoded(items[1..], s[1..]);
      } else {
        TwoAreDecoded(items, s[0]);
        SpelledIsDecoded(items[2..], s[1..]);
      }
    } else {
      assert Decode([]) == ("", false);
    }
  }

  /** Whatever is decoded with nothing replaced is spelled by the literal. */
  lemma {:induction false} DecodedIsSpelled(items: seq<Item>)
    requires GoodItems(items) && !Decode(items).1
    ensures Spelled(items, Decode(items).0)
  {
    if items != [] {
      var s := Decode(items).0;
      if PairAt(items) {
        PairIsTwo(items[0], items[1]);
        DecodedIsSpelled(items[2..]);
        assert s[1..] == Decode(items[2..]).0;
      } else {
        ItemIsOne(items);
        DecodedIsSpelled(items[1..]);
        assert s[1..] == Decode(items[1..]).0;
      }
      hide One, Two, Decode;
    }
  }

  lemma PairIsTwo(high: Item, low: Item)
    requires PairAt([high, low])
    ensures Two(high, low, Combine(Code(high.digits), Code(low.digits)))
  {
    hide Code, Unit, FourHex, Combine;
    CodeIsUnit(high.digits);
    CodeIsUnit(low.digits);
    var h, l := Code(high.digits), Code(low.digits);
    CombinedParts(h, l);
    assert Unit(high.digits, h) && Unit(low.digits, l);
  }

  lemma CombinedParts(high: nat, low: nat)
    requires High(high) && Low(low)
    ensures var c := Combine(high, low) as int;
            && c >= 0x1_0000 && 0xD800 + (c - 0x1_0000) / 0x400 == high && 0xDC00 + (c - 0x1_0000) % 0x400 == low
  {
  }

  lemma ItemIsOne(items: seq<Item>)
    requires items != [] && GoodItems(items) && !PairAt(items) && !Decode(items).1
    ensures Decode(items).0 != "" && One(items[0], Decode(items).0[0]) && !Decode(items[1..]).1
  {
    match items[0]
    case Plain(_) =>
    case Short(letter) =>
      assert GoodItem(items[0]);
      LetterIs(letter);
    case Hex(digits) => CodeIsUnit(digits);
  }

  /** A literal is decoded to a text, with nothing replaced, exactly when it spells that text. */
  lemma DecodesExactly(items: seq<Item>, s: string)
    requires GoodItems(items)
    ensures Decode(items) == (s, false) <==> Spelled(items, s)
  {
    hide Decode, Spelled;
    if Spelled(items, s) {
      SpelledIsDecoded(items, s);
    }
    if !Decode(items).1 {
      DecodedIsSpelled(items);
    }
  }
}
