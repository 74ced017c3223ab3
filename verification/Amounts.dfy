/** Amounts of money: decimal digits and integers, and a human amount turned into base units. */
module Amounts {
  import opened Outcomes
  import Sn = Snapshots
  import Tx = Texts

  predicate Digits(s: string) {
    forall i :: 0 <= i < |s| ==> '0' <= s[i] <= '9'
  }

  /** `x402AmountRe`: a positive integer of at most 39 digits, without leading zeros. */
  predicate Amount(s: string) {
    1 <= |s| <= 39 && s[0] != '0' && Digits(s)
  }

  /** `big.Int.SetString` in base 10. */
  function DecimalValue(s: string): nat
    requires Digits(s)
  {
    if s == [] then 0 else DecimalValue(s[..|s| - 1]) * 10 + (s[|s| - 1] as int - '0' as int)
  }

  lemma DecimalStep(q: nat, digit: nat)
    requires q > 0 && digit < 10
    ensures Sn.Decimal(q * 10 + digit) == Sn.Decimal(q) + ["0123456789"[digit]]
  {
    var n := q * 10 + digit;
    assert n / 10 == q && n % 10 == digit && n >= 10;
  }

  function DigitOf(c: char): (d: nat)
    requires '0' <= c <= '9'
    ensures d < 10
  {
    c as int - '0' as int
  }

  lemma DigitShown(c: char)
    requires '0' <= c <= '9'
    ensures ["0123456789"[DigitOf(c)]] == [c]
  {
  }

  lemma OneDigit(c: char)
    requires '1' <= c <= '9'
    ensures DecimalValue([c]) == DigitOf(c) > 0 && Sn.Decimal(DigitOf(c)) == [c]
  {
    DigitShown(c);
    assert [c][..0] == [];
  }

  lemma ValueStep(front: string, c: char)
    requires Digits(front) && '0' <= c <= '9'
    ensures Digits(front + [c]) && DecimalValue(front + [c]) == DecimalValue(front) * 10 + DigitOf(c)
  {
    assert (front + [c])[..|front|] == front;
  }

  /** Reading an amount and writing it out again gives the same text. */
  lemma {:induction false} DecimalOfValue(s: string)
    requires s != [] && s[0] != '0' && Digits(s)
    ensures DecimalValue(s) > 0 && Sn.Decimal(DecimalValue(s)) == s
  {
    hide DecimalValue, Sn.Decimal, DigitOf;
    var front, last := s[..|s| - 1], s[|s| - 1];
    assert s == front + [last];
    if |s| == 1 {
      OneDigit(last);
    } else {
      DecimalOfValue(front);
      ValueStep(front, last);
      DecimalStep(DecimalValue(front), DigitOf(last));
      DigitShown(last);
    }
  }

  /** `s` is `i` in decimal: a minus sign exactly for negative integers, and digits without leading zeros. */
  predicate Shows(s: string, i: int) {
    && s != "" && (i < 0 <==> s[0] == '-')
    && var digits := if i < 0 then s[1..] else s;
       && digits != "" && Digits(digits) && (digits[0] == '0' ==> digits == "0")
       && DecimalValue(digits) == if i < 0 then -i else i
  }

  lemma {:induction false} DecimalIsShown(n: nat)
    ensures Shows(Sn.Decimal(n), n) && (n > 0 ==> Sn.Decimal(n)[0] != '0')
  {
    hide DecimalValue, Sn.Decimal, DigitOf;
    if n < 10 {
      DigitIsShown(n);
    } else {
      DecimalIsShown(n / 10);
      DecimalStep(n / 10, n % 10);
      DigitIsShown(n % 10);
      ValueStep(Sn.Decimal(n / 10), "0123456789"[n % 10]);
    }
  }

  lemma DigitIsShown(n: nat)
    requires n < 10
    ensures var c := "0123456789"[n];
            && '0' <= c <= '9' && DigitOf(c) == n && (c == '0' <==> n == 0)
            && Sn.Decimal(n) == [c] && DecimalValue([c]) == n
  {
    assert ["0123456789"[n]][..0] == [];
  }

  /** Formatting writes the integer, sign and all. */
  lemma IntegerIsShown(i: int)
    ensures Shows(Sn.FormatInteger(i), i)
  {
    hide DecimalValue, Sn.Decimal;
    if i < 0 {
      DecimalIsShown(-i);
      assert Sn.FormatInteger(i)[1..] == Sn.Decimal(-i);
    } else {
      DecimalIsShown(i);
    }
  }

  // ----- From human amounts to base units -----

  function Whole(s: string): string {
    s[..Tx.IndexOf(s, '.')]
  }

  function Fraction(s: string): string {
    if Tx.IndexOf(s, '.') < |s| then s[Tx.IndexOf(s, '.') + 1..] else ""
  }

  /** `x402UsdcRe`: digits, and perhaps a point and more digits. */
  predicate HumanAmount(s: string) {
    Whole(s) != "" && Digits(Whole(s)) && Digits(Fraction(s)) && (Tx.IndexOf(s, '.') < |s| ==> Fraction(s) != "")
  }

  function Zeros(n: nat): (s: string)
    ensures |s| == n && Digits(s)
  {
    if n == 0 then "" else Zeros(n - 1) + "0"
  }

  datatype AmountError = NotAnAmount | TooPrecise | NotPositive

  /** `usdcToBaseUnits`. */
  function BaseUnits(human: string): Result<string, AmountError> {
    var s := Tx.TrimSpace(human);
    if !HumanAmount(s) then Failure(NotAnAmount)
    else if |Fraction(s)| > 6 then Failure(TooPrecise)
    else
      var base := DecimalValue(Whole(s)) * 1000000 + DecimalValue(Fraction(s) + Zeros(6 - |Fraction(s)|));
      if base <= 0 then Failure(NotPositive) else Success(Sn.FormatInteger(base))
  }

  function Power(n: nat): (p: nat)
    ensures p > 0
  {
    if n == 0 then 1 else 10 * Power(n - 1)
  }

  /** What the digits after a point are worth in units of the last of `places` decimal places. */
  function FractionWorth(s: string, places: nat): nat
    requires Digits(s) && |s| <= places
  {
    if s == [] then 0 else DigitOf(s[0]) * Power(places - 1) + FractionWorth(s[1..], places - 1)
  }

  /** What a human amount is worth in millionths. */
  function Worth(s: string): nat
    requires HumanAmount(s) && |Fraction(s)| <= 6
  {
    DecimalValue(Whole(s)) * 1000000 + FractionWorth(Fraction(s), 6)
  }

  lemma Shift(d: nat, p: nat, v: nat, e: nat)
    ensures (d * p + v) * 10 + e == d * (10 * p) + (v * 10 + e)
  {
  }

  lemma {:induction false} ValuePrepend(c: char, s: string)
    requires '0' <= c <= '9' && Digits(s)
    ensures Digits([c] + s) && DecimalValue([c] + s) == DigitOf(c) * Power(|s|) + DecimalValue(s)
  {
    hide DecimalValue, DigitOf;
    if s == [] {
      ValueStep([], c);
      EmptyValue();
      assert [c] + s == [] + [c];
    } else {
      var front, last := s[..|s| - 1], s[|s| - 1];
      ValuePrepend(c, front);
      assert [c] + s == [c] + front + [last] && s == front + [last];
      ValueStep([c] + front, last);
      ValueStep(front, last);
      Shift(DigitOf(c), Power(|front|), DecimalValue(front), DigitOf(last));
    }
  }

  lemma EmptyValue()
    ensures DecimalValue([]) == 0
  {
  }

  /** Digits padded with zeros to `places` places are worth what they are worth there. */
  lemma {:induction false} PaddedWorth(s: string, places: nat)
    requires Digits(s) && |s| <= places
    ensures Digits(s + Zeros(places - |s|)) && DecimalValue(s + Zeros(places - |s|)) == FractionWorth(s, places)
  {
    hide DecimalValue, DigitOf, Power;
    if s == [] {
      assert s + Zeros(places) == Zeros(places);
      ZerosAreWorthless(places);
    } else {
      var rest := s[1..] + Zeros(places - |s|);
      PaddedWorth(s[1..], places - 1);
      assert s + Zeros(places - |s|) == [s[0]] + rest;
      ValuePrepend(s[0], rest);
    }
  }

  lemma {:induction false} ZerosAreWorthless(n: nat)
    ensures DecimalValue(Zeros(n)) == 0
  {
    if n > 0 {
      ZerosAreWorthless(n - 1);
      ValueStep(Zeros(n - 1), '0');
    }
  }

  /** No rounding: an amount is converted exactly when it has the syntax, at most six decimals and a positive worth,
      and the base units are then its worth in millionths, written without leading zeros. */
  lemma BaseUnitsAreExact(human: string)
    ensures var s := Tx.TrimSpace(human);
            && (BaseUnits(human).Success? <==> HumanAmount(s) && |Fraction(s)| <= 6 && Worth(s) > 0)
            && (BaseUnits(human).Success? ==> BaseUnits(human).value == Sn.Decimal(Worth(s)))
  {
    hide DecimalValue, FractionWorth, Tx.TrimSpace;
    var s := Tx.TrimSpace(human);
    if HumanAmount(s) && |Fraction(s)| <= 6 {
      PaddedWorth(Fraction(s), 6);
    }
  }

  // ----- Amounts as fractions -----

  lemma {:induction false} ValueAppend(a: string, b: string)
    requires Digits(a) && Digits(b)
    ensures Digits(a + b) && DecimalValue(a + b) == DecimalValue(a) * Power(|b|) + DecimalValue(b)
  {
    hide DecimalValue, DigitOf;
    if b == [] {
      assert a + b == a;
      EmptyValue();
    } else {
      var front, last := b[..|b| - 1], b[|b| - 1];
      ValueAppend(a, front);
      assert a + b == (a + front) + [last] && b == front + [last];
      ValueStep(a + front, last);
      ValueStep(front, last);
      Shift(DecimalValue(a), Power(|front|), DecimalValue(front), DigitOf(last));
    }
  }

  /** The whole part, and the digits after the point if there is one. */
  predicate Parts(s: string, whole: string, fraction: string) {
    && whole != "" && Digits(whole) && Digits(fraction)
    && s == if fraction == "" then whole else whole + "." + fraction
  }

  ghost predicate HasParts(s: string) {
    exists whole, fraction :: Parts(s, whole, fraction)
  }

  lemma PartsExactly(s: string)
    ensures HumanAmount(s) <==> HasParts(s)
    ensures forall whole, fraction :: Parts(s, whole, fraction) ==> whole == Whole(s) && fraction == Fraction(s)
  {
    if HumanAmount(s) {
      assert s == if Fraction(s) == "" then Whole(s) else Whole(s) + "." + Fraction(s);
      assert Parts(s, Whole(s), Fraction(s));
    }
    forall whole, fraction | Parts(s, whole, fraction) ensures whole == Whole(s) && fraction == Fraction(s) {
      PointAt(s, whole, fraction);
    }
  }

  lemma PointAt(s: string, whole: string, fraction: string)
    requires Parts(s, whole, fraction)
    ensures Tx.IndexOf(s, '.') == |whole| && whole == Whole(s) && fraction == Fraction(s)
  {
    var at := Tx.IndexOf(s, '.');
    assert forall i :: 0 <= i < |whole| ==> s[i] == whole[i];
    assert fraction != "" ==> s[|whole|] == '.';
    assert at == |whole|;
  }

  lemma Scaled(w: nat, f: nat, n: nat)
    requires n <= 6
    ensures (w * 1000000 + f * Power(6 - n)) * Power(n) == (w * Power(n) + f) * 1000000
  {
    PowersOfTen(n);
    assert f * Power(6 - n) * Power(n) == f * (Power(6 - n) * Power(n));
  }

  lemma PowersOfTen(n: nat)
    requires n <= 6
    ensures Power(6 - n) * Power(n) == 1000000
  {
    assert Power(0) == 1 && Power(1) == 10 && Power(2) == 100 && Power(3) == 1000;
    assert Power(4) == 10000 && Power(5) == 100000 && Power(6) == 1000000;
  }

  /** What is converted, as a fraction: digits and perhaps a point with at most six digits after it, worth something;
      the base units over a million are then the digits over the power of ten that the point stands for. */
  lemma ConvertedExactly(human: string, whole: string, fraction: string)
    requires Parts(Tx.TrimSpace(human), whole, fraction)
    ensures BaseUnits(human) == Failure(TooPrecise) <==> |fraction| > 6
    ensures BaseUnits(human) == Failure(NotPositive) <==> |fraction| <= 6 && DecimalValue(whole + fraction) == 0
    ensures BaseUnits(human).Success? ==>
              exists units: nat ::
                && units > 0 && Shows(BaseUnits(human).value, units)
                && units * Power(|fraction|) == DecimalValue(whole + fraction) * 1000000
    ensures BaseUnits(human).Failure? ==> BaseUnits(human).error in {TooPrecise, NotPositive}
  {
    hide DecimalValue, Tx.TrimSpace, Shows, Power, Zeros;
    PartsExactly(Tx.TrimSpace(human));
    if |fraction| <= 6 {
      var units := UnitsOf(whole, fraction);
      IntegerIsShown(units);
    } else {
      BothDigits(whole, fraction);
    }
  }

  lemma BothDigits(a: string, b: string)
    requires Digits(a) && Digits(b)
    ensures Digits(a + b)
  {
  }

  lemma UnitsOf(whole: string, fraction: string) returns (units: nat)
    requires Digits(whole) && Digits(fraction) && |fraction| <= 6
    ensures Digits(whole + fraction) && Digits(fraction + Zeros(6 - |fraction|))
    ensures units == DecimalValue(whole) * 1000000 + DecimalValue(fraction + Zeros(6 - |fraction|))
    ensures units * Power(|fraction|) == DecimalValue(whole + fraction) * 1000000
    ensures units == 0 <==> DecimalValue(whole + fraction) == 0
  {
    hide DecimalValue, Power;
    var n := |fraction|;
    ValueAppend(whole, fraction);
    ValueAppend(fraction, Zeros(6 - n));
    ZerosAreWorthless(6 - n);
    units := DecimalValue(whole) * 1000000 + DecimalValue(fraction + Zeros(6 - n));
    Scaled(DecimalValue(whole), DecimalValue(fraction), n);
    SameSign(units, Power(n), DecimalValue(whole + fraction));
  }

  lemma SameSign(units: nat, p: nat, v: nat)
    requires p > 0 && units * p == v * 1000000
    ensures units == 0 <==> v == 0
  {
  }

  /** And nothing else is an amount. */
  lemma NotAnAmountExactly(human: string)
    ensures BaseUnits(human) == Failure(NotAnAmount) <==> !HasParts(Tx.TrimSpace(human))
  {
    PartsExactly(Tx.TrimSpace(human));
    hide Tx.TrimSpace, HasParts, DecimalValue;
  }
}
