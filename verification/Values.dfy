/** Decoded JSON values, their cost and nesting, and the numbers the parser lets through. */
module Values {
  import opened Outcomes
  import opened Utf8

  const MAX_BYTES := 65536
  const MAX_DEPTH := 64

  datatype Value =
    | Null
    | Bool(b: bool)
    | Num(n: real)
    | Str(s: string)
    | Arr(items: seq<Value>)
    | Obj(members: map<string, Value>)

  /** What a snapshot of `v` takes from the budget: one per value and per key, and the bytes of every string. */
  ghost function Weight(v: Value): nat
    decreases v, 2
  {
    match v
    case Str(s) => 1 + ByteLength(s)
    case Arr(items) => 1 + ItemsWeight(v, |items|)
    case Obj(members) => 1 + KeysWeight(v, members.Keys)
    case _ => 1
  }

  ghost function ItemsWeight(v: Value, n: nat): nat
    requires v.Arr? && n <= |v.items|
    decreases v, 1, n
  {
    if n == 0 then 0 else ItemsWeight(v, n - 1) + Weight(v.items[n - 1])
  }

  /** The weight of the members whose keys are in `keys`, in some order. */
  ghost function KeysWeight(v: Value, keys: set<string>): nat
    requires v.Obj? && keys <= v.members.Keys
    decreases v, 1, |keys|
  {
    if keys == {} then 0
    else
      var k :| k in keys;
      MemberWeight(v, k) + KeysWeight(v, keys - {k})
  }

  ghost function MemberWeight(v: Value, k: string): nat
    requires v.Obj? && k in v.members
    decreases v, 0
  {
    1 + ByteLength(k) + Weight(v.members[k])
  }

  /** The order does not matter: any member can be taken out first. */
  lemma {:induction false} KeysWeightSplit(v: Value, keys: set<string>, k: string)
    requires v.Obj? && keys <= v.members.Keys && k in keys
    ensures KeysWeight(v, keys) == MemberWeight(v, k) + KeysWeight(v, keys - {k})
    decreases |keys|
  {
    var first :| first in keys && KeysWeight(v, keys) == MemberWeight(v, first) + KeysWeight(v, keys - {first});
    if first != k {
      KeysWeightSplit(v, keys - {first}, k);
      KeysWeightSplit(v, keys - {k}, first);
      assert keys - {first} - {k} == keys - {k} - {first};
    }
  }

  lemma {:induction false} KeysWeightSame(v: Value, w: Value, keys: set<string>)
    requires v.Obj? && w.Obj? && keys <= v.members.Keys && keys <= w.members.Keys
    requires forall k :: k in keys ==> v.members[k] == w.members[k]
    ensures KeysWeight(v, keys) == KeysWeight(w, keys)
    decreases |keys|
  {
    if keys != {} {
      var k :| k in keys;
      KeysWeightSplit(v, keys, k);
      KeysWeightSplit(w, keys, k);
      KeysWeightSame(v, w, keys - {k});
    }
  }

  lemma {:induction false} ItemsWeightSame(v: Value, w: Value, n: nat)
    requires v.Arr? && w.Arr? && n <= |v.items| && n <= |w.items|
    requires forall i :: 0 <= i < n ==> v.items[i] == w.items[i]
    ensures ItemsWeight(v, n) == ItemsWeight(w, n)
  {
    if n > 0 {
      ItemsWeightSame(v, w, n - 1);
    }
  }

  lemma WeightPositive(v: Value)
    ensures Weight(v) >= 1
  {
  }

  /** Every container of `v` sits under fewer than `limit` others. */
  ghost predicate Nests(v: Value, limit: nat) {
    match v
    case Arr(items) => limit > 0 && forall i :: 0 <= i < |items| ==> Nests(items[i], limit - 1)
    case Obj(members) => limit > 0 && forall k :: k in members ==> Nests(members[k], limit - 1)
    case _ => true
  }

  // ----- Numbers -----

  /** The float conversions of the runtime: `parse` is nothing when the text overflows. */
  datatype Strconv = Strconv(parse: string -> Option<real>, format: real -> string)

  function Digits(s: string, i: nat): (end: nat)
    requires i <= |s|
    ensures i <= end <= |s|
    decreases |s| - i
  {
    if i < |s| && '0' <= s[i] <= '9' then Digits(s, i + 1) else i
  }

  function Fraction(s: string, i: nat): (end: Option<nat>)
    requires i <= |s|
    ensures end.Some? ==> i <= end.value <= |s|
  {
    if i < |s| && s[i] == '.' then
      (if Digits(s, i + 1) > i + 1 then Some(Digits(s, i + 1)) else None)
    else Some(i)
  }

  function Exponent(s: string, i: nat): (end: Option<nat>)
    requires i <= |s|
    ensures end.Some? ==> i <= end.value <= |s|
  {
    if i < |s| && (s[i] == 'e' || s[i] == 'E') then
      var j := if i + 1 < |s| && (s[i + 1] == '+' || s[i + 1] == '-') then i + 2 else i + 1;
      (if Digits(s, j) > j then Some(Digits(s, j)) else None)
    else Some(i)
  }

  /** The number grammar of RFC 8259 section 6. */
  predicate NumberSyntax(s: string) {
    var start := if |s| > 0 && s[0] == '-' then 1 else 0;
    var whole := Digits(s, start);
    && whole > start
    && (s[start] == '0' ==> whole == start + 1)
    && Fraction(s, whole).Some?
    && Exponent(s, Fraction(s, whole).value) == Some(|s|)
  }

  predicate AllDigits(s: string) {
    forall i :: 0 <= i < |s| ==> '0' <= s[i] <= '9'
  }

  /** A sign or none, digits without a leading zero, perhaps a fraction, perhaps an exponent. */
  ghost predicate NumberSpelled(sign: string, whole: string, fraction: string, exponent: string) {
    && (sign == "" || sign == "-")
    && whole != "" && AllDigits(whole) && (whole[0] == '0' ==> whole == "0")
    && (fraction == "" || (|fraction| > 1 && fraction[0] == '.' && AllDigits(fraction[1..])))
    && (exponent == "" || exists digits ::
          && digits != "" && AllDigits(digits)
          && (exists lead :: lead in {"e", "E", "e+", "E+", "e-", "E-"} && exponent == lead + digits))
  }

  lemma {:induction false} DigitsSpan(s: string, i: nat)
    requires i <= |s|
    ensures AllDigits(s[i..Digits(s, i)])
    ensures Digits(s, i) < |s| ==> !('0' <= s[Digits(s, i)] <= '9')
    decreases |s| - i
  {
    if i < |s| && '0' <= s[i] <= '9' {
      DigitsSpan(s, i + 1);
      assert s[i..Digits(s, i)] == [s[i]] + s[i + 1..Digits(s, i + 1)];
    }
  }

  lemma {:induction false} DigitsStop(s: string, i: nat, end: nat)
    requires i <= end <= |s| && AllDigits(s[i..end]) && (end < |s| ==> !('0' <= s[end] <= '9'))
    ensures Digits(s, i) == end
    decreases end - i
  {
    if i < end {
      assert s[i..end][0] == s[i] && s[i..end][1..] == s[i + 1..end];
      DigitsStop(s, i + 1, end);
    }
  }

  /** The grammar by its pieces. */
  lemma NumberIsSpelled(s: string)
    requires NumberSyntax(s)
    ensures exists sign, whole, fraction, exponent ::
              s == sign + whole + fraction + exponent && NumberSpelled(sign, whole, fraction, exponent)
  {
    var start := if |s| > 0 && s[0] == '-' then 1 else 0;
    var w := Digits(s, start);
    var f := Fraction(s, w).value;
    DigitsSpan(s, start);
    FractionIsSpelled(s, w);
    ExponentIsSpelled(s, f);
    assert s[start..w][0] == s[start];
    assert NumberSpelled(s[..start], s[start..w], s[w..f], s[f..]);
    hide NumberSpelled, Digits, Fraction, Exponent;
    FourPieces(s, start, w, f);
  }

  lemma FourPieces(s: string, i: nat, j: nat, k: nat)
    requires i <= j <= k <= |s|
    ensures s == s[..i] + s[i..j] + s[j..k] + s[k..]
  {
  }

  lemma FractionIsSpelled(s: string, i: nat)
    requires i <= |s| && Fraction(s, i).Some?
    ensures var fraction := s[i..Fraction(s, i).value];
            fraction == "" || (|fraction| > 1 && fraction[0] == '.' && AllDigits(fraction[1..]))
  {
    if i < |s| && s[i] == '.' {
      DigitsSpan(s, i + 1);
      assert s[i..Digits(s, i + 1)][1..] == s[i + 1..Digits(s, i + 1)];
    }
  }

  lemma ExponentIsSpelled(s: string, i: nat)
    requires i <= |s| && Exponent(s, i) == Some(|s|)
    ensures s[i..] == "" || exists digits ::
              && digits != "" && AllDigits(digits)
              && (exists lead :: lead in {"e", "E", "e+", "E+", "e-", "E-"} && s[i..] == lead + digits)
  {
    if i < |s| && (s[i] == 'e' || s[i] == 'E') {
      var j := if i + 1 < |s| && (s[i + 1] == '+' || s[i + 1] == '-') then i + 2 else i + 1;
      DigitsSpan(s, j);
      assert s[j..] == s[j..|s|] && s[i..] == s[i..j] + s[j..];
      assert s[i..j] == if j == i + 1 then [s[i]] else [s[i], s[i + 1]];
      assert s[i..j] in {"e", "E", "e+", "E+", "e-", "E-"};
    }
  }

  lemma SpelledIsNumber(s: string, sign: string, whole: string, fraction: string, exponent: string)
    requires s == sign + whole + fraction + exponent && NumberSpelled(sign, whole, fraction, exponent)
    ensures NumberSyntax(s)
  {
    var start, w, f := |sign|, |sign| + |whole|, |sign| + |whole| + |fraction|;
    assert s[start..w] == whole && s[w..f] == fraction && s[f..] == exponent;
    assert whole[0] == s[start];
    assert start == if |s| > 0 && s[0] == '-' then 1 else 0;
    ExponentReads(s, f);
    FractionReads(s, w, f);
    DigitsStop(s, start, w);
  }

  lemma ExponentReads(s: string, f: nat)
    requires f <= |s|
    requires s[f..] == "" || exists digits ::
               && digits != "" && AllDigits(digits)
               && (exists lead :: lead in {"e", "E", "e+", "E+", "e-", "E-"} && s[f..] == lead + digits)
    ensures Exponent(s, f) == Some(|s|) && (f < |s| ==> s[f] == 'e' || s[f] == 'E')
  {
    if f < |s| {
      var digits, lead :| digits != "" && AllDigits(digits)
                          && lead in {"e", "E", "e+", "E+", "e-", "E-"} && s[f..] == lead + digits;
      LeadThenDigits(s, f, lead, digits);
    }
  }

  lemma LeadThenDigits(s: string, f: nat, lead: string, digits: string)
    requires f < |s| && s[f..] == lead + digits && digits != "" && AllDigits(digits)
    requires 1 <= |lead| <= 2 && (lead[0] == 'e' || lead[0] == 'E')
    requires |lead| == 2 ==> lead[1] == '+' || lead[1] == '-'
    ensures Exponent(s, f) == Some(|s|) && s[f] == lead[0]
  {
    var j := f + |lead|;
    assert forall i :: f <= i < |s| ==> s[i] == (lead + digits)[i - f];
    assert s[j..] == s[j..|s|] == digits && s[j] == digits[0];
    DigitsStop(s, j, |s|);
  }

  lemma FractionReads(s: string, w: nat, f: nat)
    requires w <= f <= |s| && (f < |s| ==> s[f] == 'e' || s[f] == 'E')
    requires s[w..f] == "" || (f - w > 1 && s[w] == '.' && AllDigits(s[w..f][1..]))
    ensures Fraction(s, w) == Some(f) && (w < |s| ==> !('0' <= s[w] <= '9'))
  {
    if w < f {
      assert s[w..f][1..] == s[w + 1..f];
      DigitsStop(s, w + 1, f);
    }
  }

  predicate Unsafe(n: real) {
    n.Floor as real == n && (n > 9007199254740991.0 || n < -9007199254740991.0)
  }

  /** `interactionNumber`. */
  function InteractionNumber(sc: Strconv, token: string): Option<real> {
    if |token| > 128 || !NumberSyntax(token) then None
    else match sc.parse(token)
      case None => None
      case Some(n) => if Unsafe(n) then None else Some(n)
  }

  /** Which numbers are accepted: texts of at most 128 characters in the grammar, whose value is not an integer beyond
      2^53 - 1 in either direction. */
  lemma NumberExactly(sc: Strconv, token: string, n: real)
    ensures InteractionNumber(sc, token) == Some(n) <==>
            && |token| <= 128 && sc.parse(token) == Some(n)
            && (exists sign, whole, fraction, exponent ::
                  token == sign + whole + fraction + exponent && NumberSpelled(sign, whole, fraction, exponent))
            && (n == n.Floor as real ==> -9007199254740991 <= n.Floor <= 9007199254740991)
  {
    hide NumberSyntax, NumberSpelled;
    if NumberSyntax(token) {
      NumberIsSpelled(token);
    }
    if sign, whole, fraction, exponent :|
      token == sign + whole + fraction + exponent && NumberSpelled(sign, whole, fraction, exponent) {
      SpelledIsNumber(token, sign, whole, fraction, exponent);
    }
  }

  /** Formatting and parsing are inverse on every number that parsing produces, and small
      integers are parsed exactly. */
  ghost predicate Faithful(sc: Strconv) {
    && (forall text: string :: sc.parse(text).Some? ==>
          var canonical := sc.format(sc.parse(text).value);
          |canonical| <= 128 && NumberSyntax(canonical) && sc.parse(canonical) == sc.parse(text))
    && sc.parse("1") == Some(1.0)
  }

  /** Reading back the text of an accepted number accepts the same number. */
  lemma NumberRoundTrip(sc: Strconv, token: string)
    requires Faithful(sc) && InteractionNumber(sc, token).Some?
    ensures InteractionNumber(sc, sc.format(InteractionNumber(sc, token).value)) == InteractionNumber(sc, token)
  {
  }
}
