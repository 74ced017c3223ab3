/**
 The bytes hashed into a payment's nonce: what binds a signature to one step of one interaction,
 and exactly when two bindings are told apart.
 */
module NonceBinding {
  import opened Outcomes
  import opened Utf8
  import Tx = Texts

  datatype Binding = Binding(interactionId: string, challengeStepId: string, challengeNonce: string)

  /** `strings.ToLower`, character by character; the zero character is its own lower case and no other's. */
  ghost predicate Folding(fold: char -> char) {
    forall c :: fold(c) == '\0' <==> c == '\0'
  }

  function Lower(fold: char -> char, s: string): (r: string)
    ensures |r| == |s| && forall i :: 0 <= i < |s| ==> r[i] == fold(s[i])
  {
    if s == [] then [] else [fold(s[0])] + Lower(fold, s[1..])
  }

  /** `x402ChallengeNonceRe`. */
  predicate ChallengeNonce(s: string) {
    |s| == 64 && forall i :: 0 <= i < 64 ==> Tx.LowerHex(s[i])
  }

  const HEX_DIGITS := "0123456789abcdef"

  /** Two digits for every byte, the high half first. */
  ghost predicate Spells(s: string, b: seq<byte>) {
    && |s| == 2 * |b|
    && forall i :: 0 <= i < |b| ==> s[2 * i] == HEX_DIGITS[b[i] / 16] && s[2 * i + 1] == HEX_DIGITS[b[i] % 16]
  }

  function HexValue(c: char): (n: nat)
    requires Tx.LowerHex(c)
    ensures n < 16 && HEX_DIGITS[n] == c
  {
    if c <= '9' then c as int - '0' as int else c as int - 'a' as int + 10
  }

  function HexChar(n: nat): (c: char)
    requires n < 16
    ensures Tx.LowerHex(c) && HexValue(c) == n && HEX_DIGITS[n] == c
  {
    if n < 10 then '0' + n as char else 'a' + (n - 10) as char
  }

  /** `hex.DecodeString` on digits in pairs. */
  function HexDecode(s: string): (b: seq<byte>)
    requires |s| % 2 == 0 && forall i :: 0 <= i < |s| ==> Tx.LowerHex(s[i])
    ensures 2 * |b| == |s|
  {
    if s == [] then [] else [HexValue(s[0]) * 16 + HexValue(s[1])] + HexDecode(s[2..])
  }

  function HexEncode(b: seq<byte>): (s: string)
    ensures |s| == 2 * |b| && forall i :: 0 <= i < |s| ==> Tx.LowerHex(s[i])
  {
    if b == [] then "" else [HexChar(b[0] / 16), HexChar(b[0] % 16)] + HexEncode(b[1..])
  }

  lemma PairValue(high: char, low: char)
    requires Tx.LowerHex(high) && Tx.LowerHex(low)
    ensures var b := HexValue(high) * 16 + HexValue(low);
            b < 256 && HEX_DIGITS[b / 16] == high && HEX_DIGITS[b % 16] == low
  {
    hide HexValue, HEX_DIGITS, Tx.LowerHex;
    Halves(HexValue(high), HexValue(low));
  }

  lemma Halves(high: nat, low: nat)
    requires high < 16 && low < 16
    ensures (high * 16 + low) / 16 == high && (high * 16 + low) % 16 == low
  {
  }

  /** What is decoded is what the digits spell. */
  lemma {:induction false} DecodedIsSpelled(s: string)
    requires |s| % 2 == 0 && forall i :: 0 <= i < |s| ==> Tx.LowerHex(s[i])
    ensures Spells(s, HexDecode(s))
  {
    if s != [] {
      DecodedIsSpelled(s[2..]);
      PairValue(s[0], s[1]);
      SpelledPrepend(HexValue(s[0]) * 16 + HexValue(s[1]), HexDecode(s[2..]), s);
    }
  }

  lemma {:induction false} EncodedIsSpelled(b: seq<byte>)
    ensures Spells(HexEncode(b), b)
  {
    if b != [] {
      EncodedIsSpelled(b[1..]);
      assert b == [b[0]] + b[1..] && HexEncode(b)[2..] == HexEncode(b[1..]);
      SpelledPrepend(b[0], b[1..], HexEncode(b));
    }
  }

  lemma SpelledPrepend(first: byte, rest: seq<byte>, s: string)
    requires |s| >= 2 && Spells(s[2..], rest)
    requires s[0] == HEX_DIGITS[first / 16] && s[1] == HEX_DIGITS[first % 16]
    ensures Spells(s, [first] + rest)
  {
    forall i | 0 <= i < 1 + |rest|
      ensures var b := ([first] + rest)[i];
              s[2 * i] == HEX_DIGITS[b / 16] && s[2 * i + 1] == HEX_DIGITS[b % 16] {
      if i > 0 {
        assert ([first] + rest)[i] == rest[i - 1];
        assert s[2..][2 * (i - 1)] == s[2 * i] && s[2..][2 * (i - 1) + 1] == s[2 * i + 1];
      }
    }
  }

  /** `nonce` spells the hash of the two identifiers in lower case, a zero byte after each, and the bytes that the
      challenge nonce spells. */
  ghost predicate BoundTo(fold: char -> char, keccak: seq<byte> -> seq<byte>, b: Binding, nonce: string) {
    exists raw: seq<byte> ::
      && Spells(b.challengeNonce, raw)
      && |nonce| >= 2 && nonce[..2] == "0x"
      && Spells(nonce[2..], keccak(Encode(Lower(fold, b.interactionId)) + [0]
                                   + (Encode(Lower(fold, b.challengeStepId)) + [0] + raw)))
  }

  /** The bytes that are hashed. */
  function Preimage(fold: char -> char, b: Binding): seq<byte>
    requires ChallengeNonce(b.challengeNonce)
  {
    Encode(Lower(fold, b.interactionId)) + [0]
      + (Encode(Lower(fold, b.challengeStepId)) + [0] + HexDecode(b.challengeNonce))
  }

  datatype NonceError = BadChallengeNonce

  /** The bound nonce: the hash in hexadecimal with its prefix. */
  function BoundNonce(fold: char -> char, keccak: seq<byte> -> seq<byte>, b: Binding): Result<string, NonceError> {
    if !ChallengeNonce(b.challengeNonce) then Failure(BadChallengeNonce)
    else Success("0x" + HexEncode(keccak(Preimage(fold, b))))
  }

  /** A nonce is derived exactly from a well-formed challenge nonce, and is bound to the whole binding. */
  lemma BoundNonceIsBound(fold: char -> char, keccak: seq<byte> -> seq<byte>, b: Binding)
    ensures BoundNonce(fold, keccak, b).Success? <==> ChallengeNonce(b.challengeNonce)
    ensures BoundNonce(fold, keccak, b).Success? ==> BoundTo(fold, keccak, b, BoundNonce(fold, keccak, b).value)
  {
    if ChallengeNonce(b.challengeNonce) {
      hide HexDecode, HexEncode, Encode, Lower, Spells;
      DecodedIsSpelled(b.challengeNonce);
      EncodedIsSpelled(keccak(Preimage(fold, b)));
      var nonce := BoundNonce(fold, keccak, b).value;
      assert nonce[2..] == HexEncode(keccak(Preimage(fold, b)));
    }
  }

  /** A growing byte buffer. */
  class Buffer {
    var data: seq<byte>

    constructor ()
      ensures data == []
    {
      data := [];
    }

    method WriteString(s: string)
      modifies this
      ensures data == old(data) + Encode(s)
    {
      data := data + Encode(s);
    }

    method WriteByte(b: byte)
      modifies this
      ensures data == old(data) + [b]
    {
      data := data + [b];
    }

    method Write(b: seq<byte>)
      modifies this
      ensures data == old(data) + b
    {
      data := data + b;
    }
  }

  /** Writing the fields in turn, and the preimage as a whole. */
  lemma Appended(a: seq<byte>, b: seq<byte>, c: seq<byte>)
    ensures [] + a + [0] + b + [0] + c == a + [0] + (b + [0] + c)
  {
  }

  /** `DeriveEIP3009Nonce`: the fields written into a buffer one after another. */
  method DeriveEip3009Nonce(fold: char -> char, keccak: seq<byte> -> seq<byte>, b: Binding)
    returns (r: Result<string, NonceError>)
    ensures r == BoundNonce(fold, keccak, b)
    ensures r.Success? <==> ChallengeNonce(b.challengeNonce)
    ensures r.Success? ==> BoundTo(fold, keccak, b, r.value)
  {
    BoundNonceIsBound(fold, keccak, b);
    if !ChallengeNonce(b.challengeNonce) {
      return Failure(BadChallengeNonce);
    }
    hide ChallengeNonce, Lower, Encode, HexDecode, HexEncode, BoundTo;
    var rawNonce := HexDecode(b.challengeNonce);
    var buf := new Buffer();
    buf.WriteString(Lower(fold, b.interactionId));
    buf.WriteByte(0);
    buf.WriteString(Lower(fold, b.challengeStepId));
    buf.WriteByte(0);
    buf.Write(rawNonce);
    Appended(Encode(Lower(fold, b.interactionId)), Encode(Lower(fold, b.challengeStepId)), rawNonce);
    r := Success("0x" + HexEncode(keccak(buf.data)));
  }

  // ----- The pieces are injective -----

  lemma {:induction false} HexDecodeIsInjective(s: string, t: string)
    requires |s| == |t| && |s| % 2 == 0
    requires forall i :: 0 <= i < |s| ==> Tx.LowerHex(s[i]) && Tx.LowerHex(t[i])
    requires HexDecode(s) == HexDecode(t)
    ensures s == t
  {
    if s != [] {
      assert HexDecode(s)[0] == HexDecode(t)[0] && HexDecode(s)[1..] == HexDecode(t)[1..];
      assert HexDecode(s)[1..] == HexDecode(s[2..]) && HexDecode(t)[1..] == HexDecode(t[2..]);
      HexDecodeIsInjective(s[2..], t[2..]);
      SameDigit(s[0], t[0]);
      SameDigit(s[1], t[1]);
      assert s == [s[0], s[1]] + s[2..] && t == [t[0], t[1]] + t[2..];
    }
  }

  lemma SameDigit(c: char, d: char)
    requires Tx.LowerHex(c) && Tx.LowerHex(d)
    ensures HexValue(c) == HexValue(d) ==> c == d
  {
  }

  /** Encodings of different characters never agree, whatever follows. */
  lemma EncodeCharIsPrefixFree(c: char, d: char, a: seq<byte>, b: seq<byte>)
    requires EncodeChar(c) + a == EncodeChar(d) + b
    ensures c == d && a == b
  {
    var x, y := EncodeChar(c), EncodeChar(d);
    var z := x + a;
    assert z[0] == x[0] && z[0] == y[0];
    assert |x| == |y|;
    assert x == z[..|x|] && y == z[..|y|];
    assert a == z[|x|..] && b == z[|y|..];
    SameCode(c, d);
  }

  /** The code point that one encoded character spells. */
  function CodePoint(b: seq<byte>): int {
    if |b| == 1 then b[0]
    else if |b| == 2 then (b[0] as int - 0xC0) * 64 + (b[1] as int - 0x80)
    else if |b| == 3 then (b[0] as int - 0xE0) * 4096 + (b[1] as int - 0x80) * 64 + (b[2] as int - 0x80)
    else if |b| == 4 then
      (b[0] as int - 0xF0) * 262144 + (b[1] as int - 0x80) * 4096 + (b[2] as int - 0x80) * 64 + (b[3] as int - 0x80)
    else 0
  }

  lemma Sextets(n: nat)
    ensures n == n / 64 * 64 + n % 64
    ensures n == n / 4096 * 4096 + n / 64 % 64 * 64 + n % 64
    ensures n == n / 262144 * 262144 + n / 4096 % 64 * 4096 + n / 64 % 64 * 64 + n % 64
  {
    assert n / 64 / 64 == n / 4096 && n / 4096 / 64 == n / 262144;
  }

  lemma CodePointOfChar(c: char)
    ensures CodePoint(EncodeChar(c)) == c as int
  {
    Sextets(c as int);
  }

  lemma SameCode(c: char, d: char)
    requires EncodeChar(c) == EncodeChar(d)
    ensures c == d
  {
    CodePointOfChar(c);
    CodePointOfChar(d);
  }

  lemma {:induction false} EncodeIsInjective(s: string, t: string)
    requires Encode(s) == Encode(t)
    ensures s == t
  {
    if s == [] {
      assert t == [] by {
        EncodingIsLonger(t);
      }
    } else if t == [] {
      EncodingIsLonger(s);
    } else {
      EncodeCharIsPrefixFree(s[0], t[0], Encode(s[1..]), Encode(t[1..]));
      EncodeIsInjective(s[1..], t[1..]);
      assert s == [s[0]] + s[1..] && t == [t[0]] + t[1..];
    }
  }

  /** Zero bytes come from zero characters only. */
  lemma {:induction false} ZeroBytes(s: string)
    ensures 0 in Encode(s) <==> '\0' in s
  {
    if s != [] {
      ZeroBytes(s[1..]);
      assert 0 in EncodeChar(s[0]) <==> s[0] == '\0';
      assert s == [s[0]] + s[1..];
    }
  }

  // ----- When bindings are told apart -----

  predicate Clean(s: string) {
    '\0' !in s
  }

  predicate SameUpToCase(fold: char -> char, b: Binding, c: Binding) {
    && Lower(fold, b.interactionId) == Lower(fold, c.interactionId)
    && Lower(fold, b.challengeStepId) == Lower(fold, c.challengeStepId)
    && b.challengeNonce == c.challengeNonce
  }

  lemma LowerKeepsZeros(fold: char -> char, s: string)
    requires Folding(fold)
    ensures '\0' in Lower(fold, s) <==> '\0' in s
  {
    var r := Lower(fold, s);
    if i :| 0 <= i < |s| && s[i] == '\0' {
      assert r[i] == '\0';
    }
    if i :| 0 <= i < |r| && r[i] == '\0' {
      assert s[i] == '\0';
    }
  }

  lemma ZeroInside(a: seq<byte>, x: seq<byte>, b: seq<byte>, y: seq<byte>)
    requires a + [0] + x == b + [0] + y && |a| < |b|
    ensures 0 in x
  {
    assert (b + [0] + y)[|b|] == 0;
    assert (a + [0] + x)[|b|] == x[|b| - |a| - 1];
  }

  /** Two byte strings split at their last zero byte split alike. */
  lemma LastZero(a: seq<byte>, x: seq<byte>, b: seq<byte>, y: seq<byte>)
    requires a + [0] + x == b + [0] + y && 0 !in x && 0 !in y
    ensures a == b && x == y
  {
    if |a| < |b| {
      ZeroInside(a, x, b, y);
    } else if |b| < |a| {
      ZeroInside(b, y, a, x);
    }
    var z := a + [0] + x;
    assert a == z[..|a|] && b == z[..|b|];
    assert x == z[|a| + 1..] && y == z[|b| + 1..];
  }

  /** A fixed-length end comes off alike. */
  lemma SameEnd(a: seq<byte>, x: seq<byte>, b: seq<byte>, y: seq<byte>)
    requires a + x == b + y && |x| == |y|
    ensures a == b && x == y
  {
    assert a == (a + x)[..|a|] && b == (b + y)[..|a|];
    assert x == (a + x)[|a|..] && y == (b + y)[|a|..];
  }

  lemma PreimageInParts(fold: char -> char, b: Binding)
    requires ChallengeNonce(b.challengeNonce)
    ensures Preimage(fold, b)
            == (Encode(Lower(fold, b.interactionId)) + [0] + Encode(Lower(fold, b.challengeStepId)))
               + ([0] + HexDecode(b.challengeNonce))
  {
    var i, s, n := Encode(Lower(fold, b.interactionId)), Encode(Lower(fold, b.challengeStepId)),
                   HexDecode(b.challengeNonce);
    assert i + [0] + (s + [0] + n) == (i + [0] + s) + ([0] + n);
  }

  /** With no zero character in either step identifier, equal bytes are hashed exactly for bindings that agree up to
      case, even when the interaction identifiers hold zero characters themselves. */
  lemma CleanStepsAreToldApart(fold: char -> char, b: Binding, c: Binding)
    requires Folding(fold) && ChallengeNonce(b.challengeNonce) && ChallengeNonce(c.challengeNonce)
    requires Clean(b.challengeStepId) && Clean(c.challengeStepId)
    ensures Preimage(fold, b) == Preimage(fold, c) <==> SameUpToCase(fold, b, c)
  {
    hide Preimage, Encode, Lower, HexDecode;
    PreimageInParts(fold, b);
    PreimageInParts(fold, c);
    if Preimage(fold, b) == Preimage(fold, c) {
      var i, s, j, t := Lower(fold, b.interactionId), Lower(fold, b.challengeStepId), Lower(fold, c.interactionId),
                        Lower(fold, c.challengeStepId);
      SameEnd(Encode(i) + [0] + Encode(s), [0] + HexDecode(b.challengeNonce), Encode(j) + [0] + Encode(t),
              [0] + HexDecode(c.challengeNonce));
      assert ([0] + HexDecode(b.challengeNonce))[1..] == HexDecode(b.challengeNonce);
      assert ([0] + HexDecode(c.challengeNonce))[1..] == HexDecode(c.challengeNonce);
      HexDecodeIsInjective(b.challengeNonce, c.challengeNonce);
      LowerKeepsZeros(fold, b.challengeStepId);
      LowerKeepsZeros(fold, c.challengeStepId);
      ZeroBytes(s);
      ZeroBytes(t);
      LastZero(Encode(i), Encode(s), Encode(j), Encode(t));
      EncodeIsInjective(i, j);
      EncodeIsInjective(s, t);
    }
  }

  lemma {:induction false} LowerAppend(fold: char -> char, s: string, t: string)
    ensures Lower(fold, s + t) == Lower(fold, s) + Lower(fold, t)
  {
    if s == [] {
      assert s + t == t;
    } else {
      assert (s + t)[1..] == s[1..] + t;
      LowerAppend(fold, s[1..], t);
    }
  }

  lemma ZeroSplits(fold: char -> char, a: string, b: string)
    requires Folding(fold)
    ensures Encode(Lower(fold, a + "\0" + b)) == Encode(Lower(fold, a)) + [0] + Encode(Lower(fold, b))
  {
    LowerAppend(fold, a + "\0", b);
    LowerAppend(fold, a, "\0");
    assert Lower(fold, "\0") == "\0";
    EncodeAppend(Lower(fold, a) + "\0", Lower(fold, b));
    EncodeAppend(Lower(fold, a), "\0");
    assert Encode("\0") == [0];
  }

  /** Moving what follows a zero character from one field into the other changes nothing that is hashed. */
  lemma ZerosMove(fold: char -> char, left: string, middle: string, right: string, nonce: string)
    requires Folding(fold) && ChallengeNonce(nonce)
    ensures Preimage(fold, Binding(left, middle + "\0" + right, nonce))
            == Preimage(fold, Binding(left + "\0" + middle, right, nonce))
  {
    ZeroSplits(fold, middle, right);
    ZeroSplits(fold, left, middle);
    hide Lower, Encode, HexDecode;
    Moved(Encode(Lower(fold, left)), Encode(Lower(fold, middle)), Encode(Lower(fold, right)), HexDecode(nonce));
  }

  lemma Moved(l: seq<byte>, m: seq<byte>, r: seq<byte>, n: seq<byte>)
    ensures l + [0] + (m + [0] + r + [0] + n) == l + [0] + m + [0] + (r + [0] + n)
  {
  }

  ghost predicate ToldApartFromAll(fold: char -> char, b: Binding)
    requires ChallengeNonce(b.challengeNonce)
  {
    forall c: Binding :: ChallengeNonce(c.challengeNonce) && Preimage(fold, b) == Preimage(fold, c) ==>
                           SameUpToCase(fold, b, c)
  }

  lemma CutAtZero(s: string) returns (a: string, b: string)
    requires !Clean(s)
    ensures s == a + "\0" + b
  {
    var i :| 0 <= i < |s| && s[i] == '\0';
    a, b := s[..i], s[i + 1..];
  }

  /** A binding is told apart from all others exactly when neither of its identifiers holds a zero character. */
  lemma ToldApartExactly(fold: char -> char, b: Binding)
    requires Folding(fold) && ChallengeNonce(b.challengeNonce)
    ensures ToldApartFromAll(fold, b) <==> Clean(b.interactionId) && Clean(b.challengeStepId)
  {
    if !Clean(b.challengeStepId) {
      var middle, right := CutAtZero(b.challengeStepId);
      var other := Binding(b.interactionId + "\0" + middle, right, b.challengeNonce);
      ZerosMove(fold, b.interactionId, middle, right, b.challengeNonce);
      assert |Lower(fold, other.interactionId)| > |Lower(fold, b.interactionId)|;
    } else if !Clean(b.interactionId) {
      var left, middle := CutAtZero(b.interactionId);
      var other := Binding(left, middle + "\0" + b.challengeStepId, b.challengeNonce);
      ZerosMove(fold, left, middle, b.challengeStepId, b.challengeNonce);
      assert |Lower(fold, other.interactionId)| < |Lower(fold, b.interactionId)|;
    } else {
      forall c: Binding | ChallengeNonce(c.challengeNonce) && Preimage(fold, b) == Preimage(fold, c)
        ensures SameUpToCase(fold, b, c) {
        CleanFieldsForceClean(fold, b, c);
        CleanStepsAreToldApart(fold, b, c);
      }
    }
  }

  function ZeroCount(b: seq<byte>): nat {
    if b == [] then 0 else (if b[0] == 0 then 1 else 0) + ZeroCount(b[1..])
  }

  lemma {:induction false} ZeroCountAppend(a: seq<byte>, b: seq<byte>)
    ensures ZeroCount(a + b) == ZeroCount(a) + ZeroCount(b)
  {
    if a == [] {
      assert a + b == b;
    } else {
      assert (a + b)[1..] == a[1..] + b;
      ZeroCountAppend(a[1..], b);
    }
  }

  lemma {:induction false} NoZerosCounted(b: seq<byte>)
    ensures ZeroCount(b) == 0 <==> 0 !in b
  {
    if b != [] {
      NoZerosCounted(b[1..]);
      assert b == [b[0]] + b[1..];
    }
  }

  lemma ZerosBeforeNonce(fold: char -> char, b: Binding)
    requires Folding(fold) && ChallengeNonce(b.challengeNonce)
    ensures var head := Encode(Lower(fold, b.interactionId)) + [0] + Encode(Lower(fold, b.challengeStepId));
            ZeroCount(head) >= 1 && (ZeroCount(head) == 1 <==> Clean(b.interactionId) && Clean(b.challengeStepId))
  {
    var i, s := Lower(fold, b.interactionId), Lower(fold, b.challengeStepId);
    ZeroCountAppend(Encode(i) + [0], Encode(s));
    ZeroCountAppend(Encode(i), [0]);
    NoZerosCounted(Encode(i));
    NoZerosCounted(Encode(s));
    ZeroBytes(i);
    ZeroBytes(s);
    LowerKeepsZeros(fold, b.interactionId);
    LowerKeepsZeros(fold, b.challengeStepId);
    assert ZeroCount([0]) == 1;
  }

  /** What hashes like a clean binding is clean. */
  lemma CleanFieldsForceClean(fold: char -> char, b: Binding, c: Binding)
    requires Folding(fold) && ChallengeNonce(b.challengeNonce) && ChallengeNonce(c.challengeNonce)
    requires Clean(b.interactionId) && Clean(b.challengeStepId) && Preimage(fold, b) == Preimage(fold, c)
    ensures Clean(c.interactionId) && Clean(c.challengeStepId)
  {
    hide Preimage, Encode, Lower, HexDecode, ZeroCount;
    PreimageInParts(fold, b);
    PreimageInParts(fold, c);
    SameEnd(Encode(Lower(fold, b.interactionId)) + [0] + Encode(Lower(fold, b.challengeStepId)),
            [0] + HexDecode(b.challengeNonce),
            Encode(Lower(fold, c.interactionId)) + [0] + Encode(Lower(fold, c.challengeStepId)),
            [0] + HexDecode(c.challengeNonce));
    ZerosBeforeNonce(fold, b);
    ZerosBeforeNonce(fold, c);
  }
}
