/**
 UTF-8 (RFC 3629): the encoding of a string of Unicode scalar values, and the validity test
 the parser runs on its source before anything else.
 */
module Utf8 {
  import opened Sequences

  type byte = b: int | 0 <= b < 256

  function EncodeChar(c: char): (bytes: seq<byte>)
    ensures 1 <= |bytes| <= 4
    ensures (c as int < 0x80) ==> bytes == [c as int]
    ensures (c as int >= 0x80) ==> forall b :: b in bytes ==> b >= 0x80
  {
    var n := c as int;
    if n < 0x80 then [n]
    else if n < 0x800 then [0xC0 + n / 64, 0x80 + n % 64]
    else if n < 0x1_0000 then [0xE0 + n / 4096, 0x80 + n / 64 % 64, 0x80 + n % 64]
    else [0xF0 + n / 262144, 0x80 + n / 4096 % 64, 0x80 + n / 64 % 64, 0x80 + n % 64]
  }

  function Encode(s: string): seq<byte> {
    if s == [] then [] else EncodeChar(s[0]) + Encode(s[1..])
  }

  /** The length Go's `len` reports of a valid UTF-8 string. */
  function ByteLength(s: string): nat {
    |Encode(s)|
  }

  predicate Continuation(b: byte) {
    0x80 <= b <= 0xBF
  }

  /** The length of the well-formed sequence `b` starts with, or 0. */
  function RuneSize(b: seq<byte>): (size: nat)
    ensures size <= |b|
  {
    if |b| == 0 then 0
    else if b[0] < 0x80 then 1
    else if |b| < 2 then 0
    else if 0xC2 <= b[0] <= 0xDF then (if Continuation(b[1]) then 2 else 0)
    else if |b| < 3 || !Continuation(b[2]) then 0
    else if 0xE0 <= b[0] <= 0xEF then
      (if (if b[0] == 0xE0 then 0xA0 else 0x80) <= b[1] <= (if b[0] == 0xED then 0x9F else 0xBF) then 3 else 0)
    else if |b| < 4 || !Continuation(b[3]) then 0
    else if 0xF0 <= b[0] <= 0xF4 then
      (if (if b[0] == 0xF0 then 0x90 else 0x80) <= b[1] <= (if b[0] == 0xF4 then 0x8F else 0xBF) then 4 else 0)
    else 0
  }

  predicate Valid(b: seq<byte>) {
    b == [] || (RuneSize(b) > 0 && Valid(b[RuneSize(b)..]))
  }

  lemma ThreeByteSize(c: char)
    requires 0x800 <= c as int < 0x1_0000
    ensures RuneSize(EncodeChar(c)) == 3 == |EncodeChar(c)|
  {
    var n := c as int;
    assert n / 4096 == 0 ==> n / 64 % 64 >= 0x20;
    assert n / 4096 == 0xD ==> n / 64 % 64 < 0x20;
  }

  lemma FourByteSize(c: char)
    requires c as int >= 0x1_0000
    ensures RuneSize(EncodeChar(c)) == 4 == |EncodeChar(c)|
  {
    var n := c as int;
    assert n / 262144 == 0 ==> n / 4096 % 64 >= 0x10;
    assert n / 262144 == 4 ==> n / 4096 % 64 < 0x10;
  }

  lemma ShortSize(c: char)
    requires c as int < 0x800
    ensures RuneSize(EncodeChar(c)) == |EncodeChar(c)|
  {
  }

  lemma EncodedCharSize(c: char)
    ensures RuneSize(EncodeChar(c)) == |EncodeChar(c)|
  {
    hide RuneSize, EncodeChar;
    if c as int < 0x800 {
      ShortSize(c);
    } else if c as int < 0x1_0000 {
      ThreeByteSize(c);
    } else {
      FourByteSize(c);
    }
  }

  /** The size of the first sequence does not depend on what follows it. */
  lemma SizeOfPrefix(b: seq<byte>, rest: seq<byte>)
    requires RuneSize(b) > 0
    ensures RuneSize(b + rest) == RuneSize(b)
  {
    var whole := b + rest;
    assert forall i :: 0 <= i < |b| ==> whole[i] == b[i];
  }

  lemma ValidCons(c: char, tail: seq<byte>)
    requires Valid(tail)
    ensures Valid(EncodeChar(c) + tail)
  {
    EncodedCharSize(c);
    SizeOfPrefix(EncodeChar(c), tail);
    assert (EncodeChar(c) + tail)[|EncodeChar(c)|..] == tail;
  }

  /** Whatever follows it validly, an encoded string is valid. */
  lemma {:induction false} ValidEncoding(s: string, rest: seq<byte>)
    requires Valid(rest)
    ensures Valid(Encode(s) + rest)
  {
    if s == [] {
      assert Encode(s) + rest == rest;
    } else {
      ValidEncoding(s[1..], rest);
      ValidCons(s[0], Encode(s[1..]) + rest);
      assert Encode(s) + rest == EncodeChar(s[0]) + (Encode(s[1..]) + rest);
    }
  }

  lemma {:induction false} ValidAppend(b: seq<byte>, rest: seq<byte>)
    requires Valid(b) && Valid(rest)
    ensures Valid(b + rest)
    decreases |b|
  {
    if b == [] {
      assert b + rest == rest;
    } else {
      SizeOfPrefix(b, rest);
      hide RuneSize;
      var tail := b[RuneSize(b)..];
      ValidAppend(tail, rest);
      DropAppend(b, rest, RuneSize(b));
    }
  }

  lemma {:induction false} EncodeAppend(s: string, t: string)
    ensures Encode(s + t) == Encode(s) + Encode(t)
  {
    if s == [] {
      assert s + t == t;
    } else {
      EncodeAppend(s[1..], t);
      assert (s + t)[1..] == s[1..] + t;
      hide EncodeChar;
      Regrouped(EncodeChar(s[0]), Encode(s[1..]), Encode(t));
    }
  }

  predicate Ascii(s: string) {
    forall i :: 0 <= i < |s| ==> s[i] as int < 0x80
  }

  lemma {:induction false} AsciiEncoding(s: string)
    requires Ascii(s)
    ensures |Encode(s)| == |s|
    ensures forall i :: 0 <= i < |s| ==> Encode(s)[i] == s[i] as int
  {
    if s != [] {
      AsciiEncoding(s[1..]);
    }
  }

  lemma {:induction false} EncodingIsLonger(s: string)
    ensures |Encode(s)| >= |s|
  {
    if s != [] {
      EncodingIsLonger(s[1..]);
    }
  }

  // ----- Valid means encoded -----

  /** The character one well-formed sequence encodes. */
  lemma RuneIsChar(b: seq<byte>) returns (c: char)
    requires RuneSize(b) > 0
    ensures EncodeChar(c) == b[..RuneSize(b)]
  {
    var size := RuneSize(b);
    if size == 1 {
      c := b[0] as char;
    } else if size == 2 {
      c := TwoBytes(b[0], b[1]);
    } else if size == 3 {
      c := ThreeBytes(b[0], b[1], b[2]);
    } else {
      c := FourBytes(b[0], b[1], b[2], b[3]);
    }
    hide EncodeChar;
    assert b[..size] == if size == 1 then [b[0]] else if size == 2 then [b[0], b[1]]
                        else if size == 3 then [b[0], b[1], b[2]] else [b[0], b[1], b[2], b[3]];
  }

  lemma TwoBytes(x: byte, y: byte) returns (c: char)
    requires 0xC2 <= x <= 0xDF && Continuation(y)
    ensures EncodeChar(c) == [x, y]
  {
    var n := (x - 0xC0) * 64 + (y - 0x80);
    c := n as char;
  }

  lemma ThreeBytes(x: byte, y: byte, z: byte) returns (c: char)
    requires 0xE0 <= x <= 0xEF && Continuation(y) && Continuation(z)
    requires (x == 0xE0 ==> y >= 0xA0) && (x == 0xED ==> y <= 0x9F)
    ensures EncodeChar(c) == [x, y, z]
  {
    var q := (x - 0xE0) * 64 + (y - 0x80);
    var n := q * 64 + (z - 0x80);
    assert 0x800 <= n < 0x1_0000 && !(0xD800 <= n <= 0xDFFF);
    c := n as char;
    assert n / 64 == q && n % 64 == z - 0x80;
    assert n / 4096 == x - 0xE0;
  }

  lemma FourBytes(x: byte, y: byte, z: byte, w: byte) returns (c: char)
    requires 0xF0 <= x <= 0xF4 && Continuation(y) && Continuation(z) && Continuation(w)
    requires (x == 0xF0 ==> y >= 0x90) && (x == 0xF4 ==> y <= 0x8F)
    ensures EncodeChar(c) == [x, y, z, w]
  {
    var p := (x - 0xF0) * 64 + (y - 0x80);
    var q := p * 64 + (z - 0x80);
    var n := q * 64 + (w - 0x80);
    assert 0x1_0000 <= n < 0x11_0000;
    c := n as char;
    assert n / 64 == q && n % 64 == w - 0x80;
    assert n / 4096 == p && q % 64 == z - 0x80;
    assert n / 262144 == x - 0xF0 && p % 64 == y - 0x80;
  }

  /** Bytes are valid exactly when they are the encoding of some text. */
  lemma ValidExactly(b: seq<byte>)
    ensures Valid(b) <==> exists s :: Encode(s) == b
  {
    if Valid(b) {
      var s := TextOfValid(b);
    }
    if s :| Encode(s) == b {
      ValidEncoding(s, []);
      assert Encode(s) + [] == b;
    }
  }

  lemma {:induction false} TextOfValid(b: seq<byte>) returns (s: string)
    requires Valid(b)
    ensures Encode(s) == b
    decreases |b|
  {
    if b == [] {
      s := "";
    } else {
      var c := RuneIsChar(b);
      var rest := TextOfValid(b[RuneSize(b)..]);
      s := [c] + rest;
      assert s[1..] == rest && b == b[..RuneSize(b)] + b[RuneSize(b)..];
      hide RuneSize, EncodeChar;
    }
  }
}
