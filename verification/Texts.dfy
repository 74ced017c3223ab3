/** The string operations of the SDK: splitting, folding, trimming, counting UTF-16 units, newlines. */
module Texts {
  import opened Sequences

  /** `strings.Split` at one character. */
  function Split(s: string, c: char): (parts: seq<string>)
    ensures |parts| >= 1
  {
    if s == [] then [""]
    else
      var rest := Split(s[1..], c);
      if s[0] == c then [""] + rest else [[s[0]] + rest[0]] + rest[1..]
  }

  /** A text with one separator splits at it. */
  lemma {:induction false} SplitAtOnly(a: string, b: string, c: char)
    requires c !in a && c !in b
    ensures Split(a + [c] + b, c) == [a, b]
  {
    if a == [] {
      assert (a + [c] + b)[1..] == b;
      SplitNowhere(b, c);
    } else {
      assert (a + [c] + b)[1..] == a[1..] + [c] + b;
      SplitAtOnly(a[1..], b, c);
      assert [a[0]] + a[1..] == a;
    }
  }

  lemma {:induction false} SplitNowhere(s: string, c: char)
    requires c !in s
    ensures Split(s, c) == [s]
  {
    if s != [] {
      SplitNowhere(s[1..], c);
      assert [s[0]] + s[1..] == s;
    }
  }

  /** The index of the first `c`, or the length. */
  function IndexOf(s: string, c: char): (i: nat)
    ensures i <= |s|
    ensures i < |s| ==> s[i] == c
    ensures forall k :: 0 <= k < i ==> s[k] != c
  {
    if s == [] || s[0] == c then 0 else 1 + IndexOf(s[1..], c)
  }

  /** The first part of a split ends at the first separator. */
  lemma {:induction false} SplitHead(s: string, c: char)
    ensures Split(s, c)[0] == s[..IndexOf(s, c)]
  {
    if s != [] && s[0] != c {
      SplitHead(s[1..], c);
      assert s[..IndexOf(s, c)] == [s[0]] + s[1..][..IndexOf(s[1..], c)];
    }
  }

  function LowerChar(c: char): char {
    if 'A' <= c <= 'Z' then c - 'A' + 'a' else c
  }

  /** ASCII letters lowered, everything else kept. */
  function Lower(s: string): (r: string)
    ensures |r| == |s|
    ensures forall i :: 0 <= i < |s| ==> r[i] == LowerChar(s[i])
  {
    seq(|s|, i requires 0 <= i < |s| => LowerChar(s[i]))
  }

  /** How many UTF-16 code units the text takes. */
  function Utf16Length(s: string): nat {
    if s == [] then 0 else (if s[0] as int >= 0x1_0000 then 2 else 1) + Utf16Length(s[1..])
  }

  /** `unicode.IsSpace`. */
  predicate Space(c: char) {
    || '\t' <= c <= '\r' || c == ' ' || c == '\U{85}' || c == '\U{A0}' || c == '\U{1680}'
    || '\U{2000}' <= c <= '\U{200A}'
    || c == '\U{2028}' || c == '\U{2029}' || c == '\U{202F}' || c == '\U{205F}' || c == '\U{3000}'
  }

  function TrimSpace(s: string): string {
    if s != [] && Space(s[0]) then TrimSpace(s[1..])
    else if s != [] && Space(s[|s| - 1]) then TrimSpace(s[..|s| - 1])
    else s
  }

  /** Trimming takes spaces off both ends and leaves none there. */
  lemma {:induction false} TrimSpaceExactly(s: string) returns (before: string, after: string)
    ensures s == before + TrimSpace(s) + after
    ensures forall i :: 0 <= i < |before| ==> Space(before[i])
    ensures forall i :: 0 <= i < |after| ==> Space(after[i])
    ensures var kept := TrimSpace(s); kept == "" || (!Space(kept[0]) && !Space(kept[|kept| - 1]))
  {
    hide Space;
    if s != [] && Space(s[0]) {
      before, after := TrimSpaceExactly(s[1..]);
      before := [s[0]] + before;
    } else if s != [] && Space(s[|s| - 1]) {
      before, after := TrimSpaceExactly(s[..|s| - 1]);
      after := after + [s[|s| - 1]];
    } else {
      before, after := "", "";
    }
  }

  /** A hexadecimal digit without capitals. */
  predicate LowerHex(c: char) {
    '0' <= c <= '9' || 'a' <= c <= 'f'
  }

  // ----- Newlines -----

  predicate CrlfAt(s: string, i: nat) {
    i + 1 < |s| && s[i] == '\r' && s[i + 1] == '\n'
  }

  predicate HasCrlf(s: string) {
    exists i :: 0 <= i < |s| && CrlfAt(s, i)
  }

  /** `strings.ReplaceAll(s, "\r\n", "\n")`. */
  function Normalised(s: string): string {
    if s == [] then []
    else if CrlfAt(s, 0) then ['\n'] + Normalised(s[2..])
    else [s[0]] + Normalised(s[1..])
  }

  function CrlfChar(c: char): string {
    if c == '\n' then ['\r', '\n'] else [c]
  }

  /** What a mail transport does: every line feed becomes a carriage return and a line feed. */
  function Crlf(s: string): string {
    if s == [] then []
    else CrlfChar(s[0]) + Crlf(s[1..])
  }

  lemma NormalisedCons(c: char, rest: string)
    requires !(c == '\r' && rest != [] && rest[0] == '\n')
    ensures Normalised([c] + rest) == [c] + Normalised(rest)
  {
    assert ([c] + rest)[1..] == rest;
  }

  lemma NormalisedPair(rest: string)
    ensures Normalised(['\r', '\n'] + rest) == ['\n'] + Normalised(rest)
  {
    assert (['\r', '\n'] + rest)[2..] == rest;
  }

  lemma CrlfHead(s: string, after: string)
    requires s != []
    ensures Crlf(s) + after == CrlfChar(s[0]) + (Crlf(s[1..]) + after)
  {
    Regrouped(CrlfChar(s[0]), Crlf(s[1..]), after);
  }

  lemma HeadOf(a: string, rest: string)
    requires a != []
    ensures (a + rest)[0] == a[0]
  {
  }

  /** The rewritten text never starts with a line feed. */
  lemma NoLeadingNewline(s: string, after: string)
    requires after == [] || after[0] != '\n' || s != []
    ensures var text := Crlf(s) + after; text == [] || text[0] != '\n'
  {
    if s == [] {
      assert Crlf(s) + after == after;
    } else {
      CrlfHead(s, after);
      HeadOf(CrlfChar(s[0]), Crlf(s[1..]) + after);
    }
  }

  /** Normalising undoes the transport's rewriting, whatever follows. */
  lemma {:induction false} NormalisedCrlf(s: string, after: string)
    requires after == [] || after[0] != '\n' || s == [] || s[|s| - 1] != '\r'
    ensures Normalised(Crlf(s) + after) == s + Normalised(after)
  {
    if s == [] {
      assert Crlf(s) + after == after && s + Normalised(after) == Normalised(after);
    } else {
      hide Normalised, Crlf;
      var rest := Crlf(s[1..]) + after;
      NormalisedCrlf(s[1..], after);
      CrlfHead(s, after);
      if s[0] == '\n' {
        NormalisedPair(rest);
      } else {
        if s[0] == '\r' {
          NoLeadingNewline(s[1..], after);
        }
        NormalisedCons(s[0], rest);
      }
      Regrouped([s[0]], s[1..], Normalised(after));
      assert [s[0]] + s[1..] == s;
    }
  }

  /** A text without the pair is already normal. */
  lemma {:induction false} NormalisedSame(s: string)
    requires !HasCrlf(s)
    ensures Normalised(s) == s
  {
    if s != [] {
      assert !CrlfAt(s, 0);
      assert forall i :: 0 <= i < |s| - 1 && CrlfAt(s[1..], i) ==> CrlfAt(s, i + 1);
      NormalisedSame(s[1..]);
    }
  }

  /** A text with the pair differs from its normal form, even with anything appended to either. */
  lemma {:induction false} NormalisedDiffers(s: string, a: string, b: string)
    requires HasCrlf(s)
    ensures s + a != Normalised(s) + b
  {
    if CrlfAt(s, 0) {
      assert (s + a)[0] == '\r' && (Normalised(s) + b)[0] == '\n';
    } else {
      var i :| 0 <= i < |s| && CrlfAt(s, i);
      assert CrlfAt(s[1..], i - 1);
      NormalisedDiffers(s[1..], a, b);
      assert (s + a)[1..] == s[1..] + a;
      assert (Normalised(s) + b)[1..] == Normalised(s[1..]) + b;
    }
  }

  /** Normalising a text and what is appended to it, unless the seam makes a pair. */
  lemma {:induction false} NormalisedAppend(s: string, after: string)
    requires after == [] || after[0] != '\n' || s == [] || s[|s| - 1] != '\r'
    ensures Normalised(s + after) == Normalised(s) + Normalised(after)
    decreases |s|
  {
    if s == [] {
      assert s + after == after;
    } else {
      hide Normalised;
      NormalisedSplits(s, after);
      if CrlfAt(s, 0) {
        NormalisedAppend(s[2..], after);
        NormalisedPair(s[2..] + after);
        NormalisedPair(s[2..]);
      } else {
        NormalisedAppend(s[1..], after);
        NormalisedCons(s[0], s[1..] + after);
        NormalisedCons(s[0], s[1..]);
      }
    }
  }

  lemma NormalisedSplits(s: string, after: string)
    requires s != []
    ensures s == [s[0]] + s[1..] && s + after == [s[0]] + (s[1..] + after)
    ensures CrlfAt(s, 0) ==> s == ['\r', '\n'] + s[2..] && s + after == ['\r', '\n'] + (s[2..] + after)
  {
  }
}
