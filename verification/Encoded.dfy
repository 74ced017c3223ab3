/** Reading back what was encoded: a tree the parser accepts survives the encoder and the parser. */
module Encoded {
  import opened Outcomes
  import opened Values
  import T = JsonText
  import Dc = Decoding
  import Rd = Reader
  import En = Envelopes
  import Tx = Texts
  import Utf8

  /** Encoding an acceptable tree that fits, and parsing the text, gives back the value of the tree. */
  lemma EncodeThenParse(sc: Strconv, d: Rd.Doc)
    requires Dc.PlainNumbers(d) && Rd.Acceptable(sc, d, MAX_DEPTH)
    requires |T.Source(Dc.Lexemes(d))| <= MAX_BYTES
    ensures T.GoodText(Dc.Lexemes(d))
    ensures En.ParsedValue(sc, Dc.Lexemes(d)) == Some(Rd.ValueOf(sc, d))
    ensures En.Parse(sc, Dc.Lexemes(d)) == En.CheckEnvelope(Rd.ValueOf(sc, d))
  {
    hide Dc.Lexemes, Rd.ValueOf, Rd.Tokens, Rd.ReadAll;
    Dc.EncodeThenDecode(d);
    T.SourceValid(Dc.Lexemes(d));
    T.ScannerIsExact(Dc.Lexemes(d));
    Rd.AcceptsExactlyTrees(sc, Dc.TokensOf(Dc.Lexemes(d)));
  }

  /** Each member of an object with distinct keys is found under its key. */
  lemma {:induction false} MemberFound(sc: Strconv, obj: map<string, Value>, members: seq<Rd.Member>, i: nat)
    requires Rd.Fresh(obj.Keys, members) && i < |members|
    ensures members[i].key in Rd.MembersInto(sc, obj, members)
    ensures Rd.MembersInto(sc, obj, members)[members[i].key] == Rd.ValueOf(sc, members[i].doc)
    decreases |members|
  {
    var more := obj[members[0].key := Rd.ValueOf(sc, members[0].doc)];
    assert more.Keys == obj.Keys + {members[0].key};
    if i == 0 {
      EarlierKept(sc, more, members[1..], members[0].key);
    } else {
      MemberFound(sc, more, members[1..], i - 1);
    }
  }

  lemma {:induction false} EarlierKept(sc: Strconv, obj: map<string, Value>, members: seq<Rd.Member>, key: string)
    requires Rd.Fresh(obj.Keys, members) && key in obj
    ensures key in Rd.MembersInto(sc, obj, members) && Rd.MembersInto(sc, obj, members)[key] == obj[key]
    decreases |members|
  {
    if members != [] {
      var more := obj[members[0].key := Rd.ValueOf(sc, members[0].doc)];
      assert more.Keys == obj.Keys + {members[0].key};
      EarlierKept(sc, more, members[1..], key);
    }
  }

  /** And no other key is. */
  lemma {:induction false} KeysOfMembers(sc: Strconv, obj: map<string, Value>, members: seq<Rd.Member>, key: string)
    requires key in Rd.MembersInto(sc, obj, members)
    ensures key in obj || exists i :: 0 <= i < |members| && members[i].key == key
    decreases |members|
  {
    if members != [] {
      KeysOfMembers(sc, obj[members[0].key := Rd.ValueOf(sc, members[0].doc)], members[1..], key);
      if exists i :: 0 <= i < |members[1..]| && members[1..][i].key == key {
        var i :| 0 <= i < |members[1..]| && members[1..][i].key == key;
        assert members[i + 1].key == key;
      }
    }
  }

  /** The value of an object with distinct keys, member by member. */
  lemma ObjectValue(sc: Strconv, members: seq<Rd.Member>)
    requires Rd.NoDuplicateKeys(members)
    ensures Rd.ValueOf(sc, Rd.DObj(members)).Obj?
    ensures forall i :: 0 <= i < |members| ==> Holds(sc, Rd.ValueOf(sc, Rd.DObj(members)).members, members[i])
    ensures forall k :: k in Rd.ValueOf(sc, Rd.DObj(members)).members ==>
              exists i :: 0 <= i < |members| && members[i].key == k
  {
    var none: map<string, Value> := map[];
    assert none.Keys == {};
    Rd.FreshMeansDistinct({}, members);
    var obj := Rd.MembersInto(sc, none, members);
    forall i | 0 <= i < |members| ensures Holds(sc, obj, members[i]) {
      MemberFound(sc, none, members, i);
    }
    forall k | k in obj ensures exists i :: 0 <= i < |members| && members[i].key == k {
      KeysOfMembers(sc, none, members, k);
    }
  }

  predicate Holds(sc: Strconv, obj: map<string, Value>, member: Rd.Member) {
    member.key in obj && obj[member.key] == Rd.ValueOf(sc, member.doc)
  }

  // ----- How long an encoding can get -----

  /** Nothing to escape, one byte each. */
  predicate Unescaped(s: string) {
    forall i :: 0 <= i < |s| ==> ' ' <= s[i] <= '~' && s[i] != '"' && s[i] != '\\'
  }

  /** A bound on the bytes of a quoted string: no UTF-16 unit takes more than six. */
  function QuotedBound(s: string): nat {
    2 + if Unescaped(s) then |s| else 6 * Tx.Utf16Length(s)
  }

  function Bound(d: Rd.Doc): nat
    decreases d, 1
  {
    match d
    case DNull => 4
    case DBool(_) => 5
    case DNum(text) => |Utf8.Encode(text)|
    case DStr(s) => QuotedBound(s)
    case DArr(items) => 2 + ItemsBound(items)
    case DObj(members) => 2 + MembersBound(members)
  }

  function ItemsBound(items: seq<Rd.Doc>): nat
    decreases items, 0
  {
    if items == [] then 0 else Bound(items[0]) + 1 + ItemsBound(items[1..])
  }

  function MembersBound(members: seq<Rd.Member>): nat
    decreases members, 0
  {
    if members == [] then 0 else MemberBound(members[0]) + MembersBound(members[1..])
  }

  function MemberBound(member: Rd.Member): nat
    decreases member
  {
    QuotedBound(member.key) + 1 + Bound(member.doc) + 1
  }

  lemma {:induction false} SourceAppend(a: seq<T.Lexeme>, b: seq<T.Lexeme>)
    ensures |T.Source(a + b)| == |T.Source(a)| + |T.Source(b)|
  {
    if a == [] {
      assert a + b == b;
    } else {
      assert (a + b)[1..] == a[1..] + b;
      SourceAppend(a[1..], b);
    }
  }

  lemma OneLexemeSource(l: T.Lexeme)
    ensures |T.Source([l])| == |T.LexemeBytes(l)|
  {
    assert [l][1..] == [];
  }

  lemma QuotedCharBytes(c: char)
    ensures |T.ItemBytes(Dc.QuoteChar(c))| <= 6 * (if c as int >= 0x1_0000 then 2 else 1)
    ensures ' ' <= c <= '~' && c != '"' && c != '\\' ==> |T.ItemBytes(Dc.QuoteChar(c))| == 1
  {
    Dc.QuotedChar(c);
    if Dc.QuoteChar(c).Hex? {
      T.HexBytes(Dc.QuoteChar(c).digits);
    }
  }

  lemma {:induction false} QuotedBytes(s: string)
    ensures |T.ItemsBytes(Dc.Quote(s))| <= 6 * Tx.Utf16Length(s)
    ensures Unescaped(s) ==> |T.ItemsBytes(Dc.Quote(s))| == |s|
  {
    if s != [] {
      QuotedCharBytes(s[0]);
      QuotedBytes(s[1..]);
      assert Dc.Quote(s)[1..] == Dc.Quote(s[1..]);
    }
  }

  lemma LiteralBytes(s: string)
    ensures |T.Source([T.Literal(Dc.Quote(s))])| <= QuotedBound(s)
  {
    QuotedBytes(s);
    OneLexemeSource(T.Literal(Dc.Quote(s)));
  }

  lemma Punctuation()
    ensures |T.Source([T.Comma])| == |T.Source([T.Colon])| == |T.Source([T.OpenObject])|
            == |T.Source([T.CloseObject])| == 1
    ensures |T.Source([T.OpenArray])| == |T.Source([T.CloseArray])| == 1
    ensures |T.Source([])| == 0
  {
    OneLexemeSource(T.Comma);
    OneLexemeSource(T.Colon);
    OneLexemeSource(T.OpenObject);
    OneLexemeSource(T.CloseObject);
    OneLexemeSource(T.OpenArray);
    OneLexemeSource(T.CloseArray);
    forall s: string | s in {",", ":", "{", "}", "[", "]"} ensures |Utf8.Encode(s)| == 1 {
      Utf8.AsciiEncoding(s);
    }
  }

  lemma WordBytes(word: string)
    requires word in {"null", "true", "false"}
    ensures |T.Source([T.Word(word)])| == |word|
  {
    OneLexemeSource(T.Word(word));
    Utf8.AsciiEncoding(word);
    hide T.Source, Utf8.Encode;
  }

  /** The encoding of a tree is no longer than its bound. */
  lemma {:induction false} EncodedBytes(d: Rd.Doc)
    ensures |T.Source(Dc.Lexemes(d))| <= Bound(d)
    decreases d, 1
  {
    hide T.Source;
    match d
    case DNull => WordBytes("null");
    case DBool(b) => WordBytes(if b then "true" else "false");
    case DNum(text) => OneLexemeSource(T.Number(text));
    case DStr(s) => LiteralBytes(s);
    case DArr(items) =>
      Punctuation();
      ItemsEncodedBytes(items);
      SourceAppend([T.OpenArray] + Dc.ItemsLexemes(items), [T.CloseArray]);
      SourceAppend([T.OpenArray], Dc.ItemsLexemes(items));
    case DObj(members) =>
      Punctuation();
      MembersEncodedBytes(members);
      SourceAppend([T.OpenObject] + Dc.MembersLexemes(members), [T.CloseObject]);
      SourceAppend([T.OpenObject], Dc.MembersLexemes(members));
  }

  lemma {:induction false} ItemsEncodedBytes(items: seq<Rd.Doc>)
    ensures |T.Source(Dc.ItemsLexemes(items))| <= ItemsBound(items)
    decreases items, 0
  {
    hide T.Source;
    Punctuation();
    if items != [] {
      var separator := if |items| > 1 then [T.Comma] else [];
      EncodedBytes(items[0]);
      ItemsEncodedBytes(items[1..]);
      SourceAppend(Dc.Lexemes(items[0]), separator + Dc.ItemsLexemes(items[1..]));
      SourceAppend(separator, Dc.ItemsLexemes(items[1..]));
    }
  }

  lemma {:induction false} MembersEncodedBytes(members: seq<Rd.Member>)
    ensures |T.Source(Dc.MembersLexemes(members))| <= MembersBound(members)
    decreases members, 0
  {
    hide T.Source, Dc.Quote;
    Punctuation();
    if members != [] {
      var m := members[0];
      var separator := if |members| > 1 then [T.Comma] else [];
      var key := T.Literal(Dc.Quote(m.key));
      EncodedBytes(m.doc);
      MembersEncodedBytes(members[1..]);
      LiteralBytes(m.key);
      assert [key, T.Colon] == [key] + [T.Colon];
      SourceAppend([key], [T.Colon]);
      SourceAppend([key, T.Colon], Dc.Lexemes(m.doc) + (separator + Dc.MembersLexemes(members[1..])));
      SourceAppend(Dc.Lexemes(m.doc), separator + Dc.MembersLexemes(members[1..]));
      SourceAppend(separator, Dc.MembersLexemes(members[1..]));
    }
  }

  lemma {:induction false} MembersBoundAppend(a: seq<Rd.Member>, b: seq<Rd.Member>)
    ensures MembersBound(a + b) == MembersBound(a) + MembersBound(b)
  {
    if a == [] {
      assert a + b == b;
    } else {
      assert (a + b)[1..] == a[1..] + b;
      MembersBoundAppend(a[1..], b);
    }
  }

  /** Members none of which is bounded by more than `each` with its key and punctuation. */
  lemma {:induction false} MembersBoundEach(members: seq<Rd.Member>, each: nat)
    requires forall i :: 0 <= i < |members| ==> MemberBound(members[i]) <= each
    ensures MembersBound(members) <= |members| * each
  {
    hide MemberBound;
    if members != [] {
      MembersBoundEach(members[1..], each);
      assert |members| * each == each + (|members| - 1) * each;
    }
  }

  /** A string without supplementary characters has one UTF-16 unit a character. */
  lemma {:induction false} Utf16OfBasic(s: string)
    requires forall i :: 0 <= i < |s| ==> s[i] as int < 0x1_0000
    ensures Tx.Utf16Length(s) == |s|
  {
    if s != [] {
      Utf16OfBasic(s[1..]);
    }
  }

  lemma BasicBound(s: string)
    requires forall i :: 0 <= i < |s| ==> s[i] as int < 0x1_0000
    ensures QuotedBound(s) <= 2 + 6 * |s|
  {
    Utf16OfBasic(s);
  }

  /** An object whose last member may be long and whose others are short. */
  lemma ObjectBytes(members: seq<Rd.Member>, n: nat, each: nat, last: nat)
    requires |members| == n + 1 && MemberBound(members[n]) <= last
    requires forall i :: 0 <= i < n ==> MemberBound(members[i]) <= each
    ensures |T.Source(Dc.Lexemes(Rd.DObj(members)))| <= 2 + n * each + last
  {
    hide T.Source, Dc.Lexemes;
    var others, final := members[..n], [members[n]];
    MembersBoundEach(others, each);
    MembersBoundAppend(others, final);
    assert members == others + final;
    MembersBoundEach(final, last);
    EncodedBytes(Rd.DObj(members));
  }
}
