/**
 The recursive reader over the decoder's token stream: a depth limit, no duplicate keys, safe
 numbers only. `ErrorToken` stands where the decoder reports a lexical or punctuation error.
 */
module Reader {
  import opened Outcomes
  import opened Values

  datatype Token =
    | BeginObject
    | EndObject
    | BeginArray
    | EndArray
    | StringToken(s: string)
    | NumberToken(text: string)
    | BoolToken(b: bool)
    | NullToken
    | ErrorToken

  /** A syntax tree: members in source order, numbers as text. */
  datatype Doc =
    | DNull
    | DBool(b: bool)
    | DNum(text: string)
    | DStr(s: string)
    | DArr(items: seq<Doc>)
    | DObj(members: seq<Member>)
  datatype Member = Member(key: string, doc: Doc)

  // ----- What a tree means -----

  function Tokens(d: Doc): (tokens: seq<Token>)
    ensures |tokens| >= 1
    decreases d, 1
  {
    match d
    case DNull => [NullToken]
    case DBool(b) => [BoolToken(b)]
    case DNum(text) => [NumberToken(text)]
    case DStr(s) => [StringToken(s)]
    case DArr(items) => [BeginArray] + ItemsTokens(items) + [EndArray]
    case DObj(members) => [BeginObject] + MembersTokens(members) + [EndObject]
  }

  function ItemsTokens(items: seq<Doc>): seq<Token>
    decreases items, 0
  {
    if items == [] then [] else Tokens(items[0]) + ItemsTokens(items[1..])
  }

  function MembersTokens(members: seq<Member>): seq<Token>
    decreases members, 0
  {
    if members == [] then []
    else [StringToken(members[0].key)] + Tokens(members[0].doc) + MembersTokens(members[1..])
  }

  ghost predicate NoDuplicateKeys(members: seq<Member>) {
    forall i, j :: 0 <= i < j < |members| ==> members[i].key != members[j].key
  }

  /** At most `limit` containers nested, keys distinct in every object, every number safe. */
  ghost predicate Acceptable(sc: Strconv, d: Doc, limit: nat) {
    match d
    case DNum(text) => InteractionNumber(sc, text).Some?
    case DArr(items) => limit > 0 && forall i :: 0 <= i < |items| ==> Acceptable(sc, items[i], limit - 1)
    case DObj(members) =>
      limit > 0 && NoDuplicateKeys(members) && forall i :: 0 <= i < |members| ==>
          Acceptable(sc, members[i].doc, limit - 1)
    case _ => true
  }

  function ValueOf(sc: Strconv, d: Doc): Value
    decreases d, 1
  {
    match d
    case DNull => Null
    case DBool(b) => Bool(b)
    case DNum(text) => (match InteractionNumber(sc, text) case Some(n) => Num(n) case None => Null)
    case DStr(s) => Str(s)
    case DArr(items) => Arr(ItemsValue(sc, items))
    case DObj(members) => Obj(MembersInto(sc, map[], members))
  }

  function ItemsValue(sc: Strconv, items: seq<Doc>): seq<Value>
    decreases items, 0
  {
    if items == [] then [] else [ValueOf(sc, items[0])] + ItemsValue(sc, items[1..])
  }

  /** `obj` with the members added in source order. */
  function MembersInto(sc: Strconv, obj: map<string, Value>, members: seq<Member>): map<string, Value>
    decreases members, 0
  {
    if members == [] then obj
    else MembersInto(sc, obj[members[0].key := ValueOf(sc, members[0].doc)], members[1..])
  }

  // ----- The reader -----

  datatype Outcome = Read(value: Value, rest: seq<Token>) | Rejected

  function ReadValue(sc: Strconv, tokens: seq<Token>, depth: nat): (r: Outcome)
    ensures r.Read? ==> |r.rest| < |tokens|
    decreases |tokens|, 0
  {
    if tokens == [] then Rejected
    else match tokens[0]
      case BeginObject => if depth >= MAX_DEPTH then Rejected else ReadMembers(sc, tokens[1..], depth, map[])
      case BeginArray => if depth >= MAX_DEPTH then Rejected else ReadItems(sc, tokens[1..], depth, [])
      case NumberToken(text) =>
        (match InteractionNumber(sc, text) case Some(n) => Read(Num(n), tokens[1..]) case None => Rejected)
      case StringToken(s) => Read(Str(s), tokens[1..])
      case BoolToken(b) => Read(Bool(b), tokens[1..])
      case NullToken => Read(Null, tokens[1..])
      case _ => Rejected
  }

  function ReadMembers(sc: Strconv, tokens: seq<Token>, depth: nat, obj: map<string, Value>): (r: Outcome)
    ensures r.Read? ==> |r.rest| < |tokens|
    decreases |tokens|
  {
    if tokens == [] then Rejected
    else match tokens[0]
      case EndObject => Read(Obj(obj), tokens[1..])
      case StringToken(key) =>
        if key in obj then Rejected
        else (match ReadValue(sc, tokens[1..], depth + 1)
              case Rejected => Rejected
              case Read(value, rest) => ReadMembers(sc, rest, depth, obj[key := value]))
      case _ => Rejected
  }

  function ReadItems(sc: Strconv, tokens: seq<Token>, depth: nat, items: seq<Value>): (r: Outcome)
    ensures r.Read? ==> |r.rest| < |tokens|
    decreases |tokens|, 1
  {
    if tokens == [] then Rejected
    else if tokens[0] == EndArray then Read(Arr(items), tokens[1..])
    else if tokens[0] == EndObject then Rejected
    else match ReadValue(sc, tokens, depth + 1)
      case Rejected => Rejected
      case Read(value, rest) => ReadItems(sc, rest, depth, items + [value])
  }

  /** The whole stream is one value: what the reader and the end-of-input check accept. */
  function ReadAll(sc: Strconv, tokens: seq<Token>): Option<Value> {
    match ReadValue(sc, tokens, 0)
    case Rejected => None
    case Read(value, rest) => if rest == [] then Some(value) else None
  }

  // ----- Everything acceptable is read -----

  /** No key of `members` repeats, and none is in `keys`. */
  predicate Fresh(keys: set<string>, members: seq<Member>)
    decreases |members|
  {
    members == [] || (members[0].key !in keys && Fresh(keys + {members[0].key}, members[1..]))
  }

  lemma {:induction false} FreshMeansDistinct(keys: set<string>, members: seq<Member>)
    ensures Fresh(keys, members)
            <==> NoDuplicateKeys(members) && forall i :: 0 <= i < |members| ==> members[i].key !in keys
    decreases |members|
  {
    if members != [] {
      var rest := members[1..];
      FreshMeansDistinct(keys + {members[0].key}, rest);
      assert forall i :: 0 <= i < |rest| ==> rest[i] == members[i + 1];
      assert forall i :: 1 <= i < |members| ==> members[i] == rest[i - 1];
    }
  }

  lemma {:induction false} ReadsTree(sc: Strconv, d: Doc, depth: nat, rest: seq<Token>)
    requires depth <= MAX_DEPTH && Acceptable(sc, d, MAX_DEPTH - depth)
    ensures ReadValue(sc, Tokens(d) + rest, depth) == Read(ValueOf(sc, d), rest)
    decreases d, 1
  {
    var tokens := Tokens(d) + rest;
    match d
    case DArr(items) =>
      assert tokens[1..] == ItemsTokens(items) + ([EndArray] + rest);
      ReadsItems(sc, [], items, depth, rest);
      assert [] + ItemsValue(sc, items) == ItemsValue(sc, items);
    case DObj(members) =>
      assert tokens[1..] == MembersTokens(members) + ([EndObject] + rest);
      var none: map<string, Value> := map[];
      assert none.Keys == {};
      FreshMeansDistinct({}, members);
      ReadsMembers(sc, none, members, depth, rest);
    case _ => assert tokens[1..] == rest;
  }

  lemma ItemsTokensCons(items: seq<Doc>, tail: seq<Token>)
    requires items != []
    ensures ItemsTokens(items) + tail == Tokens(items[0]) + (ItemsTokens(items[1..]) + tail)
    ensures Tokens(items[0])[0] != EndArray && Tokens(items[0])[0] != EndObject
  {
  }

  lemma {:induction false} ReadsItems(sc: Strconv, done: seq<Value>, items: seq<Doc>, depth: nat, rest: seq<Token>)
    requires depth < MAX_DEPTH
    requires forall i :: 0 <= i < |items| ==> Acceptable(sc, items[i], MAX_DEPTH - depth - 1)
    ensures ReadItems(sc, ItemsTokens(items) + ([EndArray] + rest), depth, done)
            == Read(Arr(done + ItemsValue(sc, items)), rest)
    decreases items, 0
  {
    var tail := [EndArray] + rest;
    if items == [] {
      assert ItemsTokens(items) + tail == tail && done + ItemsValue(sc, items) == done;
    } else {
      ItemsTokensCons(items, tail);
      ReadsTree(sc, items[0], depth + 1, ItemsTokens(items[1..]) + tail);
      ReadsItems(sc, done + [ValueOf(sc, items[0])], items[1..], depth, rest);
      assert done + ItemsValue(sc, items) == done + [ValueOf(sc, items[0])] + ItemsValue(sc, items[1..]);
    }
  }

  lemma MembersTokensCons(members: seq<Member>, tail: seq<Token>)
    requires members != []
    ensures MembersTokens(members) + tail
            == [StringToken(members[0].key)] + (Tokens(members[0].doc) + (MembersTokens(members[1..]) + tail))
  {
  }

  /** Reading one member and going on. */
  lemma OneMember(sc: Strconv, key: string, tokens: seq<Token>, value: Value, after: seq<Token>, depth: nat,
                  obj: map<string, Value>)
    requires key !in obj && ReadValue(sc, tokens, depth + 1) == Read(value, after)
    ensures ReadMembers(sc, [StringToken(key)] + tokens, depth, obj) == ReadMembers(sc, after, depth, obj[key := value])
  {
    assert ([StringToken(key)] + tokens)[1..] == tokens;
  }

  lemma {:induction false} ReadsMembers(sc: Strconv, obj: map<string, Value>, members: seq<Member>, depth: nat,
                                        rest: seq<Token>)
    requires depth < MAX_DEPTH && Fresh(obj.Keys, members)
    requires forall i :: 0 <= i < |members| ==> Acceptable(sc, members[i].doc, MAX_DEPTH - depth - 1)
    ensures ReadMembers(sc, MembersTokens(members) + ([EndObject] + rest), depth, obj)
            == Read(Obj(MembersInto(sc, obj, members)), rest)
    decreases members, 0
  {
    var tail := [EndObject] + rest;
    if members == [] {
      assert MembersTokens(members) + tail == tail;
    } else {
      var m := members[0];
      var more := obj[m.key := ValueOf(sc, m.doc)];
      MembersTokensCons(members, tail);
      ReadsTree(sc, m.doc, depth + 1, MembersTokens(members[1..]) + tail);
      OneMember(sc, m.key, Tokens(m.doc) + (MembersTokens(members[1..]) + tail), ValueOf(sc, m.doc),
                MembersTokens(members[1..]) + tail, depth, obj);
      assert more.Keys == obj.Keys + {m.key};
      ReadsMembers(sc, more, members[1..], depth, rest);
    }
  }

  // ----- Everything read is acceptable -----

  lemma {:induction false} ReadIsTree(sc: Strconv, tokens: seq<Token>, depth: nat) returns (d: Doc)
    requires depth <= MAX_DEPTH && ReadValue(sc, tokens, depth).Read?
    ensures Acceptable(sc, d, MAX_DEPTH - depth)
    ensures ReadValue(sc, tokens, depth).value == ValueOf(sc, d)
    ensures tokens == Tokens(d) + ReadValue(sc, tokens, depth).rest
    decreases |tokens|, 0
  {
    assert tokens == [tokens[0]] + tokens[1..];
    match tokens[0]
    case BeginObject =>
      var none: map<string, Value> := map[];
      assert none.Keys == {};
      var members := ReadIsMembers(sc, tokens[1..], depth, none);
      FreshMeansDistinct({}, members);
      d := DObj(members);
    case BeginArray =>
      var items := ReadIsItems(sc, tokens[1..], depth, []);
      assert [] + ItemsValue(sc, items) == ItemsValue(sc, items);
      d := DArr(items);
    case NumberToken(text) => d := DNum(text);
    case StringToken(s) => d := DStr(s);
    case BoolToken(b) => d := DBool(b);
    case NullToken => d := DNull;
  }

  /** How reading the members goes on after one of them. */
  lemma MembersGoOn(sc: Strconv, tokens: seq<Token>, depth: nat, obj: map<string, Value>)
    requires ReadMembers(sc, tokens, depth, obj).Read? && tokens[0] != EndObject
    ensures tokens[0].StringToken? && tokens[0].s !in obj && ReadValue(sc, tokens[1..], depth + 1).Read?
    ensures var first := ReadValue(sc, tokens[1..], depth + 1);
            ReadMembers(sc, tokens, depth, obj) == ReadMembers(sc, first.rest, depth, obj[tokens[0].s := first.value])
  {
  }

  lemma {:induction false} ReadIsMembers(sc: Strconv, tokens: seq<Token>, depth: nat, obj: map<string, Value>)
      returns (members: seq<Member>)
    requires depth < MAX_DEPTH && ReadMembers(sc, tokens, depth, obj).Read?
    ensures Fresh(obj.Keys, members)
    ensures forall i :: 0 <= i < |members| ==> Acceptable(sc, members[i].doc, MAX_DEPTH - depth - 1)
    ensures ReadMembers(sc, tokens, depth, obj).value == Obj(MembersInto(sc, obj, members))
    ensures tokens == MembersTokens(members) + ([EndObject] + ReadMembers(sc, tokens, depth, obj).rest)
    decreases |tokens|, 1
  {
    if tokens[0] == EndObject {
      members := [];
    } else {
      MembersGoOn(sc, tokens, depth, obj);
      var key, first := tokens[0].s, ReadValue(sc, tokens[1..], depth + 1);
      var more := obj[key := first.value];
      var d := ReadIsTree(sc, tokens[1..], depth + 1);
      var rest := ReadIsMembers(sc, first.rest, depth, more);
      members := [Member(key, d)] + rest;
      hide ReadMembers, ReadValue, Tokens;
      assert members[1..] == rest && more.Keys == obj.Keys + {key};
      assert tokens == [tokens[0]] + tokens[1..];
      MembersTokensCons(members, [EndObject] + ReadMembers(sc, tokens, depth, obj).rest);
    }
  }

  lemma ItemsGoOn(sc: Strconv, tokens: seq<Token>, depth: nat, items: seq<Value>)
    requires ReadItems(sc, tokens, depth, items).Read? && tokens[0] != EndArray
    ensures ReadValue(sc, tokens, depth + 1).Read?
    ensures var first := ReadValue(sc, tokens, depth + 1);
            ReadItems(sc, tokens, depth, items) == ReadItems(sc, first.rest, depth, items + [first.value])
  {
  }

  lemma {:induction false} ReadIsItems(sc: Strconv, tokens: seq<Token>, depth: nat, done: seq<Value>)
      returns (items: seq<Doc>)
    requires depth < MAX_DEPTH && ReadItems(sc, tokens, depth, done).Read?
    ensures forall i :: 0 <= i < |items| ==> Acceptable(sc, items[i], MAX_DEPTH - depth - 1)
    ensures ReadItems(sc, tokens, depth, done).value == Arr(done + ItemsValue(sc, items))
    ensures tokens == ItemsTokens(items) + ([EndArray] + ReadItems(sc, tokens, depth, done).rest)
    decreases |tokens|, 1
  {
    if tokens[0] == EndArray {
      items := [];
      assert done + ItemsValue(sc, items) == done;
    } else {
      ItemsGoOn(sc, tokens, depth, done);
      var first := ReadValue(sc, tokens, depth + 1);
      var d := ReadIsTree(sc, tokens, depth + 1);
      var rest := ReadIsItems(sc, first.rest, depth, done + [first.value]);
      items := [d] + rest;
      assert items[1..] == rest;
      assert done + ItemsValue(sc, items) == done + [first.value] + ItemsValue(sc, rest);
      ItemsTokensCons(items, [EndArray] + ReadItems(sc, tokens, depth, done).rest);
    }
  }

  /** A token stream is accepted exactly when it is the tokenisation of a tree with at most 64
      nested containers, no duplicate keys in any object and safe numbers; the result is that tree. */
  lemma AcceptsExactlyTrees(sc: Strconv, tokens: seq<Token>)
    ensures ReadAll(sc, tokens).Some? <==> exists d :: Tokens(d) == tokens && Acceptable(sc, d, MAX_DEPTH)
    ensures forall d :: Tokens(d) == tokens && Acceptable(sc, d, MAX_DEPTH) ==>
              ReadAll(sc, tokens) == Some(ValueOf(sc, d))
  {
    forall d | Tokens(d) == tokens && Acceptable(sc, d, MAX_DEPTH) ensures ReadAll(sc, tokens) == Some(ValueOf(sc, d)) {
      ReadsTree(sc, d, 0, []);
      assert tokens + [] == tokens;
    }
    if ReadAll(sc, tokens).Some? {
      var d := ReadIsTree(sc, tokens, 0);
      assert Tokens(d) + [] == tokens;
    }
  }

  // ----- The reader as it runs: a decoder with a position -----

  class Decoder {
    const tokens: seq<Token>
    var pos: nat

    ghost predicate Valid()
      reads this
    {
      pos <= |tokens|
    }

    ghost function Rest(): seq<Token>
      reads this
      requires Valid()
    {
      tokens[pos..]
    }

    constructor (tokens: seq<Token>)
      ensures Valid() && Rest() == tokens
    {
      this.tokens := tokens;
      pos := 0;
    }

    /** The next token, or nothing at the end of the input and where the decoder reports an error. */
    method Token() returns (t: Option<Token>)
      requires Valid()
      modifies this`pos
      ensures Valid()
      ensures t.Some? <==> old(Rest()) != [] && !old(Rest())[0].ErrorToken?
      ensures t.Some? ==> t.value == old(Rest())[0] && Rest() == old(Rest())[1..]
    {
      if pos == |tokens| || tokens[pos].ErrorToken? {
        return None;
      }
      t := Some(tokens[pos]);
      pos := pos + 1;
    }

    predicate More()
      reads this
      requires Valid()
    {
      pos < |tokens| && !tokens[pos].EndObject? && !tokens[pos].EndArray?
    }

    /** The token after the last element: the decoder itself refuses a closer that does not match. */
    method Closer(expected: Token) returns (ok: bool)
      requires Valid()
      modifies this`pos
      ensures Valid()
      ensures ok <==> old(Rest()) != [] && old(Rest())[0] == expected && !expected.ErrorToken?
      ensures ok ==> Rest() == old(Rest())[1..]
    {
      var t := Token();
      ok := t == Some(expected);
    }
  }

  method ReadInteractionJson(sc: Strconv, dec: Decoder, depth: nat) returns (r: Option<Value>)
    requires dec.Valid()
    modifies dec`pos
    ensures dec.Valid()
    ensures match ReadValue(sc, old(dec.Rest()), depth)
            case Rejected => r.None?
            case Read(value, rest) => r == Some(value) && dec.Rest() == rest
    decreases |dec.tokens| - dec.pos, 0
  {
    var token := dec.Token();
    if token.None? {
      return None;
    }
    match token.value {
      case BeginObject =>
        if depth >= MAX_DEPTH {
          return None;
        }
        r := ReadObject(sc, dec, depth);
      case BeginArray =>
        if depth >= MAX_DEPTH {
          return None;
        }
        r := ReadArray(sc, dec, depth);
      case NumberToken(text) =>
        var n := InteractionNumber(sc, text);
        r := if n.Some? then Some(Num(n.value)) else None;
      case StringToken(s) => r := Some(Str(s));
      case BoolToken(b) => r := Some(Bool(b));
      case NullToken => r := Some(Null);
      case _ => r := None;
    }
  }

  method ReadObject(sc: Strconv, dec: Decoder, depth: nat) returns (r: Option<Value>)
    requires dec.Valid()
    modifies dec`pos
    ensures dec.Valid()
    ensures match ReadMembers(sc, old(dec.Rest()), depth, map[])
            case Rejected => r.None?
            case Read(value, rest) => r == Some(value) && dec.Rest() == rest
    decreases |dec.tokens| - dec.pos
  {
    var obj: map<string, Value> := map[];
    while dec.More()
      invariant dec.Valid() && dec.pos >= old(dec.pos)
      invariant ReadMembers(sc, dec.Rest(), depth, obj) == ReadMembers(sc, old(dec.Rest()), depth, map[])
      decreases |dec.tokens| - dec.pos
    {
      var keyToken := dec.Token();
      if keyToken.None? || !keyToken.value.StringToken? {
        return None;
      }
      var key := keyToken.value.s;
      if key in obj {
        return None;
      }
      var value := ReadInteractionJson(sc, dec, depth + 1);
      if value.None? {
        return None;
      }
      obj := obj[key := value.value];
    }
    var closed := dec.Closer(EndObject);
    r := if closed then Some(Obj(obj)) else None;
  }

  method ReadArray(sc: Strconv, dec: Decoder, depth: nat) returns (r: Option<Value>)
    requires dec.Valid()
    modifies dec`pos
    ensures dec.Valid()
    ensures match ReadItems(sc, old(dec.Rest()), depth, [])
            case Rejected => r.None?
            case Read(value, rest) => r == Some(value) && dec.Rest() == rest
    decreases |dec.tokens| - dec.pos, 1
  {
    var items: seq<Value> := [];
    while dec.More()
      invariant dec.Valid() && dec.pos >= old(dec.pos)
      invariant ReadItems(sc, dec.Rest(), depth, items) == ReadItems(sc, old(dec.Rest()), depth, [])
      decreases |dec.tokens| - dec.pos
    {
      var value := ReadInteractionJson(sc, dec, depth + 1);
      if value.None? {
        return None;
      }
      items := items + [value.value];
    }
    var closed := dec.Closer(EndArray);
    r := if closed then Some(Arr(items)) else None;
  }
}
