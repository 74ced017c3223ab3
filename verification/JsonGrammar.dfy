/**
 JSON texts by their grammar (RFC 8259): a source is accepted exactly when, white space aside, it is the text of a tree.
 */
module JsonGrammar {
  import opened Sequences
  import opened JsonText
  import opened Reader
  import opened Decoding

  // ----- The grammar -----

  /** `ls` is a text of `d`. */
  ghost predicate TextOf(ls: seq<Lexeme>, d: Doc)
    decreases d, 1
  {
    match d
    case DNull => ls == [Word("null")]
    case DBool(b) => ls == [Word(if b then "true" else "false")]
    case DNum(text) => ls == [Number(text)]
    case DStr(s) => |ls| == 1 && ls[0].Literal? && Decode(ls[0].items).0 == s
    case DArr(items) => exists inner :: ItemsText(inner, items) && ls == [OpenArray] + inner + [CloseArray]
    case DObj(members) => exists inner :: MembersText(inner, members) && ls == [OpenObject] + inner + [CloseObject]
  }

  function Separator(n: nat): seq<Lexeme> {
    if n > 1 then [Comma] else []
  }

  ghost predicate ItemsText(ls: seq<Lexeme>, items: seq<Doc>)
    decreases items, 0
  {
    if items == [] then ls == []
    else exists first, rest ::
        TextOf(first, items[0]) && ItemsText(rest, items[1..]) && ls == first + Separator(|items|) + rest
  }

  ghost predicate MembersText(ls: seq<Lexeme>, members: seq<Member>)
    decreases members, 0
  {
    if members == [] then ls == []
    else exists key, first, rest ::
        && Names(key, members[0].key) && TextOf(first, members[0].doc)
        && MembersText(rest, members[1..])
        && ls == [Literal(key), Colon] + first + Separator(|members|) + rest
  }

  /** The literal spells the key. */
  predicate Names(items: seq<Item>, key: string) {
    Decode(items).0 == key
  }

  predicate NoSpace(ls: seq<Lexeme>) {
    forall i :: 0 <= i < |ls| ==> !ls[i].Space?
  }

  predicate Clean(ls: seq<Lexeme>) {
    NoSpace(ls) && GoodText(ls)
  }

  lemma CleanTail(a: seq<Lexeme>, b: seq<Lexeme>)
    requires Clean(a + b)
    ensures Clean(b)
  {
    assert forall i :: 0 <= i < |b| ==> b[i] == (a + b)[|a| + i];
  }

  lemma CleanRest(ls: seq<Lexeme>, n: nat)
    requires Clean(ls) && n <= |ls|
    ensures Clean(ls[n..])
  {
    assert ls == ls[..n] + ls[n..];
    CleanTail(ls[..n], ls[n..]);
  }

  /** The lexemes other than white space. */
  function Compact(ls: seq<Lexeme>): seq<Lexeme> {
    if ls == [] then [] else (if ls[0].Space? then [] else [ls[0]]) + Compact(ls[1..])
  }

  lemma {:induction false} CompactHasNoSpace(ls: seq<Lexeme>)
    ensures NoSpace(Compact(ls)) && (GoodText(ls) ==> GoodText(Compact(ls)))
  {
    if ls != [] {
      CompactHasNoSpace(ls[1..]);
    }
  }

  lemma {:induction false} SpaceIsSkipped(ls: seq<Lexeme>, e: Expecting, stack: seq<Expecting>)
    ensures TokensFrom(ls, e, stack) == TokensFrom(Compact(ls), e, stack)
  {
    if ls != [] {
      match Transition(ls[0], e, stack)
      case Refused => assert Compact(ls)[0] == ls[0];
      case Move(tokens, e', stack') =>
        SpaceIsSkipped(ls[1..], e', stack');
        if ls[0].Space? {
          assert Compact(ls) == Compact(ls[1..]);
          assert [] + TokensFrom(ls[1..], e, stack) == TokensFrom(ls[1..], e, stack);
        } else {
          assert Compact(ls)[0] == ls[0] && Compact(ls)[1..] == Compact(ls[1..]);
        }
    }
  }

  // ----- From tokens to the grammar -----

  lemma {:induction false} ScalarText(ls: seq<Lexeme>, e: Expecting, stack: seq<Expecting>, d: Doc, rest: seq<Token>)
    requires Clean(ls) && ValueAllowed(e) && !d.DArr? && !d.DObj?
    requires TokensFrom(ls, e, stack) == Tokens(d) + rest
    ensures ls != [] && TextOf([ls[0]], d) && TokensFrom(ls[1..], AfterValue(e), stack) == rest
  {
    FirstToken(ls, e, stack, Tokens(d)[0], rest);
    assert GoodLexeme(ls[0]);
  }

  /** A token that is not an error comes from the first lexeme, where a value is expected. */
  lemma FirstToken(ls: seq<Lexeme>, e: Expecting, stack: seq<Expecting>, t: Token, rest: seq<Token>)
    requires Clean(ls) && ValueAllowed(e) && t != ErrorToken && TokensFrom(ls, e, stack) == [t] + rest
    ensures ls != []
    ensures match Transition(ls[0], e, stack)
            case Refused => false
            case Move(tokens, e', stack') => tokens == [t] && TokensFrom(ls[1..], e', stack') == rest
  {
    assert ([t] + rest)[0] == t;
    match Transition(ls[0], e, stack)
    case Refused =>
    case Move(tokens, e', stack') =>
      assert |tokens| == 1;
      assert ([t] + rest)[1..] == rest
             && (tokens + TokensFrom(ls[1..], e', stack'))[1..] == TokensFrom(ls[1..], e', stack');
  }

  /** What a container's text must go on with. */
  lemma Regroup3(a: seq<Token>, b: seq<Token>, c: seq<Token>, rest: seq<Token>)
    ensures a + b + c + rest == a + (b + (c + rest))
  {
  }

  lemma OpensArray(ls: seq<Lexeme>, e: Expecting, stack: seq<Expecting>, items: seq<Doc>, rest: seq<Token>)
    requires Clean(ls) && ValueAllowed(e) && TokensFrom(ls, e, stack) == Tokens(DArr(items)) + rest
    ensures ls != [] && ls[0] == OpenArray
    ensures TokensFrom(ls[1..], ArrayStart, [e] + stack) == ItemsTokens(items) + ([EndArray] + rest)
  {
    hide TokensFrom, ItemsTokens;
    Regroup3([BeginArray], ItemsTokens(items), [EndArray], rest);
    FirstToken(ls, e, stack, BeginArray, ItemsTokens(items) + ([EndArray] + rest));
  }

  lemma OpensObject(ls: seq<Lexeme>, e: Expecting, stack: seq<Expecting>, members: seq<Member>, rest: seq<Token>)
    requires Clean(ls) && ValueAllowed(e) && TokensFrom(ls, e, stack) == Tokens(DObj(members)) + rest
    ensures ls != [] && ls[0] == OpenObject
    ensures TokensFrom(ls[1..], ObjectStart, [e] + stack) == MembersTokens(members) + ([EndObject] + rest)
  {
    hide TokensFrom, MembersTokens;
    Regroup3([BeginObject], MembersTokens(members), [EndObject], rest);
    FirstToken(ls, e, stack, BeginObject, MembersTokens(members) + ([EndObject] + rest));
  }

  /** Tokens of a tree, where a value is expected, come from a text of that tree. */
  lemma {:induction false} TokensAreText(ls: seq<Lexeme>, e: Expecting, stack: seq<Expecting>, d: Doc, rest: seq<Token>)
    returns (a: seq<Lexeme>, b: seq<Lexeme>)
    requires Clean(ls) && ValueAllowed(e) && TokensFrom(ls, e, stack) == Tokens(d) + rest
    ensures ls == a + b && TextOf(a, d) && TokensFrom(b, AfterValue(e), stack) == rest
    decreases d, 1
  {
    hide TokensFrom, Tokens, Clean, Decode, ItemsText, MembersText, AfterValue;
    match d
    case DArr(items) =>
      OpensArray(ls, e, stack, items, rest);
      CleanRest(ls, 1);
      var inner;
      inner, b := TokensAreItems(ls[1..], ArrayStart, e, stack, items, rest);
      a := [OpenArray] + inner + [CloseArray];
      assert ls == [OpenArray] + (inner + ([CloseArray] + b));
    case DObj(members) =>
      OpensObject(ls, e, stack, members, rest);
      CleanRest(ls, 1);
      var inner;
      inner, b := TokensAreMembers(ls[1..], ObjectStart, e, stack, members, rest);
      a := [OpenObject] + inner + [CloseObject];
      assert ls == [OpenObject] + (inner + ([CloseObject] + b));
    case _ =>
      ScalarText(ls, e, stack, d, rest);
      a, b := [ls[0]], ls[1..];
  }

  /** After an item only a comma or the end of the array can follow. */
  lemma AfterItem(ls: seq<Lexeme>, stack: seq<Expecting>, outer: Expecting, t: Token, rest: seq<Token>)
    requires Clean(ls) && t != ErrorToken && TokensFrom(ls, ArrayComma, [outer] + stack) == [t] + rest
    ensures ls != []
    ensures t == EndArray ==> ls[0] == CloseArray && TokensFrom(ls[1..], AfterValue(outer), stack) == rest
    ensures t != EndArray ==> ls[0] == Comma && TokensFrom(ls[1..], ArrayValue, [outer] + stack) == [t] + rest
  {
    assert ([t] + rest)[0] == t && ([t] + rest)[1..] == rest && ([outer] + stack)[1..] == stack;
    if ls[0].Comma? {
      NoValueNoClose(ls[1..], [outer] + stack, t, rest);
    }
  }

  /** Right after a comma the array does not end. */
  lemma NoValueNoClose(ls: seq<Lexeme>, stack: seq<Expecting>, t: Token, rest: seq<Token>)
    requires Clean(ls) && t != ErrorToken && TokensFrom(ls, ArrayValue, stack) == [t] + rest
    ensures t != EndArray
  {
    FirstToken(ls, ArrayValue, stack, t, rest);
  }

  lemma {:induction false} TokensAreItems(ls: seq<Lexeme>, e: Expecting, outer: Expecting, stack: seq<Expecting>,
                                          items: seq<Doc>, rest: seq<Token>)
    returns (inner: seq<Lexeme>, b: seq<Lexeme>)
    requires Clean(ls) && (e.ArrayStart? || (e.ArrayValue? && items != []))
    requires TokensFrom(ls, e, [outer] + stack) == ItemsTokens(items) + ([EndArray] + rest)
    ensures ls == inner + ([CloseArray] + b) && ItemsText(inner, items)
    ensures TokensFrom(b, AfterValue(outer), stack) == rest
    decreases items, 0
  {
    hide TokensFrom, Clean, TextOf, ItemsText, ItemsTokens, Tokens;
    if items == [] {
      b := ArrayStops(ls, e, outer, stack, rest);
      inner := [];
      NothingBuilt();
    } else {
      var later := ItemsTokens(items[1..]) + ([EndArray] + rest);
      ItemsTokensCons(items, [EndArray] + rest);
      var first, after := TokensAreText(ls, e, [outer] + stack, items[0], later);
      CleanTail(first, after);
      var others := [];
      if |items| == 1 {
        LastItem(items[1..], [EndArray] + rest);
        AfterItem(after, stack, outer, EndArray, rest);
        b := after[1..];
      } else {
        var t, tail := ItemStarts(items[1..], [EndArray] + rest);
        AfterItem(after, stack, outer, t, tail);
        CleanRest(after, 1);
        others, b := TokensAreItems(after[1..], ArrayValue, outer, stack, items[1..], rest);
      }
      inner := first + Separator(|items|) + others;
      ItemsBuilt(items, first, others);
      Assembled(first, after, |items|, others, [CloseArray] + b);
    }
  }

  lemma NothingBuilt()
    ensures ItemsText([], []) && MembersText([], [])
  {
  }

  lemma ItemsBuilt(items: seq<Doc>, first: seq<Lexeme>, others: seq<Lexeme>)
    requires items != [] && TextOf(first, items[0])
    requires if |items| == 1 then others == [] else ItemsText(others, items[1..])
    ensures ItemsText(first + Separator(|items|) + others, items)
  {
    hide TextOf;
    if |items| == 1 {
      assert items[1..] == [];
      NothingBuilt();
    }
  }

  lemma MembersBuilt(members: seq<Member>, key: seq<Item>, first: seq<Lexeme>, others: seq<Lexeme>)
    requires members != [] && Names(key, members[0].key) && TextOf(first, members[0].doc)
    requires if |members| == 1 then others == [] else MembersText(others, members[1..])
    ensures MembersText([Literal(key), Colon] + first + Separator(|members|) + others, members)
  {
    hide TextOf, Names;
    if |members| == 1 {
      assert members[1..] == [];
      NothingBuilt();
    }
  }

  lemma Assembled(first: seq<Lexeme>, after: seq<Lexeme>, n: nat, others: seq<Lexeme>, tail: seq<Lexeme>)
    requires after != [] && (n > 1 ==> after[0] == Comma && after[1..] == others + tail)
    requires n <= 1 ==> others == [] && after == tail
    ensures first + after == first + Separator(n) + others + tail
  {
    if n > 1 {
      assert after == [Comma] + (others + tail);
    }
  }

  lemma LastItem(items: seq<Doc>, rest: seq<Token>)
    requires items == []
    ensures ItemsTokens(items) + rest == rest
  {
  }

  lemma ItemStarts(items: seq<Doc>, rest: seq<Token>) returns (t: Token, tail: seq<Token>)
    requires items != []
    ensures ItemsTokens(items) + rest == [t] + tail && t != ErrorToken && !t.EndArray? && !t.EndObject?
  {
    ItemsTokensCons(items, rest);
    t, tail := TreeStarts(items[0], items[1..], rest);
  }

  lemma ArrayStops(ls: seq<Lexeme>, e: Expecting, outer: Expecting, stack: seq<Expecting>, rest: seq<Token>)
    returns (b: seq<Lexeme>)
    requires Clean(ls) && e.ArrayStart?
    requires TokensFrom(ls, e, [outer] + stack) == ItemsTokens([]) + ([EndArray] + rest)
    ensures ls == [] + ([CloseArray] + b) && TokensFrom(b, AfterValue(outer), stack) == rest
  {
    hide TokensFrom;
    assert ItemsTokens([]) + ([EndArray] + rest) == [EndArray] + rest;
    FirstToken(ls, e, [outer] + stack, EndArray, rest);
    assert ([outer] + stack)[1..] == stack && ls == [CloseArray] + ls[1..];
    b := ls[1..];
  }

  /** A tree starts with a token that is no error and closes nothing. */
  lemma TreeStarts(d: Doc, items: seq<Doc>, rest: seq<Token>) returns (t: Token, tail: seq<Token>)
    ensures Tokens(d) + (ItemsTokens(items) + rest) == [t] + tail && t != ErrorToken && !t.EndArray? && !t.EndObject?
  {
    var all := Tokens(d) + (ItemsTokens(items) + rest);
    t, tail := Tokens(d)[0], all[1..];
    assert all[0] == t;
    hide ItemsTokens, MembersTokens;
  }

  // ----- Objects -----

  /** Where a key is expected, a string token comes from a literal, a colon, and what follows. */
  lemma KeyText(ls: seq<Lexeme>, e: Expecting, stack: seq<Expecting>, key: string, t: Token, rest: seq<Token>)
    requires Clean(ls) && (e.ObjectStart? || e.ObjectKey?) && t != ErrorToken
    requires TokensFrom(ls, e, stack) == [StringToken(key)] + ([t] + rest)
    ensures |ls| >= 2 && ls[0].Literal? && Names(ls[0].items, key) && ls[1] == Colon
    ensures TokensFrom(ls[2..], ObjectValue, stack) == [t] + rest
  {
    var all := [StringToken(key)] + ([t] + rest);
    assert all[0] == StringToken(key) && all[1..] == [t] + rest && ([t] + rest)[0] == t;
    var after := TokensFrom(ls[1..], ObjectColon, stack);
    assert ls[0].Literal?;
    assert ([ScalarToken(ls[0])] + after)[1..] == after;
    assert after == [t] + rest;
    assert ls[1..][1..] == ls[2..];
  }

  lemma AfterMember(ls: seq<Lexeme>, stack: seq<Expecting>, outer: Expecting, t: Token, rest: seq<Token>)
    requires Clean(ls) && t != ErrorToken && TokensFrom(ls, ObjectComma, [outer] + stack) == [t] + rest
    ensures ls != []
    ensures t == EndObject ==> ls[0] == CloseObject && TokensFrom(ls[1..], AfterValue(outer), stack) == rest
    ensures t != EndObject ==> ls[0] == Comma && TokensFrom(ls[1..], ObjectKey, [outer] + stack) == [t] + rest
  {
    assert ([t] + rest)[0] == t && ([t] + rest)[1..] == rest && ([outer] + stack)[1..] == stack;
    if ls[0].Comma? {
      NoKeyNoClose(ls[1..], [outer] + stack, t, rest);
    }
  }

  lemma NoKeyNoClose(ls: seq<Lexeme>, stack: seq<Expecting>, t: Token, rest: seq<Token>)
    requires Clean(ls) && t != ErrorToken && TokensFrom(ls, ObjectKey, stack) == [t] + rest
    ensures t != EndObject
  {
    assert ([t] + rest)[0] == t;
  }

  lemma ObjectStops(ls: seq<Lexeme>, stack: seq<Expecting>, outer: Expecting, rest: seq<Token>)
    requires Clean(ls) && TokensFrom(ls, ObjectStart, [outer] + stack) == [EndObject] + rest
    ensures ls != [] && ls[0] == CloseObject && TokensFrom(ls[1..], AfterValue(outer), stack) == rest
  {
    assert ([EndObject] + rest)[0] == EndObject && ([EndObject] + rest)[1..] == rest;
    assert ([outer] + stack)[1..] == stack;
    var after := TokensFrom(ls[1..], AfterValue(outer), stack);
    assert ([EndObject] + after)[1..] == after;
  }

  lemma {:induction false} TokensAreMembers(ls: seq<Lexeme>, e: Expecting, outer: Expecting, stack: seq<Expecting>,
                                            members: seq<Member>, rest: seq<Token>)
    returns (inner: seq<Lexeme>, b: seq<Lexeme>)
    requires Clean(ls) && (e.ObjectStart? || (e.ObjectKey? && members != []))
    requires TokensFrom(ls, e, [outer] + stack) == MembersTokens(members) + ([EndObject] + rest)
    ensures ls == inner + ([CloseObject] + b) && MembersText(inner, members)
    ensures TokensFrom(b, AfterValue(outer), stack) == rest
    decreases members, 0
  {
    hide TokensFrom, Clean, TextOf, MembersText, MembersTokens, Tokens, Names;
    if members == [] {
      NoMembers([EndObject] + rest);
      ObjectStops(ls, stack, outer, rest);
      inner, b := [], ls[1..];
      NothingBuilt();
      assert ls == [] + ([CloseObject] + b);
    } else {
      var m, later := members[0], MembersTokens(members[1..]) + ([EndObject] + rest);
      MembersTokensCons(members, [EndObject] + rest);
      KeyThenValue(ls, e, [outer] + stack, m, later);
      CleanRest(ls, 2);
      var first, after := TokensAreText(ls[2..], ObjectValue, [outer] + stack, m.doc, later);
      CleanTail(first, after);
      var others := [];
      if |members| == 1 {
        assert members[1..] == [];
        NoMembers([EndObject] + rest);
        AfterMember(after, stack, outer, EndObject, rest);
        b := after[1..];
      } else {
        MembersTokensCons(members[1..], [EndObject] + rest);
        var more := Tokens(members[1].doc) + (MembersTokens(members[1..][1..]) + ([EndObject] + rest));
        AfterMember(after, stack, outer, StringToken(members[1].key), more);
        CleanRest(after, 1);
        others, b := TokensAreMembers(after[1..], ObjectKey, outer, stack, members[1..], rest);
      }
      var key := [Literal(ls[0].items), Colon];
      inner := key + first + Separator(|members|) + others;
      MembersBuilt(members, ls[0].items, first, others);
      Assembled(key + first, after, |members|, others, [CloseObject] + b);
      Headed(ls, key, first, after);
    }
  }

  lemma Headed(ls: seq<Lexeme>, key: seq<Lexeme>, first: seq<Lexeme>, after: seq<Lexeme>)
    requires |ls| >= 2 && key == [ls[0], ls[1]] && ls[2..] == first + after
    ensures ls == key + first + after
  {
    assert ls == [ls[0], ls[1]] + ls[2..];
  }

  lemma NoMembers(rest: seq<Token>)
    ensures MembersTokens([]) + rest == rest
  {
  }

  lemma KeyThenValue(ls: seq<Lexeme>, e: Expecting, stack: seq<Expecting>, m: Member, later: seq<Token>)
    requires Clean(ls) && (e.ObjectStart? || e.ObjectKey?)
    requires TokensFrom(ls, e, stack) == [StringToken(m.key)] + (Tokens(m.doc) + later)
    ensures |ls| >= 2 && ls[0].Literal? && Names(ls[0].items, m.key) && ls[1] == Colon
    ensures TokensFrom(ls[2..], ObjectValue, stack) == Tokens(m.doc) + later
  {
    hide TokensFrom;
    var t, tail := TreeStarts(m.doc, [], later);
    assert ItemsTokens([]) + later == later;
    KeyText(ls, e, stack, m.key, t, tail);
  }

  // ----- From the grammar to tokens -----

  /** A text of a tree, where a value is expected, is read as the tokens of that tree. */
  lemma {:induction false} TextIsRead(a: seq<Lexeme>, b: seq<Lexeme>, e: Expecting, stack: seq<Expecting>, d: Doc)
    requires TextOf(a, d) && ValueAllowed(e)
    ensures TokensFrom(a + b, e, stack) == Tokens(d) + TokensFrom(b, AfterValue(e), stack)
    decreases d, 1
  {
    hide TokensFrom, ItemsText, MembersText, ItemsTokens, MembersTokens, Decode, AfterValue;
    var after := TokensFrom(b, AfterValue(e), stack);
    match d
    case DArr(items) =>
      var inner :| ItemsText(inner, items) && a == [OpenArray] + inner + [CloseArray];
      assert a + b == [OpenArray] + (inner + ([CloseArray] + b));
      OneLexeme(OpenArray, inner + ([CloseArray] + b), e, stack);
      ItemsAreTokens(inner, b, ArrayStart, e, stack, items);
      Regroup3([BeginArray], ItemsTokens(items), [EndArray], after);
    case DObj(members) =>
      var inner :| MembersText(inner, members) && a == [OpenObject] + inner + [CloseObject];
      assert a + b == [OpenObject] + (inner + ([CloseObject] + b));
      OneLexeme(OpenObject, inner + ([CloseObject] + b), e, stack);
      MembersAreTokens(inner, b, ObjectStart, e, stack, members);
      Regroup3([BeginObject], MembersTokens(members), [EndObject], after);
    case _ =>
      assert a == [a[0]];
      OneScalar(a[0], b, e, stack);
  }

  lemma {:induction false} ItemsAreTokens(inner: seq<Lexeme>, b: seq<Lexeme>, e: Expecting, outer: Expecting,
                                          stack: seq<Expecting>, items: seq<Doc>)
    requires ItemsText(inner, items) && (e.ArrayStart? || (e.ArrayValue? && items != []))
    ensures TokensFrom(inner + ([CloseArray] + b), e, [outer] + stack)
            == ItemsTokens(items) + ([EndArray] + TokensFrom(b, AfterValue(outer), stack))
    decreases items, 0
  {
    hide TokensFrom, TextOf, Tokens, AfterValue, ItemsTokens;
    var tail, after := [CloseArray] + b, [EndArray] + TokensFrom(b, AfterValue(outer), stack);
    if items == [] {
      assert inner + tail == tail;
      LastItem(items, after);
      ArrayCloses(b, e, outer, stack);
    } else {
      var first, rest :| TextOf(first, items[0]) && ItemsText(rest, items[1..])
                         && inner == first + Separator(|items|) + rest;
      ItemsTokensCons(items, after);
      if |items| == 1 {
        NoItems(rest, items[1..]);
        assert inner + tail == first + tail;
        TextIsRead(first, tail, e, [outer] + stack, items[0]);
        LastItem(items[1..], after);
        AfterIsComma(e);
        ArrayCloses(b, ArrayComma, outer, stack);
      } else {
        assert inner + tail == first + ([Comma] + (rest + tail));
        TextIsRead(first, [Comma] + (rest + tail), e, [outer] + stack, items[0]);
        AfterIsComma(e);
        CommaRead(rest + tail, ArrayComma, [outer] + stack);
        ItemsAreTokens(rest, b, ArrayValue, outer, stack, items[1..]);
      }
    }
  }

  lemma AfterIsComma(e: Expecting)
    ensures e.ArrayStart? || e.ArrayValue? ==> AfterValue(e) == ArrayComma
    ensures AfterValue(ObjectValue) == ObjectComma
  {
  }

  lemma NoItems(ls: seq<Lexeme>, items: seq<Doc>)
    requires ItemsText(ls, items) && items == []
    ensures ls == []
  {
  }

  lemma NoneNamed(ls: seq<Lexeme>, members: seq<Member>)
    requires MembersText(ls, members) && members == []
    ensures ls == []
  {
  }

  lemma {:induction false} MembersAreTokens(inner: seq<Lexeme>, b: seq<Lexeme>, e: Expecting, outer: Expecting,
                                            stack: seq<Expecting>, members: seq<Member>)
    requires MembersText(inner, members) && (e.ObjectStart? || (e.ObjectKey? && members != []))
    ensures TokensFrom(inner + ([CloseObject] + b), e, [outer] + stack)
            == MembersTokens(members) + ([EndObject] + TokensFrom(b, AfterValue(outer), stack))
    decreases members, 0
  {
    hide TokensFrom, TextOf, Tokens, AfterValue, MembersTokens, Names;
    var tail, after := [CloseObject] + b, [EndObject] + TokensFrom(b, AfterValue(outer), stack);
    if members == [] {
      assert inner + tail == tail;
      NoMembers(after);
      ObjectCloses(b, e, outer, stack);
    } else {
      var m := members[0];
      var key, first, rest :| && Names(key, m.key) && TextOf(first, m.doc) && MembersText(rest, members[1..])
                              && inner == [Literal(key), Colon] + first + Separator(|members|) + rest;
      MembersTokensCons(members, after);
      AfterIsComma(ObjectValue);
      if |members| == 1 {
        NoneNamed(rest, members[1..]);
        assert inner + tail == [Literal(key), Colon] + (first + tail);
        NamedKeyRead(key, m.key, first + tail, e, [outer] + stack);
        TextIsRead(first, tail, ObjectValue, [outer] + stack, m.doc);
        assert members[1..] == [];
        NoMembers(after);
        ObjectCloses(b, ObjectComma, outer, stack);
      } else {
        var more := [Comma] + (rest + tail);
        assert inner + tail == [Literal(key), Colon] + (first + more);
        NamedKeyRead(key, m.key, first + more, e, [outer] + stack);
        TextIsRead(first, more, ObjectValue, [outer] + stack, m.doc);
        CommaRead(rest + tail, ObjectComma, [outer] + stack);
        MembersAreTokens(rest, b, ObjectKey, outer, stack, members[1..]);
      }
    }
  }

  lemma NamedKeyRead(items: seq<Item>, key: string, rest: seq<Lexeme>, e: Expecting, stack: seq<Expecting>)
    requires Names(items, key) && (e.ObjectStart? || e.ObjectKey?)
    ensures TokensFrom([Literal(items), Colon] + rest, e, stack)
            == [StringToken(key)] + TokensFrom(rest, ObjectValue, stack)
  {
    hide TokensFrom;
    assert [Literal(items), Colon] + rest == [Literal(items)] + ([Colon] + rest);
    OneLexeme(Literal(items), [Colon] + rest, e, stack);
    OneLexeme(Colon, rest, ObjectColon, stack);
  }

  // ----- Both together -----

  /** The tokens of a source are those of a tree exactly when, white space aside, the source is a text of it. */
  lemma TokensExactlyText(ls: seq<Lexeme>, d: Doc)
    requires GoodText(ls)
    ensures TokensOf(ls) == Tokens(d) <==> TextOf(Compact(ls), d)
  {
    hide TokensFrom, Tokens, TextOf, GoodText, Compact;
    var text := Compact(ls);
    CompactHasNoSpace(ls);
    SpaceIsSkipped(ls, TopValue, []);
    assert TokensOf(ls) == TokensFrom(text, TopValue, []);
    if TextOf(text, d) {
      TextIsRead(text, [], TopValue, [], d);
      assert text + [] == text;
      NothingLeft();
    }
    if TokensOf(ls) == Tokens(d) {
      assert Tokens(d) + [] == Tokens(d);
      var a, b := TokensAreText(text, TopValue, [], d, []);
      CleanTail(a, b);
      NothingMore(b);
      assert a + [] == a;
    }
  }

  lemma NothingLeft()
    ensures TokensFrom([], AfterValue(TopValue), []) == []
  {
  }

  lemma NothingMore(ls: seq<Lexeme>)
    requires Clean(ls) && TokensFrom(ls, AfterValue(TopValue), []) == []
    ensures ls == []
  {
  }
}
