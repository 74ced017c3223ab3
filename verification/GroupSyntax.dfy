/**
 Group syntax in a From header: the one-pass scanner with three variables, and the nested grammar
 of quoted strings and comments (RFC 5322 sections 3.2.2 and 3.2.4) it stands in for.
 */
module GroupSyntax {
  import opened Outcomes
  import opened Sequences
  import opened Utf8
  import Tx = Texts

  // ----- The grammar -----

  datatype QuotedItem = QuotedChar(c: char) | QuotedPair(c: char)

  datatype CommentItem = CommentChar(c: char) | CommentPair(c: char) | Nested(items: seq<CommentItem>)

  /** What a header is made of at its top level. */
  datatype Piece = Plain(c: char) | Colon | QuotedString(items: seq<QuotedItem>) | Comment(comment: seq<CommentItem>)

  predicate GoodQuoted(item: QuotedItem) {
    item.QuotedChar? ==> item.c != '"' && item.c != '\\'
  }

  predicate GoodComment(item: CommentItem) {
    match item
    case CommentChar(c) => c != '(' && c != ')' && c != '\\'
    case CommentPair(_) => true
    case Nested(items) => forall i :: 0 <= i < |items| ==> GoodComment(items[i])
  }

  predicate GoodPiece(piece: Piece) {
    match piece
    case Plain(c) => c != '"' && c != '(' && c != ':'
    case Colon => true
    case QuotedString(items) => forall i :: 0 <= i < |items| ==> GoodQuoted(items[i])
    case Comment(items) => forall i :: 0 <= i < |items| ==> GoodComment(items[i])
  }

  predicate GoodPieces(pieces: seq<Piece>) {
    forall i :: 0 <= i < |pieces| ==> GoodPiece(pieces[i])
  }

  function QuotedText(items: seq<QuotedItem>): string {
    if items == [] then ""
    else (if items[0].QuotedChar? then [items[0].c] else ['\\', items[0].c]) + QuotedText(items[1..])
  }

  function CommentItemText(item: CommentItem): string
    decreases item, 0
  {
    match item
    case CommentChar(c) => [c]
    case CommentPair(c) => ['\\', c]
    case Nested(items) => "(" + CommentText(items) + ")"
  }

  function CommentText(items: seq<CommentItem>): string
    decreases items, 1
  {
    if items == [] then "" else CommentItemText(items[0]) + CommentText(items[1..])
  }

  function PieceText(piece: Piece): string {
    match piece
    case Plain(c) => [c]
    case Colon => ":"
    case QuotedString(items) => "\"" + QuotedText(items) + "\""
    case Comment(items) => "(" + CommentText(items) + ")"
  }

  function Render(pieces: seq<Piece>): string {
    if pieces == [] then "" else PieceText(pieces[0]) + Render(pieces[1..])
  }

  // ----- The scanner -----

  datatype State = State(inQuotes: bool, parenDepth: nat, escaped: bool)

  const TOP := State(false, 0, false)
  const QUOTED := State(true, 0, false)

  function InComment(depth: nat): State {
    State(false, depth, false)
  }

  /** One character that does not end the scan. */
  function Step(s: State, r: char): State {
    if s.escaped then s.(escaped := false)
    else if r == '\\' && (s.inQuotes || s.parenDepth > 0) then s.(escaped := true)
    else if r == '"' && s.parenDepth == 0 then s.(inQuotes := !s.inQuotes)
    else if r == '(' && !s.inQuotes then s.(parenDepth := s.parenDepth + 1)
    else if r == ')' && !s.inQuotes && s.parenDepth > 0 then s.(parenDepth := s.parenDepth - 1)
    else s
  }

  predicate Stops(s: State, r: char) {
    !s.escaped && r == ':' && !s.inQuotes && s.parenDepth == 0
  }

  /** Does the scan that starts in state `s` find a delimiter in `text`? */
  predicate Finds(s: State, text: string)
    decreases |text|
  {
    text != [] && (Stops(s, text[0]) || Finds(Step(s, text[0]), text[1..]))
  }

  /** `containsGroupDelimiter`. */
  method ContainsGroupDelimiter(value: string) returns (found: bool)
    ensures found <==> Finds(TOP, value)
  {
    var inQuotes, parenDepth, escaped := false, 0, false;
    for i := 0 to |value|
      invariant parenDepth >= 0
      invariant Finds(TOP, value) <==> Finds(State(inQuotes, parenDepth, escaped), value[i..])
    {
      var r := value[i];
      assert value[i..][1..] == value[i + 1..];
      if escaped {
        escaped := false;
        continue;
      }
      if r == '\\' && (inQuotes || parenDepth > 0) {
        escaped := true;
      } else if r == '"' && parenDepth == 0 {
        inQuotes := !inQuotes;
      } else if r == '(' && !inQuotes {
        parenDepth := parenDepth + 1;
      } else if r == ')' && !inQuotes && parenDepth > 0 {
        parenDepth := parenDepth - 1;
      } else if r == ':' && !inQuotes && parenDepth == 0 {
        return true;
      }
    }
    found := false;
  }

  // ----- What is well formed is skipped -----

  lemma OneStep(s: State, c: char, rest: string)
    ensures Finds(s, [c] + rest) <==> Stops(s, c) || Finds(Step(s, c), rest)
  {
    assert ([c] + rest)[1..] == rest;
  }

  lemma TwoSteps(s: State, c: char, d: char, rest: string)
    requires !Stops(s, c) && !Stops(Step(s, c), d)
    ensures Finds(s, [c, d] + rest) <==> Finds(Step(Step(s, c), d), rest)
  {
    assert [c, d] + rest == [c] + ([d] + rest);
    OneStep(s, c, [d] + rest);
    OneStep(Step(s, c), d, rest);
  }

  lemma {:induction false} QuotedSkipped(items: seq<QuotedItem>, rest: string)
    requires forall i :: 0 <= i < |items| ==> GoodQuoted(items[i])
    ensures Finds(QUOTED, QuotedText(items) + rest) <==> Finds(QUOTED, rest)
  {
    hide Finds;
    if items == [] {
      assert QuotedText(items) + rest == rest;
    } else {
      var more := QuotedText(items[1..]);
      QuotedSkipped(items[1..], rest);
      var c := items[0].c;
      if items[0].QuotedChar? {
        Regrouped([c], more, rest);
        OneStep(QUOTED, c, more + rest);
      } else {
        Regrouped(['\\', c], more, rest);
        TwoSteps(QUOTED, '\\', c, more + rest);
      }
    }
  }

  lemma {:induction false} ItemSkipped(item: CommentItem, depth: nat, rest: string)
    requires depth > 0 && GoodComment(item)
    ensures Finds(InComment(depth), CommentItemText(item) + rest) <==> Finds(InComment(depth), rest)
    decreases item, 0
  {
    hide Finds;
    match item
    case CommentChar(c) => OneStep(InComment(depth), c, rest);
    case CommentPair(c) => TwoSteps(InComment(depth), '\\', c, rest);
    case Nested(items) =>
      Bracketed(CommentText(items), rest);
      OneStep(InComment(depth), '(', CommentText(items) + (")" + rest));
      CommentSkipped(items, depth + 1, ")" + rest);
      OneStep(InComment(depth + 1), ')', rest);
  }

  lemma Bracketed(text: string, rest: string)
    ensures ("(" + text + ")") + rest == "(" + (text + (")" + rest))
  {
  }

  lemma {:induction false} CommentSkipped(items: seq<CommentItem>, depth: nat, rest: string)
    requires depth > 0 && forall i :: 0 <= i < |items| ==> GoodComment(items[i])
    ensures Finds(InComment(depth), CommentText(items) + rest) <==> Finds(InComment(depth), rest)
    decreases items, 1
  {
    hide Finds;
    if items == [] {
      assert CommentText(items) + rest == rest;
    } else {
      Regrouped(CommentItemText(items[0]), CommentText(items[1..]), rest);
      ItemSkipped(items[0], depth, CommentText(items[1..]) + rest);
      CommentSkipped(items[1..], depth, rest);
    }
  }

  lemma PieceSkipped(piece: Piece, rest: string)
    requires GoodPiece(piece)
    ensures Finds(TOP, PieceText(piece) + rest) <==> piece.Colon? || Finds(TOP, rest)
  {
    hide Finds;
    match piece
    case Plain(c) => OneStep(TOP, c, rest);
    case Colon => OneStep(TOP, ':', rest);
    case QuotedString(items) =>
      assert "\"" + QuotedText(items) + "\"" + rest == "\"" + (QuotedText(items) + ("\"" + rest));
      OneStep(TOP, '"', QuotedText(items) + ("\"" + rest));
      QuotedSkipped(items, "\"" + rest);
      OneStep(QUOTED, '"', rest);
    case Comment(items) =>
      Bracketed(CommentText(items), rest);
      OneStep(TOP, '(', CommentText(items) + (")" + rest));
      CommentSkipped(items, 1, ")" + rest);
      OneStep(InComment(1), ')', rest);
  }

  lemma {:induction false} PiecesSkipped(pieces: seq<Piece>, rest: string)
    requires GoodPieces(pieces)
    ensures Finds(TOP, Render(pieces) + rest)
            <==> (exists i :: 0 <= i < |pieces| && pieces[i].Colon?) || Finds(TOP, rest)
  {
    hide Finds;
    if pieces == [] {
      assert Render(pieces) + rest == rest;
    } else {
      Regrouped(PieceText(pieces[0]), Render(pieces[1..]), rest);
      PieceSkipped(pieces[0], Render(pieces[1..]) + rest);
      PiecesSkipped(pieces[1..], rest);
      if exists i :: 0 <= i < |pieces[1..]| && pieces[1..][i].Colon? {
        var i :| 0 <= i < |pieces[1..]| && pieces[1..][i].Colon?;
        assert pieces[i + 1].Colon?;
      }
      assert forall i :: 1 <= i < |pieces| ==> pieces[i] == pieces[1..][i - 1];
    }
  }

  /** On every header of the grammar the scanner says true exactly when a colon stands at its top level. */
  lemma ScannerMatchesGrammar(pieces: seq<Piece>)
    requires GoodPieces(pieces)
    ensures Finds(TOP, Render(pieces)) <==> exists i :: 0 <= i < |pieces| && pieces[i].Colon?
  {
    PiecesSkipped(pieces, "");
    assert Render(pieces) + "" == Render(pieces);
    assert !Finds(TOP, "");
  }

  // ----- And on every other string -----

  /** If the scan leaves a quoted string, what it passed was well formed. */
  lemma {:induction false} QuotedPrefix(text: string) returns (items: seq<QuotedItem>, rest: string)
    requires Finds(QUOTED, text)
    ensures forall i :: 0 <= i < |items| ==> GoodQuoted(items[i])
    ensures text == QuotedText(items) + ("\"" + rest) && Finds(TOP, rest)
    decreases |text|
  {
    assert text == [text[0]] + text[1..];
    if text[0] == '"' {
      items, rest := [], text[1..];
    } else if text[0] == '\\' {
      assert text[1..] == [text[1]] + text[2..];
      assert Step(Step(QUOTED, '\\'), text[1]) == QUOTED;
      assert text[1..][1..] == text[2..];
      var more, after := QuotedPrefix(text[2..]);
      items, rest := [QuotedPair(text[1])] + more, after;
      Regrouped(['\\', text[1]], QuotedText(more), "\"" + rest);
      assert items[1..] == more;
    } else {
      var more, after := QuotedPrefix(text[1..]);
      items, rest := [QuotedChar(text[0])] + more, after;
      Regrouped([text[0]], QuotedText(more), "\"" + rest);
      assert items[1..] == more;
    }
  }

  lemma CommentCons(item: CommentItem, more: seq<CommentItem>, rest: string)
    ensures CommentText([item] + more) + (")" + rest) == CommentItemText(item) + (CommentText(more) + (")" + rest))
  {
    assert ([item] + more)[1..] == more;
    Regrouped(CommentItemText(item), CommentText(more), ")" + rest);
  }

  /** If the scan leaves a comment, what it passed was well formed. */
  lemma {:induction false} CommentPrefix(text: string, depth: nat) returns (items: seq<CommentItem>, rest: string)
    requires depth > 0 && Finds(InComment(depth), text)
    ensures forall i :: 0 <= i < |items| ==> GoodComment(items[i])
    ensures text == CommentText(items) + (")" + rest) && Finds(InComment(depth - 1), rest) && |rest| < |text|
    decreases |text|
  {
    var c := text[0];
    assert text == [c] + text[1..];
    if c == ')' {
      items, rest := [], text[1..];
    } else if c == '\\' {
      assert text[1..] == [text[1]] + text[2..];
      assert text[1..][1..] == text[2..];
      var more, after := CommentPrefix(text[2..], depth);
      items, rest := [CommentPair(text[1])] + more, after;
      CommentCons(CommentPair(text[1]), more, rest);
    } else if c == '(' {
      var inner, between := CommentPrefix(text[1..], depth + 1);
      var more, after := CommentPrefix(between, depth);
      items, rest := [Nested(inner)] + more, after;
      CommentCons(Nested(inner), more, rest);
      Bracketed(CommentText(inner), between);
    } else {
      var more, after := CommentPrefix(text[1..], depth);
      items, rest := [CommentChar(c)] + more, after;
      CommentCons(CommentChar(c), more, rest);
    }
  }

  lemma PieceCons(piece: Piece, more: seq<Piece>, rest: string)
    ensures Render([piece] + more) + (":" + rest) == PieceText(piece) + (Render(more) + (":" + rest))
  {
    assert ([piece] + more)[1..] == more;
    Regrouped(PieceText(piece), Render(more), ":" + rest);
  }

  lemma {:induction false} ColonPrefix(text: string) returns (pieces: seq<Piece>, rest: string)
    requires Finds(TOP, text)
    ensures GoodPieces(pieces) && text == Render(pieces) + (":" + rest)
    decreases |text|
  {
    var c := text[0];
    assert text == [c] + text[1..];
    if c == ':' {
      pieces, rest := [], text[1..];
    } else {
      var piece, between;
      if c == '"' {
        var items;
        items, between := QuotedPrefix(text[1..]);
        piece := QuotedString(items);
        assert "\"" + QuotedText(items) + "\"" + between == "\"" + (QuotedText(items) + ("\"" + between));
      } else if c == '(' {
        var items;
        items, between := CommentPrefix(text[1..], 1);
        piece := Comment(items);
        Bracketed(CommentText(items), between);
      } else {
        piece, between := Plain(c), text[1..];
      }
      var more, after := ColonPrefix(between);
      pieces, rest := [piece] + more, after;
      PieceCons(piece, more, rest);
    }
  }

  /** For every string whatever: the scanner says true exactly when, after a well-formed beginning, a colon
      stands at the top level. An unclosed quoted string or comment hides what follows it. */
  lemma ScannerIsExact(text: string)
    ensures Finds(TOP, text) <==> exists pieces, rest :: GoodPieces(pieces) && text == Render(pieces) + (":" + rest)
  {
    if Finds(TOP, text) {
      var pieces, rest := ColonPrefix(text);
    }
    if exists pieces, rest :: GoodPieces(pieces) && text == Render(pieces) + (":" + rest) {
      var pieces, rest :| GoodPieces(pieces) && text == Render(pieces) + (":" + rest);
      PiecesSkipped(pieces, ":" + rest);
      OneStep(TOP, ':', rest);
    }
  }

  // ----- The strict parser -----

  const MAX_HEADER_BYTES := 998

  datatype TrustError = FromHeaderInvalid | FromHeaderMultipleAddresses

  /** What the library does with the header: the addresses it lists, whether one is acceptable, and its lower case. */
  datatype Mail = Mail(parseAddressList: string -> Option<seq<string>>, addressSyntax: string -> bool,
                       lower: string -> string)

  /** `parseFromHeaderStrict`. */
  method ParseFromHeaderStrict(mail: Mail, value: string) returns (r: Result<string, TrustError>)
    ensures r == Strict(mail, value)
  {
    var trimmed := Tx.TrimSpace(value);
    if trimmed == "" || ByteLength(trimmed) > MAX_HEADER_BYTES {
      return Failure(FromHeaderInvalid);
    }
    var group := ContainsGroupDelimiter(trimmed);
    if group {
      return Failure(FromHeaderInvalid);
    }
    var addresses := mail.parseAddressList(trimmed);
    if addresses.None? || |addresses.value| == 0 {
      return Failure(FromHeaderInvalid);
    }
    if |addresses.value| > 1 {
      return Failure(FromHeaderMultipleAddresses);
    }
    var candidate := Tx.TrimSpace(addresses.value[0]);
    if !mail.addressSyntax(candidate) {
      return Failure(FromHeaderInvalid);
    }
    r := Success(mail.lower(candidate));
  }

  function Strict(mail: Mail, value: string): Result<string, TrustError> {
    var trimmed := Tx.TrimSpace(value);
    if trimmed == "" || ByteLength(trimmed) > MAX_HEADER_BYTES || Finds(TOP, trimmed) then Failure(FromHeaderInvalid)
    else match mail.parseAddressList(trimmed)
      case None => Failure(FromHeaderInvalid)
      case Some(addresses) =>
        if |addresses| == 0 then Failure(FromHeaderInvalid)
        else if |addresses| > 1 then Failure(FromHeaderMultipleAddresses)
        else if !mail.addressSyntax(Tx.TrimSpace(addresses[0])) then Failure(FromHeaderInvalid)
        else Success(mail.lower(Tx.TrimSpace(addresses[0])))
  }

  /** A colon stands at the top level, after a well-formed beginning. */
  ghost predicate TopLevelColon(text: string) {
    exists pieces, rest :: GoodPieces(pieces) && text == Render(pieces) + (":" + rest)
  }

  /** The address list is this one entry, it is acceptable, and `address` is its lower case. */
  predicate OnlyEntry(mail: Mail, trimmed: string, entry: string, address: string) {
    && mail.parseAddressList(trimmed) == Some([entry])
    && mail.addressSyntax(Tx.TrimSpace(entry)) && address == mail.lower(Tx.TrimSpace(entry))
  }

  /** What success guarantees, and when there is one: the header is not blank and not too long, has no colon at its top
      level, and lists exactly one address, which is acceptable; that address is the result. More than one is the only
      other way to get past the colon to a reason of its own. */
  lemma StrictSucceedsExactly(mail: Mail, value: string, address: string)
    ensures var trimmed := Tx.TrimSpace(value);
            Strict(mail, value) == Success(address) <==>
              && trimmed != "" && ByteLength(trimmed) <= 998 && !TopLevelColon(trimmed)
              && exists entry :: OnlyEntry(mail, trimmed, entry, address)
    ensures var trimmed := Tx.TrimSpace(value);
            Strict(mail, value) == Failure(FromHeaderMultipleAddresses) <==>
              && trimmed != "" && ByteLength(trimmed) <= 998 && !TopLevelColon(trimmed)
              && mail.parseAddressList(trimmed).Some? && |mail.parseAddressList(trimmed).value| > 1
  {
    hide Finds, Render, ByteLength, Tx.TrimSpace;
    var trimmed := Tx.TrimSpace(value);
    ScannerIsExact(trimmed);
    var listed := mail.parseAddressList(trimmed);
    if listed.Some? && |listed.value| == 1 {
      var entry := listed.value[0];
      assert listed.value == [entry];
      assert OnlyEntry(mail, trimmed, entry, mail.lower(Tx.TrimSpace(entry)))
             <==> mail.addressSyntax(Tx.TrimSpace(entry));
    }
  }

  /** The pieces of a group (RFC 5322 section 3.4): a display name, a colon, members, a semicolon. */
  function Group(name: seq<Piece>, members: seq<Piece>): seq<Piece> {
    name + [Colon] + members + [Plain(';')]
  }

  /** A header that holds a group anywhere at its top level is refused as invalid, however many members the group has
      and whatever the address parser would make of them. */
  lemma GroupsAreRefused(mail: Mail, value: string, before: seq<Piece>, name: seq<Piece>, members: seq<Piece>,
                         after: seq<Piece>)
    requires GoodPieces(before) && GoodPieces(name) && GoodPieces(members) && GoodPieces(after)
    requires Tx.TrimSpace(value) == Render(before + Group(name, members) + after)
    ensures Strict(mail, value) == Failure(FromHeaderInvalid)
  {
    hide Finds, Render;
    var pieces := before + Group(name, members) + after;
    ScannerMatchesGrammar(pieces);
    assert pieces[|before| + |name|] == Colon;
  }
}
