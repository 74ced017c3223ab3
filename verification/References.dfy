/**
 Message identifiers and the reference chain: what a canonical identifier is, and the two loops
 that cut a chain down to the size of a header.
 */
module References {
  import opened Sequences
  import opened Outcomes
  import opened Utf8

  const MAX_REFERENCES := 100
  const MAX_JOINED := 8192
  const MAX_INPUT := 1000

  // ----- Identifiers -----

  /** An identifier without its brackets: printable ASCII around a single `@`. */
  predicate WireId(s: string) {
    && |s| <= 996
    && (forall i :: 0 <= i < |s| ==> '!' <= s[i] <= '~' && s[i] != '<' && s[i] != '>')
    && exists at :: 0 < at < |s| - 1 && OnlyAt(s, at)
  }

  predicate OnlyAt(s: string, at: nat)
    requires at < |s|
  {
    forall i :: 0 <= i < |s| ==> (s[i] == '@' <==> i == at)
  }

  function TrimLeft(s: string): string {
    if s != [] && s[0] == ' ' then TrimLeft(s[1..]) else s
  }

  function TrimRight(s: string): string {
    if s != [] && s[|s| - 1] == ' ' then TrimRight(s[..|s| - 1]) else s
  }

  function Unbracketed(s: string): string {
    if |s| >= 2 && s[0] == '<' && s[|s| - 1] == '>' then s[1..|s| - 1] else s
  }

  /** `signalMessageID`. */
  function MessageId(value: string): (id: Option<string>)
    ensures id.Some? ==> 5 <= |id.value| <= 998
  {
    var bare := Unbracketed(TrimRight(TrimLeft(value)));
    if WireId(bare) then Some("<" + bare + ">") else None
  }

  predicate Blank(s: string) {
    forall i :: 0 <= i < |s| ==> s[i] == ' '
  }

  lemma {:induction false} TrimLeftSkips(a: string, s: string)
    requires Blank(a) && (s == [] || s[0] != ' ')
    ensures TrimLeft(a + s) == s
  {
    if a == [] {
      assert a + s == s;
    } else {
      assert (a + s)[1..] == a[1..] + s;
      TrimLeftSkips(a[1..], s);
    }
  }

  lemma {:induction false} TrimRightSkips(s: string, b: string)
    requires Blank(b) && (s == [] || s[|s| - 1] != ' ')
    ensures TrimRight(s + b) == s
    decreases |b|
  {
    if b == [] {
      assert s + b == s;
    } else {
      assert (s + b)[..|s + b| - 1] == s + b[..|b| - 1];
      TrimRightSkips(s, b[..|b| - 1]);
    }
  }

  lemma {:induction false} TrimLeftSplits(s: string) returns (a: string)
    ensures Blank(a) && s == a + TrimLeft(s)
  {
    if s != [] && s[0] == ' ' {
      var rest := TrimLeftSplits(s[1..]);
      a := " " + rest;
    } else {
      a := "";
    }
  }

  lemma {:induction false} TrimRightSplits(s: string) returns (b: string)
    ensures Blank(b) && s == TrimRight(s) + b
  {
    if s != [] && s[|s| - 1] == ' ' {
      var rest := TrimRightSplits(s[..|s| - 1]);
      b := rest + " ";
      assert s == s[..|s| - 1] + " ";
    } else {
      b := "";
    }
  }

  predicate Spelled(value: string, a: string, bare: string, b: string) {
    Blank(a) && Blank(b) && (value == a + bare + b || value == a + ("<" + bare + ">") + b)
  }

  /** An identifier is accepted exactly when it is spelled as spaces around a wire identifier, bare
      or in brackets; all its spellings have the same canonical form. */
  lemma MessageIdIsExact(value: string)
    ensures MessageId(value).Some? <==> exists a, bare, b :: WireId(bare) && Spelled(value, a, bare, b)
    ensures forall a, bare, b :: WireId(bare) && Spelled(value, a, bare, b) ==>
              MessageId(value) == Some("<" + bare + ">")
  {
    forall a, bare, b | WireId(bare) && Spelled(value, a, bare, b) ensures MessageId(value) == Some("<" + bare + ">") {
      SpellingAccepted(value, a, bare, b);
    }
    if MessageId(value).Some? {
      var a := TrimLeftSplits(value);
      var b := TrimRightSplits(TrimLeft(value));
      var trimmed := TrimRight(TrimLeft(value));
      var bare := Unbracketed(trimmed);
      assert trimmed == bare || trimmed == "<" + bare + ">";
      assert value == a + trimmed + b;
      assert Spelled(value, a, bare, b);
    }
  }

  lemma SpellingAccepted(value: string, a: string, bare: string, b: string)
    requires WireId(bare) && Spelled(value, a, bare, b)
    ensures MessageId(value) == Some("<" + bare + ">")
  {
    var shown := if value == a + bare + b then bare else "<" + bare + ">";
    assert value == a + (shown + b);
    TrimLeftSkips(a, shown + b);
    TrimRightSkips(shown, b);
    assert ("<" + bare + ">")[1..|bare| + 1] == bare;
  }

  /** The canonical form of an identifier is its own canonical form. */
  lemma CanonicalIsFixed(value: string)
    requires MessageId(value).Some?
    ensures MessageId(MessageId(value).value) == MessageId(value)
  {
    var bare := Unbracketed(TrimRight(TrimLeft(value)));
    assert MessageId(value).value == "" + ("<" + bare + ">") + "";
    SpellingAccepted(MessageId(value).value, "", bare, "");
  }

  ghost predicate Canonical(id: string) {
    MessageId(id) == Some(id)
  }

  // ----- The chain before it is cut -----

  /** The canonical references without the target, then the target; nothing if one is malformed. */
  function Chain(values: seq<string>, target: string): Option<seq<string>> {
    if values == [] then Some([target])
    else match MessageId(values[0])
      case None => None
      case Some(id) =>
        match Chain(values[1..], target)
        case None => None
        case Some(rest) => Some(if id == target then rest else [id] + rest)
  }

  ghost predicate TargetLastAndOnce(chain: seq<string>, target: string) {
    && |chain| > 0
    && forall i :: 0 <= i < |chain| ==> (chain[i] == target <==> i == |chain| - 1)
  }

  lemma {:induction false} ChainEndsInTarget(values: seq<string>, target: string)
    requires Canonical(target) && Chain(values, target).Some?
    ensures TargetLastAndOnce(Chain(values, target).value, target)
    ensures forall i :: 0 <= i < |Chain(values, target).value| ==> Canonical(Chain(values, target).value[i])
  {
    if values != [] {
      CanonicalIsFixed(values[0]);
      ChainEndsInTarget(values[1..], target);
      PrependKeepsTarget(MessageId(values[0]).value, Chain(values[1..], target).value, target);
      hide MessageId, TargetLastAndOnce, Canonical;
    }
  }

  lemma PrependKeepsTarget(id: string, rest: seq<string>, target: string)
    requires TargetLastAndOnce(rest, target) && forall i :: 0 <= i < |rest| ==> Canonical(rest[i])
    ensures id != target ==> TargetLastAndOnce([id] + rest, target)
    ensures Canonical(id) ==> forall i :: 0 <= i < |[id] + rest| ==> Canonical(([id] + rest)[i])
  {
    hide Canonical;
    var more := [id] + rest;
    assert forall i :: 1 <= i < |more| ==> more[i] == rest[i - 1];
  }

  /** The references found so far, put in front of what the rest of the input gives. */
  function Prepended(found: seq<string>, rest: Option<seq<string>>): Option<seq<string>> {
    match rest
    case None => None
    case Some(more) => Some(found + more)
  }

  lemma ChainStep(values: seq<string>, target: string, i: nat, found: seq<string>)
    requires i < |values|
    ensures Prepended(found, Chain(values[i..], target)) ==
            match MessageId(values[i])
            case None => None
            case Some(id) => Prepended(if id == target then found else found + [id], Chain(values[i + 1..], target))
  {
    assert values[i..][1..] == values[i + 1..];
    var rest := Chain(values[i + 1..], target);
    if MessageId(values[i]).Some? && rest.Some? {
      var id := MessageId(values[i]).value;
      assert found + ([id] + rest.value) == found + [id] + rest.value;
    }
  }

  lemma ChainEnds(values: seq<string>, target: string)
    ensures Chain(values[|values|..], target) == Some([target])
    ensures Chain(values, target) == Prepended([], Chain(values[0..], target))
  {
    assert values[0..] == values;
    if Chain(values, target).Some? {
      assert [] + Chain(values, target).value == Chain(values, target).value;
    }
  }

  predicate Within(value: string, limit: Option<nat>) {
    limit.Some? ==> ByteLength(value) <= limit.value
  }

  predicate AllWithin(values: seq<string>, limit: Option<nat>) {
    forall i :: 0 <= i < |values| ==> Within(values[i], limit)
  }

  /** The collecting loop of both preparations; `limit` is the extra bound on the bytes of one
      reference that presence emails impose. */
  method CollectReferences(values: seq<string>, target: string, limit: Option<nat>) returns (chain: Option<seq<string>>)
    ensures chain == if AllWithin(values, limit) then Chain(values, target) else None
  {
    var references: seq<string> := [];
    var i := 0;
    ChainEnds(values, target);
    hide Chain, MessageId, Within;
    while i < |values|
      invariant 0 <= i <= |values|
      invariant forall k :: 0 <= k < i ==> Within(values[k], limit)
      invariant Chain(values, target) == Prepended(references, Chain(values[i..], target))
    {
      ChainStep(values, target, i, references);
      if !Within(values[i], limit) {
        return None;
      }
      var ref := MessageId(values[i]);
      if ref.None? {
        return None;
      }
      if ref.value != target {
        references := references + [ref.value];
      }
      i := i + 1;
    }
    chain := Some(references + [target]);
  }

  // ----- Cutting the chain -----

  function Join(refs: seq<string>): string {
    if refs == [] then ""
    else if |refs| == 1 then refs[0]
    else refs[0] + " " + Join(refs[1..])
  }

  predicate Fits(refs: seq<string>) {
    |refs| <= MAX_REFERENCES && |Join(refs)| <= MAX_JOINED
  }

  /** The last `n` entries. */
  function Tail(refs: seq<string>, n: nat): (tail: seq<string>)
    requires n <= |refs|
    ensures |tail| == n
  {
    refs[|refs| - n..]
  }

  /** `kept` is a suffix that fits, and no longer suffix does. */
  ghost predicate LongestFit(refs: seq<string>, kept: seq<string>) {
    && |kept| <= |refs| && kept == Tail(refs, |kept|)
    && Fits(kept)
    && forall n: nat :: |kept| < n <= |refs| ==> !Fits(Tail(refs, n))
  }

  lemma LongestFitIsUnique(refs: seq<string>, one: seq<string>, other: seq<string>)
    requires LongestFit(refs, one) && LongestFit(refs, other)
    ensures one == other
  {
  }

  /** One more than the length of the join, as the running length counts it. */
  function Total(refs: seq<string>): nat {
    if refs == [] then 0 else |refs[0]| + 1 + Total(refs[1..])
  }

  lemma {:induction false} JoinLength(refs: seq<string>)
    requires refs != []
    ensures |Join(refs)| == Total(refs) - 1
  {
    if |refs| > 1 {
      JoinLength(refs[1..]);
    } else {
      assert refs[1..] == [];
    }
  }

  lemma {:induction false} TotalAppend(refs: seq<string>, last: string)
    ensures Total(refs + [last]) == Total(refs) + |last| + 1
  {
    if refs == [] {
      assert refs + [last] == [last];
    } else {
      assert (refs + [last])[1..] == refs[1..] + [last];
      TotalAppend(refs[1..], last);
    }
  }

  lemma LastFits(refs: seq<string>)
    requires refs != [] && |refs[|refs| - 1]| <= MAX_JOINED
    ensures Fits(Tail(refs, 1))
  {
  }

  /** The loop of `PrepareSignalEmail`: a running length and a moving start. */
  method TrimRunningLength(refs: seq<string>) returns (kept: seq<string>)
    requires refs != [] && |refs[|refs| - 1]| <= MAX_JOINED
    ensures LongestFit(refs, kept) && kept == Cut(refs)
  {
    var length: int := -1;
    var i := 0;
    while i < |refs|
      invariant 0 <= i <= |refs|
      invariant length == Total(refs[..i]) - 1
    {
      assert refs[..i + 1] == refs[..i] + [refs[i]];
      TotalAppend(refs[..i], refs[i]);
      length := length + |refs[i]| + 1;
      i := i + 1;
    }
    assert refs[..i] == refs;
    LastFits(refs);
    var start := 0;
    while |refs| - start > MAX_REFERENCES || length > MAX_JOINED
      invariant 0 <= start < |refs|
      invariant length == Total(refs[start..]) - 1
      invariant forall n: nat :: |refs| - start < n <= |refs| ==> !Fits(Tail(refs, n))
      decreases |refs| - start
    {
      assert refs[start..][1..] == refs[start + 1..];
      JoinLength(refs[start..]);
      length := length - (|refs[start]| + 1);
      start := start + 1;
    }
    JoinLength(refs[start..]);
    kept := refs[start..];
    LongestFitIsUnique(refs, kept, Cut(refs));
  }

  /** The loop of `PreparePresenceAliveEmail`: join everything again for every reference dropped. */
  method TrimJoining(refs: seq<string>) returns (kept: seq<string>)
    requires refs != [] && |refs[|refs| - 1]| <= MAX_JOINED
    ensures LongestFit(refs, kept) && kept == Cut(refs)
  {
    LastFits(refs);
    kept := refs;
    ghost var start := 0;
    while |kept| > MAX_REFERENCES || |Join(kept)| > MAX_JOINED
      invariant 0 <= start < |refs| && kept == refs[start..]
      invariant forall n: nat :: |refs| - start < n <= |refs| ==> !Fits(Tail(refs, n))
      decreases |kept|
    {
      kept := kept[1..];
      start := start + 1;
    }
    LongestFitIsUnique(refs, kept, Cut(refs));
  }

  /** What either loop keeps of a chain, named by its property. */
  ghost function Cut(refs: seq<string>): (kept: seq<string>)
    requires refs != [] && |refs[|refs| - 1]| <= MAX_JOINED
    ensures LongestFit(refs, kept) && kept != []
  {
    LongestFitExists(refs);
    var kept :| LongestFit(refs, kept) && kept != [];
    kept
  }

  lemma {:induction false} LongestFitExists(refs: seq<string>)
    requires refs != [] && |refs[|refs| - 1]| <= MAX_JOINED
    ensures exists kept :: LongestFit(refs, kept) && kept != []
  {
    if Fits(refs) {
      assert LongestFit(refs, refs);
    } else {
      LastFits(refs);
      LongestFitExists(refs[1..]);
      var kept :| LongestFit(refs[1..], kept) && kept != [];
      assert forall n: nat :: n < |refs| ==> Tail(refs[1..], n) == Tail(refs, n);
      assert LongestFit(refs, kept);
    }
  }

  lemma LengthOfCanonical(id: string)
    requires Canonical(id)
    ensures 5 <= |id| <= 998
  {
  }

  /** The reference header of a reply: both loops arrive at it, the target stays last and appears
      once, every entry is canonical, and it is the longest tail of the chain that fits. */
  lemma CutKeepsTarget(values: seq<string>, target: string)
    requires Canonical(target) && Chain(values, target).Some?
    ensures var chain := Chain(values, target).value;
            && chain != [] && |chain[|chain| - 1]| <= MAX_JOINED
            && LongestFit(chain, Cut(chain))
            && TargetLastAndOnce(Cut(chain), target)
            && forall i :: 0 <= i < |Cut(chain)| ==> Canonical(Cut(chain)[i])
  {
    hide Chain, Canonical, Fits, LongestFit;
    LengthOfCanonical(target);
    ChainEndsInTarget(values, target);
    var chain := Chain(values, target).value;
    FitIsTail(chain, Cut(chain));
    TailKeepsTarget(chain, Cut(chain), target);
  }

  lemma FitIsTail(refs: seq<string>, kept: seq<string>)
    requires LongestFit(refs, kept)
    ensures |kept| <= |refs| && kept == refs[|refs| - |kept|..]
  {
  }

  lemma TailKeepsTarget(chain: seq<string>, kept: seq<string>, target: string)
    requires TargetLastAndOnce(chain, target) && 0 < |kept| <= |chain| && kept == chain[|chain| - |kept|..]
    requires forall i :: 0 <= i < |chain| ==> Canonical(chain[i])
    ensures TargetLastAndOnce(kept, target)
    ensures forall i :: 0 <= i < |kept| ==> Canonical(kept[i])
  {
    hide Canonical;
    var start := |chain| - |kept|;
    assert forall i :: 0 <= i < |kept| ==> kept[i] == chain[start + i];
  }

  // ----- What the references of a reply are -----

  predicate HeaderFits(refs: seq<string>) {
    |refs| <= 100 && |Join(refs)| <= 8192
  }

  /** A tail of the chain that fits, while no longer tail does. */
  ghost predicate LongestTail(chain: seq<string>, kept: seq<string>) {
    && 0 < |kept| <= |chain| && kept == chain[|chain| - |kept|..] && HeaderFits(kept)
    && forall n: nat :: |kept| < n <= |chain| ==> !HeaderFits(Tail(chain, n))
  }

  ghost predicate CanonicalForms(values: seq<string>, ids: seq<string>) {
    |ids| == |values| && forall i :: 0 <= i < |values| ==> MessageId(values[i]) == Some(ids[i])
  }

  /** `kept` is the thread of a reply to `target`: the canonical forms of `values` in their order, those equal to the
      target left out, then the target, and of these the longest tail that fits. */
  ghost predicate Thread(values: seq<string>, target: string, kept: seq<string>) {
    exists ids: seq<string> :: CanonicalForms(values, ids) && LongestTail(Without(ids, target) + [target], kept)
  }

  lemma {:induction false} ChainIsOfCanonicalForms(values: seq<string>, target: string) returns (ids: seq<string>)
    requires Chain(values, target).Some?
    ensures CanonicalForms(values, ids) && Chain(values, target).value == Without(ids, target) + [target]
  {
    if values == [] {
      ids := [];
    } else {
      var rest := ChainIsOfCanonicalForms(values[1..], target);
      var id := MessageId(values[0]).value;
      hide MessageId, Without, Chain;
      ids := [id] + rest;
      FormsPrepend(values, id, rest);
      ChainPrepend(values, target, id, rest);
    }
  }

  lemma FormsPrepend(values: seq<string>, id: string, rest: seq<string>)
    requires values != [] && MessageId(values[0]) == Some(id) && CanonicalForms(values[1..], rest)
    ensures CanonicalForms(values, [id] + rest)
  {
    hide MessageId;
  }

  lemma ChainPrepend(values: seq<string>, target: string, id: string, rest: seq<string>)
    requires values != [] && MessageId(values[0]) == Some(id)
    requires Chain(values[1..], target) == Some(Without(rest, target) + [target])
    ensures Chain(values, target) == Some(Without([id] + rest, target) + [target])
  {
    hide MessageId;
    var others := Without(rest, target);
    assert ([id] + rest)[1..] == rest;
    if id == target {
      assert Without([id] + rest, target) == others;
    } else {
      assert Without([id] + rest, target) == [id] + others;
      Regrouped([id], others, [target]);
    }
  }

  /** What is kept of the chain is the thread, whichever loop trims it. */
  lemma CutIsThread(values: seq<string>, target: string)
    requires Canonical(target) && Chain(values, target).Some?
    ensures var chain := Chain(values, target).value;
            chain != [] && |chain[|chain| - 1]| <= MAX_JOINED && Thread(values, target, Cut(chain))
  {
    CutKeepsTarget(values, target);
    var ids := ChainIsOfCanonicalForms(values, target);
    hide Chain, Canonical, CanonicalForms, Join;
    var chain := Chain(values, target).value;
    FitsIsHeaderFits(chain, Cut(chain));
  }

  lemma FitsIsHeaderFits(chain: seq<string>, kept: seq<string>)
    requires LongestFit(chain, kept) && kept != []
    ensures LongestTail(chain, kept)
  {
    hide Join;
    assert forall n: nat :: |kept| < n <= |chain| ==> !Fits(Tail(chain, n));
  }

  /** References are refused exactly when one of them is no identifier. */
  lemma {:induction false} ChainExactly(values: seq<string>, target: string)
    ensures Chain(values, target).Some? <==> forall i :: 0 <= i < |values| ==> MessageId(values[i]).Some?
  {
    if values != [] {
      ChainExactly(values[1..], target);
      hide MessageId;
      assert forall i :: 1 <= i < |values| ==> values[i] == values[1..][i - 1];
    }
  }
}
