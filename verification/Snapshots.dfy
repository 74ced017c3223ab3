/**
 The budgeted copy of already decoded values (`snapshotInteraction`). Scalars are held by value,
 maps and slices by reference into a heap, so the input may share structure or be cyclic.
 A map is walked in an order nobody controls.
 */
module Snapshots {
  import opened Outcomes
  import opened Utf8
  import opened Values

  /** A Go string: valid UTF-8 text, or bytes that are not. */
  datatype GoString = Text(s: string) | Mangled(raw: seq<byte>)

  datatype Any =
    | Nil
    | Boolean(b: bool)
    | String(text: GoString)
    | Float(r: real)
    | NonFinite
    | Integer(i: int)
    | JsonNumber(token: string)
    | MapRef(ref: nat)
    | SliceRef(ref: nat)
    | Foreign

  datatype Heap = Heap(maps: map<nat, map<GoString, Any>>, slices: map<nat, seq<Any>>)

  function MapAt(h: Heap, ref: nat): map<GoString, Any> {
    if ref in h.maps then h.maps[ref] else map[]
  }

  function SliceAt(h: Heap, ref: nat): seq<Any> {
    if ref in h.slices then h.slices[ref] else []
  }

  function Length(s: GoString): nat {
    match s
    case Text(t) => ByteLength(t)
    case Mangled(raw) => |raw|
  }

  function Decimal(n: nat): (s: string)
    ensures |s| >= 1
  {
    if n < 10 then ["0123456789"[n]] else Decimal(n / 10) + ["0123456789"[n % 10]]
  }

  function FormatInteger(i: int): string {
    if i < 0 then "-" + Decimal(-i) else Decimal(i)
  }

  /** The number a numeric leaf is copied to, if `interactionNumber` accepts its text. */
  function Number(sc: Strconv, a: Any): Option<real> {
    match a
    case Float(r) => InteractionNumber(sc, sc.format(r))
    case Integer(i) => InteractionNumber(sc, FormatInteger(i))
    case JsonNumber(token) => InteractionNumber(sc, token)
    case _ => None
  }

  /** `v` is a faithful copy of what `a` refers to: the unfolding of `a`, with every leaf valid. */
  ghost predicate Copies(sc: Strconv, h: Heap, a: Any, v: Value)
    decreases v
  {
    match v
    case Null => a.Nil?
    case Bool(b) => a == Boolean(b)
    case Str(s) => a == String(Text(s))
    case Num(n) => Number(sc, a) == Some(n)
    case Arr(items) =>
      && a.SliceRef? && |items| == |SliceAt(h, a.ref)|
      && forall i :: 0 <= i < |items| ==> Copies(sc, h, SliceAt(h, a.ref)[i], items[i])
    case Obj(members) =>
      && a.MapRef?
      && (forall g :: g in MapAt(h, a.ref) ==> g.Text? && g.s in members)
      && forall k :: k in members ==> Text(k) in MapAt(h, a.ref) && Copies(sc, h, MapAt(h, a.ref)[Text(k)], members[k])
  }

  lemma {:induction false} OneCopy(sc: Strconv, h: Heap, a: Any, v: Value, w: Value)
    requires Copies(sc, h, a, v) && Copies(sc, h, a, w)
    ensures v == w
    decreases v
  {
    match v
    case Arr(items) =>
      forall i | 0 <= i < |items| ensures items[i] == w.items[i] {
        OneCopy(sc, h, SliceAt(h, a.ref)[i], items[i], w.items[i]);
      }
      assert items == w.items;
    case Obj(members) =>
      forall k ensures k in members <==> k in w.members {
        if k in members {
          assert Text(k) in MapAt(h, a.ref);
        }
        if k in w.members {
          assert Text(k) in MapAt(h, a.ref);
        }
      }
      forall k | k in members ensures members[k] == w.members[k] {
        OneCopy(sc, h, MapAt(h, a.ref)[Text(k)], members[k], w.members[k]);
      }
      assert members == w.members;
    case _ =>
  }

  /** The budget, shared by reference by every recursive call, and how many calls there were. */
  class Budget {
    var left: int
    ghost var calls: nat

    constructor (left: int)
      ensures this.left == left && calls == 0
    {
      this.left := left;
      calls := 0;
    }
  }

  /** A copy of `a` exists within `limit` nested containers and `budget` weight. */
  ghost predicate Fits(sc: Strconv, h: Heap, a: Any, limit: nat, budget: int, v: Value) {
    Copies(sc, h, a, v) && Nests(v, limit) && Weight(v) <= budget
  }

  ghost predicate NoneFits(sc: Strconv, h: Heap, a: Any, limit: nat, budget: int) {
    forall v :: !Fits(sc, h, a, limit, budget, v)
  }

  // ----- Bounds on what is still to come -----

  lemma {:induction false} ItemsWeightRest(v: Value, n: nat)
    requires v.Arr? && n <= |v.items|
    ensures ItemsWeight(v, |v.items|) >= ItemsWeight(v, n) + (|v.items| - n)
    decreases |v.items| - n
  {
    if n < |v.items| {
      ItemsWeightRest(v, n + 1);
      WeightPositive(v.items[n]);
    }
  }

  lemma {:induction false} KeysWeightSum(v: Value, some: set<string>, others: set<string>)
    requires v.Obj? && some + others <= v.members.Keys && some !! others
    ensures KeysWeight(v, some + others) == KeysWeight(v, some) + KeysWeight(v, others)
    decreases |others|
  {
    if others == {} {
      assert some + others == some;
    } else {
      var k :| k in others;
      KeysWeightSplit(v, some + others, k);
      KeysWeightSplit(v, others, k);
      assert some + others - {k} == some + (others - {k});
      KeysWeightSum(v, some, others - {k});
    }
  }

  function Names(keys: set<GoString>): set<string> {
    set g | g in keys && g.Text? :: g.s
  }

  lemma {:induction false} NamesWeigh(v: Value, keys: set<GoString>)
    requires v.Obj? && Names(keys) <= v.members.Keys && forall g :: g in keys ==> g.Text?
    ensures KeysWeight(v, Names(keys)) >= |keys|
    decreases |keys|
  {
    if keys != {} {
      var g :| g in keys;
      NamesWeigh(v, keys - {g});
      assert Names(keys) - {g.s} == Names(keys - {g});
      assert g.s in Names(keys);
      KeysWeightSplit(v, Names(keys), g.s);
    }
  }

  /** The map walk when the keys in `todo` are left: `out` holds copies of all the other members. */
  ghost predicate Walked(sc: Strconv, h: Heap, a: Any, limit: nat, todo: set<GoString>, out: map<string, Value>)
    requires a.MapRef?
  {
    var m := MapAt(h, a.ref);
    && todo <= m.Keys
    && (forall g :: g in m.Keys && g !in todo ==> g.Text? && g.s in out)
    && (forall k :: k in out ==> Text(k) in m && Text(k) !in todo)
    && (forall k :: k in out ==> Copies(sc, h, m[Text(k)], out[k]) && Nests(out[k], limit))
  }

  lemma WalkStarts(sc: Strconv, h: Heap, a: Any, limit: nat)
    requires a.MapRef?
    ensures Walked(sc, h, a, limit, MapAt(h, a.ref).Keys, map[]) && Weight(Obj(map[])) == 1
  {
  }

  lemma WalkOn(sc: Strconv, h: Heap, a: Any, limit: nat, todo: set<GoString>, out: map<string, Value>, g: GoString,
               w: Value)
    requires a.MapRef? && Walked(sc, h, a, limit, todo, out)
    requires g in todo && g.Text? && Copies(sc, h, MapAt(h, a.ref)[g], w) && Nests(w, limit)
    ensures g.s !in out && Walked(sc, h, a, limit, todo - {g}, out[g.s := w])
  {
    assert g == Text(g.s);
  }

  lemma WalkEnds(sc: Strconv, h: Heap, a: Any, limit: nat, out: map<string, Value>)
    requires a.MapRef? && Walked(sc, h, a, limit, {}, out)
    ensures Copies(sc, h, a, Obj(out)) && Nests(Obj(out), limit + 1)
  {
  }

  /** In a copy of a map weigh the members already walked and one more. */
  lemma MapBudget(sc: Strconv, h: Heap, a: Any, v: Value, limit: nat, todo: set<GoString>, out: map<string, Value>,
                  g: GoString)
    requires a.MapRef? && Copies(sc, h, a, v) && Walked(sc, h, a, limit, todo, out) && g in todo
    ensures g.Text? && v.Obj? && g.s in v.members
    ensures Weight(v) >= Weight(Obj(out)) + MemberWeight(v, g.s)
  {
    var m := MapAt(h, a.ref);
    forall k | k in out ensures k in v.members && out[k] == v.members[k] {
      assert Text(k) in m;
      OneCopy(sc, h, m[Text(k)], out[k], v.members[k]);
    }
    assert g in m && g.s !in out;
    var rest := v.members.Keys - out.Keys;
    KeysWeightSame(v, Obj(out), out.Keys);
    KeysWeightSum(v, out.Keys, rest);
    assert out.Keys + rest == v.members.Keys;
    KeysWeightSplit(v, rest, g.s);
  }

  /** A key that cannot be paid for, or is not text, means no copy of the map fits. */
  lemma KeyRefused(sc: Strconv, h: Heap, a: Any, limit: nat, outer: nat, budget: int, todo: set<GoString>,
                   out: map<string, Value>, g: GoString)
    requires a.MapRef? && Walked(sc, h, a, limit, todo, out) && g in todo && outer == limit + 1
    requires NoneFits(sc, h, String(g), limit, budget - Weight(Obj(out)))
    ensures NoneFits(sc, h, a, outer, budget)
  {
    forall v ensures !Fits(sc, h, a, outer, budget, v) {
      if Copies(sc, h, a, v) {
        MapBudget(sc, h, a, v, limit, todo, out, g);
        assert !Fits(sc, h, String(g), limit, budget - Weight(Obj(out)), Str(g.s));
      }
    }
  }

  /** A member's value that does not fit in what is left after its key means no copy of the map fits. */
  lemma ValueRefused(sc: Strconv, h: Heap, a: Any, limit: nat, outer: nat, budget: int, todo: set<GoString>,
                     out: map<string, Value>, g: GoString)
    requires a.MapRef? && Walked(sc, h, a, limit, todo, out) && g in todo && g.Text? && outer == limit + 1
    requires NoneFits(sc, h, MapAt(h, a.ref)[g], limit, budget - Weight(Obj(out)) - 1 - ByteLength(g.s))
    ensures NoneFits(sc, h, a, outer, budget)
  {
    forall v ensures !Fits(sc, h, a, outer, budget, v) {
      if Copies(sc, h, a, v) {
        MapBudget(sc, h, a, v, limit, todo, out, g);
        assert !Fits(sc, h, MapAt(h, a.ref)[g], limit, budget - Weight(Obj(out)) - 1 - ByteLength(g.s), v.members[g.s]);
      }
    }
  }

  lemma AddMemberWeight(out: map<string, Value>, k: string, w: Value)
    requires k !in out
    ensures Weight(Obj(out[k := w])) == Weight(Obj(out)) + 1 + ByteLength(k) + Weight(w)
  {
    var v, v' := Obj(out), Obj(out[k := w]);
    KeysWeightSplit(v', v'.members.Keys, k);
    assert v'.members.Keys - {k} == out.Keys;
    KeysWeightSame(v, v', out.Keys);
  }

  lemma AddItemWeight(items: seq<Value>, w: Value)
    ensures Weight(Arr(items + [w])) == Weight(Arr(items)) + Weight(w)
  {
    ItemsWeightSame(Arr(items), Arr(items + [w]), |items|);
  }

  // ----- The copy -----

  /**
   What one call does, whatever order its maps are walked in. It succeeds exactly when a copy fits,
   returns that copy and takes its weight from the budget; whatever the heap looks like, it makes
   no more calls than the budget it found, plus one.
   */
  method Snapshot(sc: Strconv, h: Heap, a: Any, depth: nat, budget: Budget) returns (r: Option<Value>)
    requires depth <= MAX_DEPTH && budget.left >= 0
    modifies budget
    ensures r.Some? ==> Fits(sc, h, a, MAX_DEPTH - depth, old(budget.left), r.value)
    ensures r.Some? ==> budget.left == old(budget.left) - Weight(r.value)
    ensures r.None? ==> NoneFits(sc, h, a, MAX_DEPTH - depth, old(budget.left))
    ensures budget.calls <= old(budget.calls) + old(budget.left) + 1
    ensures r.Some? ==> budget.calls <= old(budget.calls) + (old(budget.left) - budget.left)
    decreases MAX_DEPTH - depth, 1
  {
    budget.calls := budget.calls + 1;
    budget.left := budget.left - 1;
    if budget.left < 0 {
      return None;
    }
    match a
    case Nil => r := Some(Null);
    case Boolean(b) => r := Some(Bool(b));
    case String(text) =>
      budget.left := budget.left - Length(text);
      if budget.left < 0 || !text.Text? {
        return None;
      }
      r := Some(Str(text.s));
    case MapRef(ref) =>
      if depth >= MAX_DEPTH || |MapAt(h, ref)| > budget.left {
        NoCopyOfMap(sc, h, a, depth, budget.left);
        return None;
      }
      r := SnapshotMap(sc, h, a, depth, budget);
    case SliceRef(ref) =>
      if depth >= MAX_DEPTH || |SliceAt(h, ref)| > budget.left {
        NoCopyOfSlice(sc, h, a, depth, budget.left);
        return None;
      }
      r := SnapshotSlice(sc, h, a, depth, budget);
    case Float(_) =>
      var n := Number(sc, a);
      r := if n.Some? then Some(Num(n.value)) else None;
    case Integer(_) =>
      var n := Number(sc, a);
      r := if n.Some? then Some(Num(n.value)) else None;
    case JsonNumber(_) =>
      var n := Number(sc, a);
      r := if n.Some? then Some(Num(n.value)) else None;
    case _ => r := None;
  }

  lemma NoCopyOfMap(sc: Strconv, h: Heap, a: Any, depth: nat, left: nat)
    requires depth <= MAX_DEPTH && a.MapRef? && (depth == MAX_DEPTH || |MapAt(h, a.ref)| > left)
    ensures NoneFits(sc, h, a, MAX_DEPTH - depth, left + 1)
  {
    var limit, budget := MAX_DEPTH - depth, left + 1;
    forall v ensures !Fits(sc, h, a, limit, budget, v) {
      if Copies(sc, h, a, v) {
        assert Names(MapAt(h, a.ref).Keys) == v.members.Keys;
        NamesWeigh(v, MapAt(h, a.ref).Keys);
        assert |MapAt(h, a.ref).Keys| == |MapAt(h, a.ref)|;
      }
    }
  }

  lemma NoCopyOfSlice(sc: Strconv, h: Heap, a: Any, depth: nat, left: nat)
    requires depth <= MAX_DEPTH && a.SliceRef? && (depth == MAX_DEPTH || |SliceAt(h, a.ref)| > left)
    ensures NoneFits(sc, h, a, MAX_DEPTH - depth, left + 1)
  {
    var limit, budget := MAX_DEPTH - depth, left + 1;
    forall v ensures !Fits(sc, h, a, limit, budget, v) {
      if Copies(sc, h, a, v) {
        ItemsWeightRest(v, 0);
      }
    }
  }

  /** One round of the map case: the key, then the value. `total` is the budget of the whole map. */
  method SnapshotMember(sc: Strconv, h: Heap, a: Any, depth: nat, budget: Budget, g: GoString,
                        ghost todo: set<GoString>, out: map<string, Value>, ghost total: int)
    returns (r: Option<map<string, Value>>)
    requires depth < MAX_DEPTH && a.MapRef? && budget.left >= 0
    requires Walked(sc, h, a, MAX_DEPTH - depth - 1, todo, out) && g in todo
    requires budget.left == total - Weight(Obj(out))
    modifies budget
    ensures r.Some? ==> Walked(sc, h, a, MAX_DEPTH - depth - 1, todo - {g}, r.value)
    ensures r.Some? ==> 0 <= budget.left == total - Weight(Obj(r.value))
    ensures r.None? ==> NoneFits(sc, h, a, MAX_DEPTH - depth, total)
    ensures budget.calls <= old(budget.calls) + old(budget.left) + 1
    ensures r.Some? ==> budget.calls <= old(budget.calls) + (old(budget.left) - budget.left)
    decreases MAX_DEPTH - depth, 0, 0
  {
    ghost var limit := MAX_DEPTH - depth - 1;
    var key := Snapshot(sc, h, String(g), depth + 1, budget);
    if key.None? {
      KeyRefused(sc, h, a, limit, MAX_DEPTH - depth, total, todo, out, g);
      return None;
    }
    var copy := Snapshot(sc, h, MapAt(h, a.ref)[g], depth + 1, budget);
    if copy.None? {
      ValueRefused(sc, h, a, limit, MAX_DEPTH - depth, total, todo, out, g);
      return None;
    }
    WalkOn(sc, h, a, limit, todo, out, g, copy.value);
    AddMemberWeight(out, g.s, copy.value);
    r := Some(out[g.s := copy.value]);
  }

  /** The map case: `budget.left` is what is left after the call itself was paid for. */
  method SnapshotMap(sc: Strconv, h: Heap, a: Any, depth: nat, budget: Budget) returns (r: Option<Value>)
    requires depth < MAX_DEPTH && a.MapRef? && budget.left >= 0
    modifies budget
    ensures r.Some? ==> Fits(sc, h, a, MAX_DEPTH - depth, old(budget.left) + 1, r.value)
    ensures r.Some? ==> budget.left == old(budget.left) + 1 - Weight(r.value)
    ensures r.None? ==> NoneFits(sc, h, a, MAX_DEPTH - depth, old(budget.left) + 1)
    ensures budget.calls <= old(budget.calls) + old(budget.left) + 1
    ensures r.Some? ==> budget.calls <= old(budget.calls) + (old(budget.left) - budget.left)
    decreases MAX_DEPTH - depth, 0, 1
  {
    hide Walked, KeysWeight, Weight, NoneFits, Copies, Nests;
    var todo := MapAt(h, a.ref).Keys;
    var out: map<string, Value> := map[];
    WalkStarts(sc, h, a, MAX_DEPTH - depth - 1);
    while todo != {}
      invariant Walked(sc, h, a, MAX_DEPTH - depth - 1, todo, out) && budget.left >= 0
      invariant budget.left == old(budget.left) + 1 - Weight(Obj(out))
      invariant budget.calls <= old(budget.calls) + (old(budget.left) - budget.left)
      decreases |todo|
    {
      var g :| g in todo;
      var more := SnapshotMember(sc, h, a, depth, budget, g, todo, out, old(budget.left) + 1);
      if more.None? {
        return None;
      }
      out := more.value;
      todo := todo - {g};
    }
    WalkEnds(sc, h, a, MAX_DEPTH - depth - 1, out);
    r := Some(Obj(out));
  }

  method SnapshotSlice(sc: Strconv, h: Heap, a: Any, depth: nat, budget: Budget) returns (r: Option<Value>)
    requires depth < MAX_DEPTH && a.SliceRef? && budget.left >= 0
    modifies budget
    ensures r.Some? ==> Fits(sc, h, a, MAX_DEPTH - depth, old(budget.left) + 1, r.value)
    ensures r.Some? ==> budget.left == old(budget.left) + 1 - Weight(r.value)
    ensures r.None? ==> NoneFits(sc, h, a, MAX_DEPTH - depth, old(budget.left) + 1)
    ensures budget.calls <= old(budget.calls) + old(budget.left) + 1
    ensures r.Some? ==> budget.calls <= old(budget.calls) + (old(budget.left) - budget.left)
    decreases MAX_DEPTH - depth, 0
  {
    var s := SliceAt(h, a.ref);
    var out: seq<Value> := [];
    for i := 0 to |s|
      invariant |out| == i && budget.left >= 0
      invariant forall k :: 0 <= k < i ==> Copies(sc, h, s[k], out[k]) && Nests(out[k], MAX_DEPTH - depth - 1)
      invariant budget.left == old(budget.left) + 1 - Weight(Arr(out))
      invariant budget.calls <= old(budget.calls) + (old(budget.left) - budget.left)
    {
      var copy := Snapshot(sc, h, s[i], depth + 1, budget);
      if copy.None? {
        ItemRefused(sc, h, a, MAX_DEPTH - depth - 1, MAX_DEPTH - depth, old(budget.left) + 1, out, i);
        return None;
      }
      AddItemWeight(out, copy.value);
      out := out + [copy.value];
    }
    r := Some(Arr(out));
  }

  /** In a copy of a slice weigh the items already copied and one more. */
  lemma SliceBudget(sc: Strconv, h: Heap, a: Any, v: Value, out: seq<Value>, i: nat)
    requires a.SliceRef? && i < |SliceAt(h, a.ref)| && |out| == i && Copies(sc, h, a, v)
    requires forall k :: 0 <= k < i ==> Copies(sc, h, SliceAt(h, a.ref)[k], out[k])
    ensures v.Arr? && i < |v.items| && Copies(sc, h, SliceAt(h, a.ref)[i], v.items[i])
    ensures Weight(v) >= Weight(Arr(out)) + Weight(v.items[i])
  {
    forall k | 0 <= k < i ensures out[k] == v.items[k] {
      OneCopy(sc, h, SliceAt(h, a.ref)[k], out[k], v.items[k]);
    }
    ItemsWeightSame(Arr(out), v, i);
    ItemsWeightRest(v, i + 1);
  }

  lemma ItemRefused(sc: Strconv, h: Heap, a: Any, limit: nat, outer: nat, budget: int, out: seq<Value>, i: nat)
    requires a.SliceRef? && outer == limit + 1 && i < |SliceAt(h, a.ref)| && |out| == i
    requires forall k :: 0 <= k < i ==> Copies(sc, h, SliceAt(h, a.ref)[k], out[k])
    requires NoneFits(sc, h, SliceAt(h, a.ref)[i], limit, budget - Weight(Arr(out)))
    ensures NoneFits(sc, h, a, outer, budget)
  {
    hide Copies, Weight;
    forall v ensures !Fits(sc, h, a, outer, budget, v) {
      if Copies(sc, h, a, v) {
        SliceBudget(sc, h, a, v, out, i);
        assert !Fits(sc, h, SliceAt(h, a.ref)[i], limit, budget - Weight(Arr(out)), v.items[i]);
      }
    }
  }
}
