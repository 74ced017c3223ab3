/**
 The table of subscription names in use by one client (`EventsResource`), and the
 release closures it hands out. A closure owns a once-guard: the first call enters
 the guard, takes the lock and deletes the name; every other call only waits.
 */
module Reservations {
  import opened Outcomes
  import opened Sequences
  import Tx = Texts

  /** How far the once-guard of one closure has come. */
  datatype Stage = Held | Freeing | Freed

  datatype Reservation = Reservation(name: string, stage: Stage)

  /** `active` is the guarded set of names; `given` lists the closures in the order they were handed out. */
  datatype Table = Table(active: set<string>, given: seq<Reservation>)

  /** The lock region of `reserve`, a call of closure `id`, and the lock region inside that closure. */
  datatype Action = Reserve(name: string) | Fire(id: nat) | Delete(id: nat)

  const EMPTY := Table({}, [])

  predicate Enabled(t: Table, a: Action) {
    match a
    case Reserve(_) => true
    case Fire(id) => id < |t.given|
    case Delete(id) => id < |t.given| && t.given[id].stage == Freeing
  }

  function Apply(t: Table, a: Action): Table
    requires Enabled(t, a)
  {
    match a
    case Reserve(name) =>
      if name in t.active then t
      else Table(t.active + {name}, t.given + [Reservation(name, Held)])
    case Fire(id) =>
      if t.given[id].stage == Held then t.(given := t.given[id := t.given[id].(stage := Freeing)]) else t
    case Delete(id) =>
      Table(t.active - {t.given[id].name}, t.given[id := t.given[id].(stage := Freed)])
  }

  /** Reservation `id` was handed out and its name has not been deleted on its behalf. */
  predicate Live(t: Table, id: nat) {
    id < |t.given| && t.given[id].stage != Freed
  }

  ghost predicate OneOwner(t: Table) {
    forall i: nat, j: nat :: Live(t, i) && Live(t, j) && t.given[i].name == t.given[j].name ==> i == j
  }

  ghost predicate ActiveIsLive(t: Table) {
    && (forall i: nat :: Live(t, i) ==> t.given[i].name in t.active)
    && (forall name :: name in t.active ==> exists i: nat :: Live(t, i) && t.given[i].name == name)
  }

  ghost predicate Inv(t: Table) {
    OneOwner(t) && ActiveIsLive(t)
  }

  lemma InvPreserved(t: Table, a: Action)
    requires Inv(t) && Enabled(t, a)
    ensures Inv(Apply(t, a))
  {
    var t' := Apply(t, a);
    match a
    case Reserve(name) =>
      if name !in t.active {
        forall i: nat | Live(t', i)
          ensures i < |t.given| ==> Live(t, i) && t'.given[i] == t.given[i]
        {
        }
        assert Live(t', |t.given|) && t'.given[|t.given|].name == name;
        forall n | n in t'.active ensures exists i: nat :: Live(t', i) && t'.given[i].name == n {
          if n != name {
            var i: nat :| Live(t, i) && t.given[i].name == n;
            assert Live(t', i) && t'.given[i].name == n;
          }
        }
      }
    case Fire(id) =>
      SameLiveNames(t, t');
    case Delete(id) =>
      assert Live(t, id);
      forall i: nat | Live(t', i) ensures Live(t, i) && i != id {
      }
      forall n | n in t'.active ensures exists i: nat :: Live(t', i) && t'.given[i].name == n {
        var i: nat :| Live(t, i) && t.given[i].name == n;
        assert Live(t', i) && t'.given[i].name == n;
      }
  }

  lemma SameLiveNames(t: Table, t': Table)
    requires Inv(t) && t'.active == t.active && |t'.given| == |t.given|
    requires forall i: nat :: i < |t.given| ==> t'.given[i].name == t.given[i].name && (Live(t', i) <==> Live(t, i))
    ensures Inv(t')
  {
    forall name | name in t'.active ensures exists i: nat :: Live(t', i) && t'.given[i].name == name {
      var i: nat :| Live(t, i) && t.given[i].name == name;
      assert Live(t', i);
    }
  }

  /** A run from the empty table: `states[k]` goes to `states[k+1]` by `acts[k]`. */
  ghost predicate IsRun(states: seq<Table>, acts: seq<Action>) {
    && |states| == |acts| + 1
    && states[0] == EMPTY
    && forall k :: 0 <= k < |acts| ==> Enabled(states[k], acts[k]) && states[k + 1] == Apply(states[k], acts[k])
  }

  /** In every state of every run, the guarded table holds exactly the names of the
      unreleased reservations, and a name has at most one live owner. */
  lemma {:induction false} ActiveNamesTheLive(states: seq<Table>, acts: seq<Action>, k: nat)
    requires IsRun(states, acts) && k < |states|
    ensures forall name ::
              name in states[k].active <==> exists i: nat :: Live(states[k], i) && states[k].given[i].name == name
    ensures OneOwner(states[k])
  {
    RunInv(states, acts, k);
  }

  lemma {:induction false} RunInv(states: seq<Table>, acts: seq<Action>, k: nat)
    requires IsRun(states, acts) && k < |states|
    ensures Inv(states[k])
  {
    if k == 0 {
      assert states[0] == EMPTY;
    } else {
      RunInv(states, acts, k - 1);
      InvPreserved(states[k - 1], acts[k - 1]);
    }
  }

  /** A closure called again, or late, leaves every other reservation standing: no step of
      closure `id` frees the name of a live reservation with another id, whatever its name. */
  lemma LateReleaseFreesNobodyElse(states: seq<Table>, acts: seq<Action>, k: nat, other: nat)
    requires IsRun(states, acts) && k < |acts|
    requires acts[k] != Delete(other) && Live(states[k], other)
    ensures Live(states[k + 1], other)
    ensures states[k].given[other].name in states[k + 1].active
    ensures acts[k] != Fire(other) ==> states[k + 1].given[other] == states[k].given[other]
  {
    RunInv(states, acts, k);
    RunInv(states, acts, k + 1);
  }

  /** Over a whole run each reservation is deleted at most once, and it counts as freed exactly when that happened. */
  lemma {:induction false} FreedExactlyOnce(states: seq<Table>, acts: seq<Action>, id: nat)
    requires IsRun(states, acts)
    ensures var last := states[|acts|];
            Count(acts, Delete(id)) == if id < |last.given| && last.given[id].stage == Freed then 1 else 0
  {
    if acts != [] {
      var n := |acts| - 1;
      assert IsRun(states[..n + 1], acts[..n]);
      FreedExactlyOnce(states[..n + 1], acts[..n], id);
    }
  }

  // ----- The object itself -----

  datatype EventOptions = EventOptions(subscription: string, events: Option<seq<string>>, transport: string)

  datatype ReserveError = BadSubscription | BadEvents | BadTransport | Unsupported | Busy

  predicate AlphaNumeric(c: char) {
    'a' <= c <= 'z' || 'A' <= c <= 'Z' || '0' <= c <= '9'
  }

  predicate SubscriptionName(s: string) {
    && 1 <= |s| <= 64
    && AlphaNumeric(s[0])
    && forall i :: 1 <= i < |s| ==> AlphaNumeric(s[i]) || s[i] == '_' || s[i] == '-'
  }

  predicate Blank(s: string) {
    forall c :: c in s ==> Tx.Space(c)
  }

  predicate GoodEvents(events: Option<seq<string>>) {
    events.Some? ==> 1 <= |events.value| <= 50 && forall e :: e in events.value ==> !Blank(e)
  }

  class EventsResource {
    const connected: bool
    var active: map<string, bool>
    var given: seq<Reservation>

    ghost function Contents(): Table
      reads this
    {
      Table((set name | name in active && active[name]), given)
    }

    constructor (connected: bool)
      ensures Contents() == EMPTY && this.connected == connected
    {
      this.connected := connected;
      active := map[];
      given := [];
    }

    /** The closure handed out is identified by its position in `given`. */
    method Reserve(options: EventOptions) returns (r: Result<nat, ReserveError>)
      modifies this
      ensures r.Success? <==>
              && SubscriptionName(options.subscription) && GoodEvents(options.events)
              && options.transport in {"", "websocket", "poll"} && connected
              && options.subscription !in old(Contents()).active
      ensures r.Failure? ==> Contents() == old(Contents())
      ensures r.Success? ==>
                r.value == |old(given)| && Contents() == Apply(old(Contents()), Action.Reserve(options.subscription))
      ensures r == Failure(BadSubscription) <==> !SubscriptionName(options.subscription)
      ensures r == Failure(BadEvents) <==> SubscriptionName(options.subscription) && !GoodEvents(options.events)
      ensures r == Failure(BadTransport) <==>
              && SubscriptionName(options.subscription) && GoodEvents(options.events)
              && options.transport !in {"", "websocket", "poll"}
      ensures r == Failure(Unsupported) <==>
              && SubscriptionName(options.subscription) && GoodEvents(options.events)
              && options.transport in {"", "websocket", "poll"} && !connected
      ensures r == Failure(Busy) <==>
              && SubscriptionName(options.subscription) && GoodEvents(options.events)
              && options.transport in {"", "websocket", "poll"} && connected
              && options.subscription in old(Contents()).active
    {
      if !SubscriptionName(options.subscription) {
        return Failure(BadSubscription);
      }
      if options.events.Some? {
        var events := options.events.value;
        if |events| == 0 || |events| > 50 {
          return Failure(BadEvents);
        }
        for i := 0 to |events|
          invariant forall e :: e in events[..i] ==> !Blank(e)
        {
          if Blank(events[i]) {
            return Failure(BadEvents);
          }
        }
        assert events == events[..|events|];
      }
      if options.transport != "" && options.transport != "websocket" && options.transport != "poll" {
        return Failure(BadTransport);
      }
      if !connected {
        return Failure(Unsupported);
      }
      if options.subscription in active && active[options.subscription] {
        return Failure(Busy);
      }
      active := active[options.subscription := true];
      given := given + [Reservation(options.subscription, Held)];
      r := Success(|given| - 1);
    }

    /** Entering the once-guard of closure `id`; `first` tells whether this call runs its body. */
    method Fire(id: nat) returns (first: bool)
      requires id < |given|
      modifies this`given
      ensures first <==> old(given[id].stage) == Held
      ensures Contents() == Apply(old(Contents()), Action.Fire(id))
    {
      first := given[id].stage == Held;
      if first {
        given := given[id := given[id].(stage := Freeing)];
      }
    }

    /** The lock region in the body of closure `id`. */
    method Delete(id: nat)
      requires id < |given| && given[id].stage == Freeing
      modifies this
      ensures Contents() == Apply(old(Contents()), Action.Delete(id))
    {
      active := active - {given[id].name};
      given := given[id := given[id].(stage := Freed)];
    }
  }
}
