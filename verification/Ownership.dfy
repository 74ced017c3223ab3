/**
 Who holds a reservation. Holder `k` is the call of `Wait` or `Listen` that made reservation `k`.
 A `Wait` either frees it itself or hands it to one `PendingEvent`, whose release frees it;
 a `Listen` keeps it until its goroutine has ended. Any number of holders and names interleave.
 */
module Ownership {
  import opened Outcomes
  import opened Sequences
  import R = Reservations
  import D = Deliveries

  datatype Kind = Waiter | Listener

  /** `Releasing`: inside the holder's own call of the release closure. `Finished`: `Wait`
      returned its error, or the listener closed `done`. */
  datatype Phase = Connecting | Running | HandedOff | Closing | Releasing | Finished

  datatype Holder = Holder(kind: Kind, phase: Phase)

  datatype System = System(table: R.Table, holders: seq<Holder>, deliveries: map<nat, D.Delivery>)

  datatype Action =
    | Start(kind: Kind, name: string)
    | Connect(k: nat)
    | FailToConnect(k: nat)
    | HandOff(k: nat)
    | Stop(k: nat)
    | CloseConnection(k: nat)
    | FireOwn(k: nat)
    | Finish(k: nat)
    | Delivery(k: nat, step: D.Action)
    | FireDelivery(k: nat)
    | Delete(k: nat)

  const EMPTY := System(R.EMPTY, [], map[])

  predicate InPhase(s: System, k: nat, phase: Phase) {
    k < |s.holders| && s.holders[k].phase == phase
  }

  predicate StageIs(s: System, k: nat, stage: R.Stage) {
    k < |s.table.given| && s.table.given[k].stage == stage
  }

  predicate Enabled(s: System, a: Action) {
    match a
    case Start(_, _) => true
    case Connect(k) => InPhase(s, k, Connecting)
    case FailToConnect(k) => InPhase(s, k, Connecting)
    case HandOff(k) => InPhase(s, k, Running) && s.holders[k].kind.Waiter?
    case Stop(k) => InPhase(s, k, Running)
    case CloseConnection(k) => InPhase(s, k, Closing)
    case FireOwn(k) => InPhase(s, k, Releasing) && StageIs(s, k, R.Held)
    case Finish(k) => InPhase(s, k, Releasing) && StageIs(s, k, R.Freed)
    case Delivery(k, step) => k in s.deliveries && D.Enabled(s.deliveries[k], step)
                              && (step.FinishRelease? ==> StageIs(s, k, R.Freed))
    case FireDelivery(k) => k in s.deliveries && s.deliveries[k].release.Disconnected? && StageIs(s, k, R.Held)
    case Delete(k) => R.Enabled(s.table, R.Delete(k))
  }

  function Move(s: System, k: nat, phase: Phase): System
    requires k < |s.holders|
  {
    s.(holders := s.holders[k := s.holders[k].(phase := phase)])
  }

  function Apply(s: System, a: Action): System
    requires Enabled(s, a)
  {
    match a
    case Start(kind, name) =>
      if name in s.table.active then s
      else s.(table := R.Apply(s.table, R.Reserve(name)), holders := s.holders + [Holder(kind, Connecting)])
    case Connect(k) => Move(s, k, Running)
    case FailToConnect(k) => Move(s, k, Releasing)
    case HandOff(k) => Move(s, k, HandedOff).(deliveries := s.deliveries[k := D.FRESH])
    case Stop(k) => Move(s, k, Closing)
    case CloseConnection(k) => Move(s, k, Releasing)
    case FireOwn(k) => s.(table := R.Apply(s.table, R.Fire(k)))
    case Finish(k) => Move(s, k, Finished)
    case Delivery(k, step) => s.(deliveries := s.deliveries[k := D.Apply(s.deliveries[k], step)])
    case FireDelivery(k) => s.(table := R.Apply(s.table, R.Fire(k)))
    case Delete(k) => s.(table := R.Apply(s.table, R.Delete(k)))
  }

  /** Holder `k`, its reservation and its delivery say the same thing. */
  ghost predicate Consistent(s: System, k: nat)
    requires k < |s.holders| == |s.table.given|
  {
    var stage := s.table.given[k].stage;
    && (k in s.deliveries <==> s.holders[k].phase.HandedOff?)
    && match s.holders[k].phase
       case Connecting => stage.Held?
       case Running => stage.Held?
       case Closing => stage.Held?
       case Releasing => true
       case Finished => stage.Freed?
       case HandedOff =>
         && s.holders[k].kind.Waiter? && k in s.deliveries
         && D.Inv(s.deliveries[k])
         && (s.deliveries[k].release.Unfired? || s.deliveries[k].release.Entered? ==> stage.Held?)
         && (s.deliveries[k].release.Finished? ==> stage.Freed?)
  }

  ghost predicate Inv(s: System) {
    && R.Inv(s.table)
    && |s.holders| == |s.table.given|
    && (forall k: nat :: k in s.deliveries ==> k < |s.holders|)
    && (forall k: nat :: k < |s.holders| ==> Consistent(s, k))
  }

  lemma TablePreserved(s: System, a: Action)
    requires Inv(s) && Enabled(s, a)
    ensures R.Inv(Apply(s, a).table)
  {
    match a
    case Start(kind, name) => R.InvPreserved(s.table, R.Reserve(name));
    case FireOwn(k) => R.InvPreserved(s.table, R.Fire(k));
    case FireDelivery(k) => R.InvPreserved(s.table, R.Fire(k));
    case Delete(k) => R.InvPreserved(s.table, R.Delete(k));
    case _ =>
  }

  /** What the steps of a delivery do to its release: three of them move it on, no other touches it. */
  lemma ReleaseMoves(d: D.Delivery, step: D.Action)
    requires D.Enabled(d, step)
    ensures var release := D.Apply(d, step).release;
            if step.BeginRelease? then d.release.Unfired? && release.Entered?
            else if step.CloseConnection? then d.release.Entered? && release.Disconnected?
            else if step.FinishRelease? then d.release.Disconnected? && release.Finished?
            else release == d.release
  {
  }

  /** A step of the delivery of holder `k`. */
  lemma DeliveryHolderPreserved(s: System, k: nat, step: D.Action)
    requires Inv(s) && Enabled(s, Delivery(k, step)) && k < |s.holders|
    ensures Consistent(Apply(s, Delivery(k, step)), k)
  {
    hide D.Inv, D.Apply, D.Enabled;
    assert Consistent(s, k);
    D.InvPreserved(s.deliveries[k], step);
    ReleaseMoves(s.deliveries[k], step);
  }

  /** A step of the reservation of holder `k`, or of the holder itself. */
  lemma OwnHolderPreserved(s: System, a: Action, k: nat)
    requires Inv(s) && Enabled(s, a) && k < |s.holders| && !a.Start? && !a.Delivery? && a.k == k
    ensures |Apply(s, a).holders| == |Apply(s, a).table.given| > k
    ensures Consistent(Apply(s, a), k)
  {
    FreshIsSound();
    hide D.Inv, R.Inv;
    assert Consistent(s, k);
  }

  lemma FreshIsSound()
    ensures D.Inv(D.FRESH)
  {
  }

  /** A step that concerns another holder. */
  lemma OtherHolderPreserved(s: System, a: Action, k: nat)
    requires Inv(s) && Enabled(s, a) && k < |s.holders| && (a.Start? || a.k != k)
    ensures |Apply(s, a).holders| == |Apply(s, a).table.given| > k
    ensures Consistent(Apply(s, a), k)
  {
    hide D.Inv, R.Inv, D.Apply, D.Enabled;
    assert Consistent(s, k);
  }

  lemma HolderPreserved(s: System, a: Action, k: nat)
    requires Inv(s) && Enabled(s, a) && k < |s.holders|
    ensures |Apply(s, a).holders| == |Apply(s, a).table.given| > k
    ensures Consistent(Apply(s, a), k)
  {
    hide Consistent, R.Inv, D.Enabled, D.Apply;
    if a.Start? || a.k != k {
      OtherHolderPreserved(s, a, k);
    } else if a.Delivery? {
      DeliveryHolderPreserved(s, k, a.step);
    } else {
      OwnHolderPreserved(s, a, k);
    }
  }

  lemma InvPreserved(s: System, a: Action)
    requires Inv(s) && Enabled(s, a)
    ensures Inv(Apply(s, a))
  {
    TablePreserved(s, a);
    forall k: nat | k < |s.holders| ensures Consistent(Apply(s, a), k) {
      HolderPreserved(s, a, k);
    }
  }

  // ----- Runs -----

  ghost predicate IsPath(states: seq<System>, acts: seq<Action>) {
    && |states| == |acts| + 1
    && forall n :: 0 <= n < |acts| ==> Enabled(states[n], acts[n]) && states[n + 1] == Apply(states[n], acts[n])
  }

  ghost predicate IsRun(states: seq<System>, acts: seq<Action>) {
    IsPath(states, acts) && states[0] == EMPTY
  }

  lemma {:induction false} RunInv(states: seq<System>, acts: seq<Action>, n: nat)
    requires IsRun(states, acts) && n < |states|
    ensures Inv(states[n])
  {
    if n == 0 {
      assert states[0] == EMPTY;
    } else {
      RunInv(states, acts, n - 1);
      InvPreserved(states[n - 1], acts[n - 1]);
    }
  }

  /** The call that made reservation `k` still owns it. */
  predicate OwnedByCaller(s: System, k: nat) {
    k < |s.holders| && s.holders[k].phase in {Connecting, Running, Closing, Releasing}
  }

  /** A `PendingEvent` whose release has not finished owns reservation `k`. */
  predicate OwnedByDelivery(s: System, k: nat) {
    k in s.deliveries && !s.deliveries[k].release.Finished?
  }

  /** An unreleased reservation is never lost and never shared: exactly one of its caller and
      its one `PendingEvent` owns it, and nobody else holds its name. */
  lemma NeverLostNeverShared(states: seq<System>, acts: seq<Action>, n: nat, k: nat)
    requires IsRun(states, acts) && n < |states| && R.Live(states[n].table, k)
    ensures OwnedByCaller(states[n], k) != OwnedByDelivery(states[n], k)
    ensures var table := states[n].table;
            forall j: nat :: R.Live(table, j) && table.given[j].name == table.given[k].name ==> j == k
  {
    RunInv(states, acts, n);
    assert Consistent(states[n], k);
  }

  /** `Wait` reports its error, and a listener signals `done`, only after the name is free. */
  lemma FinishedMeansFreed(states: seq<System>, acts: seq<Action>, n: nat, k: nat)
    requires IsRun(states, acts) && n < |states| && InPhase(states[n], k, Finished)
    ensures StageIs(states[n], k, R.Freed) && k !in states[n].deliveries
  {
    RunInv(states, acts, n);
    assert Consistent(states[n], k);
  }

  lemma OnlyDeleteFrees(s: System, a: Action, k: nat)
    requires Inv(s) && Enabled(s, a)
    ensures StageIs(Apply(s, a), k, R.Freed) <==> StageIs(s, k, R.Freed) || a == Delete(k)
    ensures a == Delete(k) ==> !StageIs(s, k, R.Freed)
  {
  }

  /** Whatever interleaving, reservation `k` is freed once, never twice. */
  lemma {:induction false} FreedExactlyOnce(states: seq<System>, acts: seq<Action>, k: nat)
    requires IsRun(states, acts)
    ensures Count(acts, Delete(k)) == if StageIs(states[|acts|], k, R.Freed) then 1 else 0
  {
    hide Inv, Apply, Enabled;
    if acts != [] {
      var n := |acts| - 1;
      assert IsRun(states[..n + 1], acts[..n]);
      FreedExactlyOnce(states[..n + 1], acts[..n], k);
      RunInv(states, acts, n);
      OnlyDeleteFrees(states[n], acts[n], k);
    }
  }

  // ----- A releasing step is always enabled -----

  /** Steps nobody has to ask for: the timer, the goroutine watching the context, the deadline
      and the tail of a running completion, and the bodies of the two once-guards. */
  predicate UnpromptedStep(step: D.Action) {
    match step
    case StartTimer => true
    case ExpireLease => true
    case GiveUp(_, _) => true
    case Store(_) => true
    case Signal(_) => true
    case Cancel(_) => true
    case BeginRelease => true
    case CloseConnection => true
    case _ => false
  }

  predicate Unprompted(a: Action) {
    a.FireDelivery? || a.Delete? || (a.Delivery? && UnpromptedStep(a.step))
  }

  function StageRank(stage: D.Stage): nat {
    match stage
    case Finishing(_) => 3
    case Signalling(_) => 2
    case Cancelling(_) => 1
    case _ => 4
  }

  /** How many unprompted steps are left before the context of a delivery has ended. */
  function ContextRank(d: D.Delivery): nat {
    if d.context.Some? then 0
    else match d.timer
      case Firing => 1
      case Armed => 2
      case _ => if d.owner in d.calls then StageRank(d.calls[d.owner].stage) else 0
  }

  function Rank(s: System, k: nat): nat
    requires k in s.deliveries && k < |s.table.given|
  {
    match s.table.given[k].stage
    case Freed => 0
    case Freeing => 1
    case Held =>
      match s.deliveries[k].release
      case Unfired => 4 + ContextRank(s.deliveries[k])
      case Entered => 3
      case _ => 2
  }

  /** A live context is on its way to its end: an armed timer, or the one running completion, can step. */
  lemma ContextStepEnabled(d: D.Delivery) returns (step: D.Action)
    requires D.Inv(d) && d.context.None?
    ensures D.Enabled(d, step) && UnpromptedStep(step)
    ensures ContextRank(D.Apply(d, step)) < ContextRank(d) && D.Apply(d, step).release == d.release
  {
    if d.timer.Armed? {
      step := D.StartTimer;
    } else if d.timer.Firing? {
      step := D.ExpireLease;
    } else {
      OwnerIsRunning(d);
      hide D.Inv;
      var i := d.owner;
      var stage := d.calls[i].stage;
      step := if stage.Finishing? then D.Store(i)
              else if stage.Signalling? then D.Signal(i)
              else if stage.Cancelling? then D.Cancel(i)
              else D.GiveUp(i, 0);
    }
  }

  /** With the context live and the timer neither armed nor firing, the owner of the choice is still at work. */
  lemma OwnerIsRunning(d: D.Delivery)
    requires D.Inv(d) && d.context.None? && !d.timer.Armed? && !d.timer.Firing?
    ensures d.owner in d.calls
    ensures var stage := d.calls[d.owner].stage; D.Sending(stage) || stage.Signalling? || stage.Cancelling?
  {
    assert d.owner in d.calls ==> D.CallAgrees(d, d.owner, d.calls[d.owner]);
  }

  /** While a `PendingEvent` holds the name, some unprompted step is enabled and brings the release nearer. */
  lemma ReleasingStepEnabled(s: System, k: nat) returns (a: Action)
    requires Inv(s) && OwnedByDelivery(s, k) && R.Live(s.table, k)
    ensures Unprompted(a) && Enabled(s, a)
    ensures k in Apply(s, a).deliveries && Rank(Apply(s, a), k) < Rank(s, k)
  {
    assert Consistent(s, k);
    var d := s.deliveries[k];
    if s.table.given[k].stage.Freeing? {
      a := Delete(k);
    } else if d.release.Disconnected? {
      a := FireDelivery(k);
    } else if d.release.Entered? {
      a := Delivery(k, D.CloseConnection);
    } else if d.context.Some? {
      a := Delivery(k, D.BeginRelease);
    } else {
      var step := ContextStepEnabled(d);
      a := Delivery(k, step);
    }
  }

  /** From a state in which a `PendingEvent` holds a name, at most eight unprompted steps free it. */
  lemma {:induction false} ReleaseReachable(s: System, k: nat) returns (states: seq<System>, acts: seq<Action>)
    requires Inv(s) && k in s.deliveries && k < |s.table.given|
    ensures IsPath(states, acts) && states[0] == s
    ensures forall n :: 0 <= n < |acts| ==> Unprompted(acts[n])
    ensures StageIs(states[|acts|], k, R.Freed)
    ensures |acts| <= Rank(s, k) <= 8
    decreases Rank(s, k)
  {
    RankIsSmall(s, k);
    hide Inv, Apply, Enabled, Unprompted, Rank;
    if s.table.given[k].stage.Freed? {
      return [s], [];
    }
    OwnedUntilFreed(s, k);
    var a := ReleasingStepEnabled(s, k);
    InvPreserved(s, a);
    GivenKept(s, a, k);
    var states', acts' := ReleaseReachable(Apply(s, a), k);
    PathCons(s, a, states', acts');
    hide IsPath, StageIs;
    states, acts := [s] + states', [a] + acts';
  }

  /** One more unprompted step in front of a path of them. */
  lemma PathCons(s: System, a: Action, states: seq<System>, acts: seq<Action>)
    requires Enabled(s, a) && Unprompted(a) && IsPath(states, acts) && states[0] == Apply(s, a)
    requires forall n :: 0 <= n < |acts| ==> Unprompted(acts[n])
    ensures IsPath([s] + states, [a] + acts)
    ensures ([s] + states)[0] == s && ([s] + states)[|[a] + acts|] == states[|acts|]
    ensures forall n :: 0 <= n < |[a] + acts| ==> Unprompted(([a] + acts)[n])
  {
    hide Apply, Enabled, Unprompted;
    var more := [a] + acts;
    assert forall n :: 1 <= n < |more| ==> more[n] == acts[n - 1];
  }

  lemma RankIsSmall(s: System, k: nat)
    requires Inv(s) && k in s.deliveries && k < |s.table.given|
    ensures Rank(s, k) <= 8
  {
  }

  /** Until its name is freed, a delivery owns it. */
  lemma OwnedUntilFreed(s: System, k: nat)
    requires Inv(s) && k in s.deliveries && k < |s.table.given| && !s.table.given[k].stage.Freed?
    ensures OwnedByDelivery(s, k) && R.Live(s.table, k)
  {
    assert Consistent(s, k);
  }

  lemma GivenKept(s: System, a: Action, k: nat)
    requires Enabled(s, a) && k < |s.table.given|
    ensures k < |Apply(s, a).table.given|
  {
  }

  /** At any point of any run, a name that a `PendingEvent` holds can be freed by at most eight further unprompted
      steps: no call of `Ack` or `Retry` is needed, and none so far can have prevented it. */
  lemma EveryNameCanBeFreed(states: seq<System>, acts: seq<Action>, n: nat, k: nat)
    requires IsRun(states, acts) && n < |states| && OwnedByDelivery(states[n], k)
    ensures exists onward: seq<System>, steps: seq<Action> ::
              && IsPath(onward, steps) && onward[0] == states[n] && |steps| <= 8
              && (forall m :: 0 <= m < |steps| ==> Unprompted(steps[m]))
              && StageIs(onward[|steps|], k, R.Freed)
  {
    RunInv(states, acts, n);
    assert k < |states[n].holders|;
    var onward, steps := ReleaseReachable(states[n], k);
    assert IsPath(onward, steps);
  }
}
