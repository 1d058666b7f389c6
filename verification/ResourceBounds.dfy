/**
 * How often a resource moves in a run. The transitions that succeed on a key
 * since its last capture are bounded by the chart, plus what starts give back
 * by recovering an earlier state; and the exact condition on the starts under
 * which the chart's bound holds.
 */
module ResourceBounds {
  import opened Logs
  import opened Options
  import Statecharts
  import opened Resources
  import opened ResourceLog
  import opened ResourceStore
  import opened ResourceRuns
  import opened ResourceAgreement
  import opened ResourceLineage

  // ---------------------------------------------------------------- counting

  function Counted(registry: Option<Statecharts.Registry>, count: nat, w: World, step: Step, a: Address): nat {
    if CapturesAt(registry, step, a) then 0 else if SucceedsAt(registry, w, step, a) then count + 1 else count
  }

  /** The run's transitions that succeeded on a key since its last capture, whatever happened to them later. */
  function Successes(
    registry: Option<Statecharts.Registry>, trace: seq<World>, steps: seq<Step>, n: nat, a: Address): nat
    requires |trace| == |steps| + 1 && n < |trace|
  {
    if n == 0 then 0
    else Counted(registry, Successes(registry, trace, steps, n - 1, a), trace[n - 1], steps[n - 1], a)
  }

  /** What was stored when the process was last up. */
  function LastHeld(trace: seq<World>, n: nat, a: Address): Option<ResourceState>
    requires n < |trace|
  {
    if trace[n].up then Stored(trace[n], a) else if n == 0 then None else LastHeld(trace, n - 1, a)
  }

  /** How many transitions a stored state still has before it, at most. */
  function RankOf(rank: map<string, nat>, rs: Option<ResourceState>): nat {
    if rs.Some? && rs.value.currentState.Some? && rs.value.currentState.value in rank then rank[rs.value.currentState.value]
    else 0
  }

  function GivenBack(rank: map<string, nat>, before: Option<ResourceState>, after: Option<ResourceState>): nat {
    if RankOf(rank, after) > RankOf(rank, before) then RankOf(rank, after) - RankOf(rank, before) else 0
  }

  /** What the starts since the last capture gave back. */
  function Regained(
    registry: Option<Statecharts.Registry>, rank: map<string, nat>, trace: seq<World>, steps: seq<Step>, n: nat, a: Address)
    : nat
    requires |trace| == |steps| + 1 && n < |trace|
  {
    if n == 0 then 0
    else
      var before := Regained(registry, rank, trace, steps, n - 1, a);
      if CapturesAt(registry, steps[n - 1], a) then 0
      else if steps[n - 1].Boot? then before + GivenBack(rank, LastHeld(trace, n - 1, a), Stored(trace[n], a))
      else before
  }

  // ---------------------------------------------------------------- the bound

  /** The chart of a collection and a rank that its transitions lower. */
  ghost predicate Ranked(
    registry: Statecharts.Registry, collection: string, m: Statecharts.StateMachine, rank: map<string, nat>)
  {
    && ChartFor(Some(registry), collection).Some?
    && registry[ChartFor(Some(registry), collection).value] == m
    && Statecharts.Falls(m, rank) && m.initial in rank
  }

  lemma LinealRank(
    registry: Statecharts.Registry, m: Statecharts.StateMachine, rank: map<string, nat>, rs: ResourceState)
    requires Lineal(Some(registry), rs) && Ranked(registry, rs.collection, m, rank)
    ensures rs.statechart == ChartFor(Some(registry), rs.collection) && rs.currentState.Some?
    ensures rs.currentState.value in rank && rank[rs.currentState.value] <= rank[m.initial]
  {
    var actions := LinealState(registry, rs);
    Statecharts.RunBound(m, rank, m.initial, actions);
  }

  lemma SuccessLowersRank(
    registry: Statecharts.Registry, m: Statecharts.StateMachine, rank: map<string, nat>, w: World, step: Step, v: World, a: Address)
    requires Ranked(registry, a.1.0, m, rank) && AllLineal(Some(registry), w) && Keyed(w.mem)
    requires Next(Some(registry), w, step, v) && SucceedsAt(Some(registry), w, step, a)
    ensures RankOf(rank, Stored(v, a)) < RankOf(rank, Stored(w, a))
  {
    StoredNext(Some(registry), w, step, v, a);
    LinealRank(registry, m, rank, Stored(w, a).value);
  }

  /** For one step: successes and the rank left never exceed the chart's bound and what starts gave back. */
  lemma StepBounded(
    registry: Statecharts.Registry, m: Statecharts.StateMachine, rank: map<string, nat>,
    w: World, step: Step, v: World, a: Address, count: nat, bound: nat)
    requires Ranked(registry, a.1.0, m, rank) && AllLineal(Some(registry), w) && Keyed(w.mem)
    requires Next(Some(registry), w, step, v) && w.up && v.up
    requires count + RankOf(rank, Stored(w, a)) <= bound
    ensures !CapturesAt(Some(registry), step, a) ==>
              Counted(Some(registry), count, w, step, a) + RankOf(rank, Stored(v, a)) <= bound
  {
    if !step.Boot? { StoredNext(Some(registry), w, step, v, a); }
    if SucceedsAt(Some(registry), w, step, a) { SuccessLowersRank(registry, m, rank, w, step, v, a); }
  }

  lemma StoredRank(
    registry: Statecharts.Registry, m: Statecharts.StateMachine, rank: map<string, nat>, w: World, a: Address)
    requires Ranked(registry, a.1.0, m, rank) && AllLineal(Some(registry), w) && Keyed(w.mem)
    ensures RankOf(rank, Stored(w, a)) <= rank[m.initial]
  {
    if Stored(w, a).Some? {
      assert Lineal(Some(registry), Stored(w, a).value);
      LinealRank(registry, m, rank, Stored(w, a).value);
    }
  }

  /**
   * Over every run: the transitions that succeeded since the last capture and
   * the rank of what was last held stay within the chart's bound and what
   * starts gave back.
   */
  lemma {:induction false} SuccessesBounded(
    registry: Statecharts.Registry, m: Statecharts.StateMachine, rank: map<string, nat>,
    trace: seq<World>, steps: seq<Step>, n: nat, a: Address)
    requires IsRun(Some(registry), trace, steps) && n < |trace| && Ranked(registry, a.1.0, m, rank)
    requires AllLineal(Some(registry), trace[0]) && Keyed(trace[0].mem)
    ensures Successes(Some(registry), trace, steps, n, a) + RankOf(rank, LastHeld(trace, n, a))
         <= rank[m.initial] + Regained(Some(registry), rank, trace, steps, n, a)
  {
    LinealInRun(Some(registry), trace, steps, n);
    MemIsKeyed(Some(registry), trace, steps, n);
    if n == 0 {
      StoredRank(registry, m, rank, trace[0], a);
    } else {
      var w, step, v := trace[n - 1], steps[n - 1], trace[n];
      assert Next(Some(registry), w, step, v);
      SuccessesBounded(registry, m, rank, trace, steps, n - 1, a);
      if CapturesAt(Some(registry), step, a) {
        StoredRank(registry, m, rank, v, a);
      } else if w.up && v.up && !step.Boot? {
        LinealInRun(Some(registry), trace, steps, n - 1);
        MemIsKeyed(Some(registry), trace, steps, n - 1);
        StepBounded(registry, m, rank, w, step, v, a, Successes(Some(registry), trace, steps, n - 1, a),
                    rank[m.initial] + Regained(Some(registry), rank, trace, steps, n - 1, a));
      }
    }
  }

  // ---------------------------------------------------------------- further actions

  /** However many further actions the chart allows on a resource, the count stays within the bound. */
  ghost predicate FurtherWithin(registry: Statecharts.Registry, rs: Option<ResourceState>, count: nat, bound: nat) {
    && count <= bound
    && (rs.Some? ==> forall acts :: After(Some(registry), rs.value, acts).Some? ==> count + |acts| <= bound)
  }

  /** Some actions lower the rank one by one. */
  lemma {:induction false} LongestAfter(
    registry: Statecharts.Registry, m: Statecharts.StateMachine, rank: map<string, nat>, rs: ResourceState, k: nat)
    returns (acts: seq<ActionAt>)
    requires rs.statechart.Some? && rs.statechart.value in registry && registry[rs.statechart.value] == m
    requires Statecharts.Climbs(m, rank) && rs.currentState.Some? && rs.currentState.value in rank
    requires k <= rank[rs.currentState.value]
    ensures |acts| == k && After(Some(registry), rs, acts).Some?
    ensures var end := After(Some(registry), rs, acts).value;
      && end.statechart == rs.statechart && end.currentState.Some? && end.currentState.value in rank
      && rank[end.currentState.value] + k == rank[rs.currentState.value]
  {
    acts := [];
    if k > 0 {
      acts := LongestAfter(registry, m, rank, rs, k - 1);
      var before := After(Some(registry), rs, acts).value;
      var action :| Statecharts.LowersByOne(m, rank, before.currentState.value, action);
      AfterSnoc(Some(registry), rs, acts, (action, 0));
      acts := acts + [(action, 0)];
    }
  }

  /**
   * The count stays within the bound under every list of further actions if and
   * only if the count and the rank of the state do.
   */
  lemma FurtherIffRank(
    registry: Statecharts.Registry, m: Statecharts.StateMachine, rank: map<string, nat>, rs: ResourceState, count: nat, bound: nat)
    requires rs.statechart.Some? && rs.statechart.value in registry && registry[rs.statechart.value] == m
    requires Statecharts.Falls(m, rank) && Statecharts.Climbs(m, rank)
    requires rs.currentState.Some? && rs.currentState.value in rank
    ensures FurtherWithin(registry, Some(rs), count, bound) <==> count + RankOf(rank, Some(rs)) <= bound
  {
    var r := rank[rs.currentState.value];
    forall acts | After(Some(registry), rs, acts).Some? ensures |acts| <= r {
      AfterIsRun(registry, rs, acts);
      Statecharts.RunBound(m, rank, rs.currentState.value, Actions(acts));
    }
    var longest := LongestAfter(registry, m, rank, rs, r);
  }

  // ---------------------------------------------------------------- the exact condition over runs

  /** The chart of a collection, and a rank that its transitions lower, by one if one chooses. */
  ghost predicate Measured(
    registry: Statecharts.Registry, collection: string, m: Statecharts.StateMachine, rank: map<string, nat>)
  {
    Ranked(registry, collection, m, rank) && Statecharts.Climbs(m, rank)
  }

  /** What a start is going to find for a key in the files as they are listed. */
  function Given(w: World, order: seq<string>, a: Address): Option<ResourceState>
    requires forall i :: 0 <= i < |order| ==> order[i] in w.files
  {
    LookupIn(LoadedInto(map[], w.files, order, |order|), a.0, a.1)
  }

  /** For a service that starts recover, that is what its log gives. */
  lemma GivenIsLogged(w: World, order: seq<string>, a: Address)
    requires RecoversOwn(w.files, a.0) && IsFullListing(w.files, order)
    ensures Given(w, order, a) == Logged(w.files, a)
  {
    ServiceRecovered(w.files, order, a.0);
  }

  /** A start that brings back a state with more transitions before it than the count leaves. */
  ghost predicate Overdraws(rank: map<string, nat>, bound: nat, count: nat, w: World, step: Step, a: Address) {
    step.Boot? && IsListing(w.files, step.order) && count + RankOf(rank, Given(w, step.order, a)) > bound
  }

  ghost predicate Within(
    registry: Option<Statecharts.Registry>, rank: map<string, nat>, bound: nat, trace: seq<World>, steps: seq<Step>, n: nat, a: Address)
    requires |trace| == |steps| + 1 && n <= |steps|
  {
    Successes(registry, trace, steps, n, a) + RankOf(rank, LastHeld(trace, n, a)) <= bound
  }

  ghost predicate OverdrawsAt(
    registry: Option<Statecharts.Registry>, rank: map<string, nat>, bound: nat, trace: seq<World>, steps: seq<Step>, n: nat, a: Address)
    requires |trace| == |steps| + 1 && n < |steps|
  {
    Overdraws(rank, bound, Successes(registry, trace, steps, n, a), trace[n], steps[n], a)
  }

  /** A step leaves the count and the rank within the chart's bound exactly when it is no such start. */
  lemma StepWithinIff(
    registry: Statecharts.Registry, m: Statecharts.StateMachine, rank: map<string, nat>,
    trace: seq<World>, steps: seq<Step>, n: nat, a: Address)
    requires IsRun(Some(registry), trace, steps) && n < |steps| && Ranked(registry, a.1.0, m, rank)
    requires AllLineal(Some(registry), trace[0]) && Keyed(trace[0].mem)
    requires Within(Some(registry), rank, rank[m.initial], trace, steps, n, a)
    ensures Within(Some(registry), rank, rank[m.initial], trace, steps, n + 1, a) <==>
            !OverdrawsAt(Some(registry), rank, rank[m.initial], trace, steps, n, a)
  {
    var w, step, v := trace[n], steps[n], trace[n + 1];
    assert Next(Some(registry), w, step, v);
    if CapturesAt(Some(registry), step, a) {
      LinealInRun(Some(registry), trace, steps, n + 1);
      MemIsKeyed(Some(registry), trace, steps, n + 1);
      StoredRank(registry, m, rank, v, a);
    } else if w.up && v.up && !step.Boot? {
      LinealInRun(Some(registry), trace, steps, n);
      MemIsKeyed(Some(registry), trace, steps, n);
      StepBounded(registry, m, rank, w, step, v, a, Successes(Some(registry), trace, steps, n, a), rank[m.initial]);
    }
  }

  ghost predicate WithinThroughout(
    registry: Option<Statecharts.Registry>, rank: map<string, nat>, bound: nat, trace: seq<World>, steps: seq<Step>, n: nat, a: Address)
    requires |trace| == |steps| + 1 && n <= |steps|
  {
    forall i :: 0 <= i <= n ==> Within(registry, rank, bound, trace, steps, i, a)
  }

  ghost predicate NoneOverdraws(
    registry: Option<Statecharts.Registry>, rank: map<string, nat>, bound: nat, trace: seq<World>, steps: seq<Step>, n: nat, a: Address)
    requires |trace| == |steps| + 1 && n <= |steps|
  {
    forall i :: 0 <= i < n ==> !OverdrawsAt(registry, rank, bound, trace, steps, i, a)
  }

  lemma {:induction false} RunWithinIff(
    registry: Statecharts.Registry, m: Statecharts.StateMachine, rank: map<string, nat>,
    trace: seq<World>, steps: seq<Step>, n: nat, a: Address)
    requires IsRun(Some(registry), trace, steps) && n <= |steps| && Ranked(registry, a.1.0, m, rank)
    requires AllLineal(Some(registry), trace[0]) && Keyed(trace[0].mem)
    ensures WithinThroughout(Some(registry), rank, rank[m.initial], trace, steps, n, a) <==>
            NoneOverdraws(Some(registry), rank, rank[m.initial], trace, steps, n, a)
  {
    if n == 0 {
      StoredRank(registry, m, rank, trace[0], a);
      assert Within(Some(registry), rank, rank[m.initial], trace, steps, 0, a);
    } else {
      RunWithinIff(registry, m, rank, trace, steps, n - 1, a);
      OneMoreWithin(Some(registry), rank, rank[m.initial], trace, steps, n, a);
      LastStepWithin(registry, m, rank, trace, steps, n - 1, a);
    }
  }

  lemma LastStepWithin(
    registry: Statecharts.Registry, m: Statecharts.StateMachine, rank: map<string, nat>,
    trace: seq<World>, steps: seq<Step>, n: nat, a: Address)
    requires IsRun(Some(registry), trace, steps) && n < |steps| && Ranked(registry, a.1.0, m, rank)
    requires AllLineal(Some(registry), trace[0]) && Keyed(trace[0].mem)
    ensures WithinThroughout(Some(registry), rank, rank[m.initial], trace, steps, n, a) ==>
      (Within(Some(registry), rank, rank[m.initial], trace, steps, n + 1, a) <==>
       !OverdrawsAt(Some(registry), rank, rank[m.initial], trace, steps, n, a))
  {
    if WithinThroughout(Some(registry), rank, rank[m.initial], trace, steps, n, a) {
      WithinAt(Some(registry), rank, rank[m.initial], trace, steps, n, a);
      StepWithinIff(registry, m, rank, trace, steps, n, a);
    }
  }

  lemma WithinAt(
    registry: Option<Statecharts.Registry>, rank: map<string, nat>, bound: nat, trace: seq<World>, steps: seq<Step>, n: nat, a: Address)
    requires |trace| == |steps| + 1 && n <= |steps| && WithinThroughout(registry, rank, bound, trace, steps, n, a)
    ensures Within(registry, rank, bound, trace, steps, n, a)
  {
  }

  lemma OneMoreWithin(
    registry: Option<Statecharts.Registry>, rank: map<string, nat>, bound: nat, trace: seq<World>, steps: seq<Step>, n: nat, a: Address)
    requires |trace| == |steps| + 1 && 0 < n <= |steps|
    ensures WithinThroughout(registry, rank, bound, trace, steps, n, a) <==>
            WithinThroughout(registry, rank, bound, trace, steps, n - 1, a) && Within(registry, rank, bound, trace, steps, n, a)
    ensures NoneOverdraws(registry, rank, bound, trace, steps, n, a) <==>
            NoneOverdraws(registry, rank, bound, trace, steps, n - 1, a)
            && !OverdrawsAt(registry, rank, bound, trace, steps, n - 1, a)
  {
  }

  lemma {:induction false} LastHeldState(
    registry: Statecharts.Registry, m: Statecharts.StateMachine, rank: map<string, nat>,
    trace: seq<World>, steps: seq<Step>, n: nat, a: Address)
    requires IsRun(Some(registry), trace, steps) && n <= |steps| && Ranked(registry, a.1.0, m, rank)
    requires AllLineal(Some(registry), trace[0]) && Keyed(trace[0].mem)
    ensures LastHeld(trace, n, a).Some? ==>
      var rs := LastHeld(trace, n, a).value;
      && rs.statechart == ChartFor(Some(registry), a.1.0) && rs.statechart.value in registry
      && rs.currentState.Some? && rs.currentState.value in rank
  {
    if trace[n].up {
      LinealInRun(Some(registry), trace, steps, n);
      MemIsKeyed(Some(registry), trace, steps, n);
      if Stored(trace[n], a).Some? {
        assert Lineal(Some(registry), Stored(trace[n], a).value);
        LinealRank(registry, m, rank, Stored(trace[n], a).value);
      }
    } else if n > 0 {
      LastHeldState(registry, m, rank, trace, steps, n - 1, a);
    }
  }

  /** At every moment up to the `n`-th, further actions keep the run's own successes within the bound. */
  ghost predicate AlwaysFurtherWithin(
    registry: Statecharts.Registry, bound: nat, trace: seq<World>, steps: seq<Step>, n: nat, a: Address)
    requires |trace| == |steps| + 1 && n <= |steps|
  {
    forall i :: 0 <= i <= n ==>
      FurtherWithin(registry, LastHeld(trace, i, a), Successes(Some(registry), trace, steps, i, a), bound)
  }

  lemma FurtherIffWithin(
    registry: Statecharts.Registry, m: Statecharts.StateMachine, rank: map<string, nat>,
    trace: seq<World>, steps: seq<Step>, n: nat, a: Address)
    requires IsRun(Some(registry), trace, steps) && n <= |steps| && Measured(registry, a.1.0, m, rank)
    requires AllLineal(Some(registry), trace[0]) && Keyed(trace[0].mem)
    ensures FurtherWithin(registry, LastHeld(trace, n, a), Successes(Some(registry), trace, steps, n, a), rank[m.initial])
       <==> Within(Some(registry), rank, rank[m.initial], trace, steps, n, a)
  {
    LastHeldState(registry, m, rank, trace, steps, n, a);
    if LastHeld(trace, n, a).Some? {
      FurtherIffRank(registry, m, rank, LastHeld(trace, n, a).value, Successes(Some(registry), trace, steps, n, a), rank[m.initial]);
    }
  }

  /**
   * Over every run, with overlaps, failures, deletions, crashes and starts: at
   * every moment the successes since the last capture stay within the chart's
   * bound, whatever further actions follow, if and only if no start of the run
   * brought back a state with more transitions before it than were left.
   */
  lemma RunBoundedIff(
    registry: Statecharts.Registry, m: Statecharts.StateMachine, rank: map<string, nat>,
    trace: seq<World>, steps: seq<Step>, n: nat, a: Address)
    requires IsRun(Some(registry), trace, steps) && n <= |steps| && Measured(registry, a.1.0, m, rank)
    requires AllLineal(Some(registry), trace[0]) && Keyed(trace[0].mem)
    ensures AlwaysFurtherWithin(registry, rank[m.initial], trace, steps, n, a) <==>
            NoneOverdraws(Some(registry), rank, rank[m.initial], trace, steps, n, a)
  {
    RunWithinIff(registry, m, rank, trace, steps, n, a);
    forall i | 0 <= i <= n
      ensures FurtherWithin(registry, LastHeld(trace, i, a), Successes(Some(registry), trace, steps, i, a), rank[m.initial])
         <==> Within(Some(registry), rank, rank[m.initial], trace, steps, i, a)
    {
      FurtherIffWithin(registry, m, rank, trace, steps, i, a);
    }
  }

  /** The collection's resources are bound to this chart. */
  predicate Charted(registry: Statecharts.Registry, collection: string, m: Statecharts.StateMachine) {
    ChartFor(Some(registry), collection).Some? && registry[ChartFor(Some(registry), collection).value] == m
  }

  lemma ChargeMeasured(registry: Statecharts.Registry, collection: string)
    requires Charted(registry, collection, Statecharts.CHARGE)
    ensures Measured(registry, collection, Statecharts.CHARGE, Statecharts.CHARGE_RANK)
  {
    Statecharts.ChargeFalls();
    Statecharts.ChargeClimbs();
  }

  lemma InvoiceMeasured(registry: Statecharts.Registry, collection: string)
    requires Charted(registry, collection, Statecharts.INVOICE)
    ensures Measured(registry, collection, Statecharts.INVOICE, Statecharts.INVOICE_RANK)
  {
    Statecharts.InvoiceFalls();
    Statecharts.InvoiceClimbs();
  }

  lemma OrderMeasured(registry: Statecharts.Registry, collection: string)
    requires Charted(registry, collection, Statecharts.ORDER)
    ensures Measured(registry, collection, Statecharts.ORDER, Statecharts.ORDER_RANK)
  {
    Statecharts.OrderFalls();
    Statecharts.OrderClimbs();
  }

  /** For charges the bound is 2. */
  lemma ChargesBoundedIff(registry: Statecharts.Registry, trace: seq<World>, steps: seq<Step>, n: nat, a: Address)
    requires IsRun(Some(registry), trace, steps) && n <= |steps| && Charted(registry, a.1.0, Statecharts.CHARGE)
    requires AllLineal(Some(registry), trace[0]) && Keyed(trace[0].mem)
    ensures AlwaysFurtherWithin(registry, 2, trace, steps, n, a) <==>
            NoneOverdraws(Some(registry), Statecharts.CHARGE_RANK, 2, trace, steps, n, a)
  {
    ChargeMeasured(registry, a.1.0);
    RunBoundedIff(registry, Statecharts.CHARGE, Statecharts.CHARGE_RANK, trace, steps, n, a);
  }

  /** For invoices it is 4. */
  lemma InvoicesBoundedIff(registry: Statecharts.Registry, trace: seq<World>, steps: seq<Step>, n: nat, a: Address)
    requires IsRun(Some(registry), trace, steps) && n <= |steps| && Charted(registry, a.1.0, Statecharts.INVOICE)
    requires AllLineal(Some(registry), trace[0]) && Keyed(trace[0].mem)
    ensures AlwaysFurtherWithin(registry, 4, trace, steps, n, a) <==>
            NoneOverdraws(Some(registry), Statecharts.INVOICE_RANK, 4, trace, steps, n, a)
  {
    InvoiceMeasured(registry, a.1.0);
    RunBoundedIff(registry, Statecharts.INVOICE, Statecharts.INVOICE_RANK, trace, steps, n, a);
  }

  /** And for orders 5. */
  lemma OrdersBoundedIff(registry: Statecharts.Registry, trace: seq<World>, steps: seq<Step>, n: nat, a: Address)
    requires IsRun(Some(registry), trace, steps) && n <= |steps| && Charted(registry, a.1.0, Statecharts.ORDER)
    requires AllLineal(Some(registry), trace[0]) && Keyed(trace[0].mem)
    ensures AlwaysFurtherWithin(registry, 5, trace, steps, n, a) <==>
            NoneOverdraws(Some(registry), Statecharts.ORDER_RANK, 5, trace, steps, n, a)
  {
    OrderMeasured(registry, a.1.0);
    RunBoundedIff(registry, Statecharts.ORDER, Statecharts.ORDER_RANK, trace, steps, n, a);
  }

  /** A crash and the start after it leave a key as it was if and only if map and log agreed on it at the crash. */
  lemma CrashRestoresIff(
    registry: Option<Statecharts.Registry>, w: World, crash: Step, dead: World, boot: Step, again: World, a: Address)
    requires w.up && RecoversOwn(dead.files, a.0)
    requires crash.Crash? && Next(registry, w, crash, dead)
    requires boot.Boot? && Next(registry, dead, boot, again)
    ensures Stored(again, a) == Stored(w, a) <==> Agrees(w, a)
  {
    LoggedNext(registry, w, crash, dead, a);
    BootRecovers(registry, dead, boot, again, a);
  }

  // ---------------------------------------------------------------- continuing a run

  lemma RunGrows(registry: Option<Statecharts.Registry>, trace: seq<World>, steps: seq<Step>, step: Step, v: World)
    requires IsRun(registry, trace, steps) && Next(registry, trace[|steps|], step, v)
    ensures IsRun(registry, trace + [v], steps + [step])
  {
    var t, s := trace + [v], steps + [step];
    forall i | 0 <= i < |s| ensures Next(registry, t[i], s[i], t[i + 1]) {
      if i < |steps| { assert Next(registry, trace[i], steps[i], trace[i + 1]); }
    }
  }

  lemma {:induction false} SuccessesOfPrefix(
    registry: Option<Statecharts.Registry>, trace: seq<World>, steps: seq<Step>, step: Step, v: World, n: nat, a: Address)
    requires |trace| == |steps| + 1 && n <= |steps|
    ensures Successes(registry, trace + [v], steps + [step], n, a) == Successes(registry, trace, steps, n, a)
  {
    if n > 0 { SuccessesOfPrefix(registry, trace, steps, step, v, n - 1, a); }
  }

  /** A run so far, the world it ended in, and how often the key was moved. */
  ghost predicate Reached(
    registry: Option<Statecharts.Registry>, trace: seq<World>, steps: seq<Step>, w: World, a: Address, count: nat)
  {
    IsRun(registry, trace, steps) && trace[|steps|] == w && Successes(registry, trace, steps, |steps|, a) == count
  }

  lemma Reaches(
    registry: Option<Statecharts.Registry>, trace: seq<World>, steps: seq<Step>, w: World, a: Address, count: nat,
    step: Step, v: World)
    returns (trace2: seq<World>, steps2: seq<Step>)
    requires Reached(registry, trace, steps, w, a, count) && Next(registry, w, step, v)
    ensures Reached(registry, trace2, steps2, v, a, Counted(registry, count, w, step, a))
    ensures trace2 == trace + [v] && steps2 == steps + [step]
  {
    RunGrows(registry, trace, steps, step, v);
    SuccessesOfPrefix(registry, trace, steps, step, v, |steps|, a);
    trace2, steps2 := trace + [v], steps + [step];
  }

  lemma Moves(
    registry: Option<Statecharts.Registry>, w: World, a: Address, op: nat, rs: ResourceState, action: string, t: int)
    returns (v: World)
    requires w.up && op !in w.pending && Stored(w, a) == Some(rs) && KeyOf(rs) == a.1
    requires Transition(registry, rs, action, t).Some?
    ensures Next(registry, w, Transit(op, a.0, a.1, action, t), v)
    ensures SucceedsAt(registry, w, Transit(op, a.0, a.1, action, t), a)
    ensures v.up && v.files == w.files && v.pending.Keys == w.pending.Keys + {op}
    ensures Stored(v, a) == Transition(registry, rs, action, t)
  {
    var next := Transition(registry, rs, action, t).value;
    v := Written(w, a.0, next, op, Snapshotting(a.0, a.1));
    StoredWritten(w, a.0, next, op, Snapshotting(a.0, a.1), a);
  }

  /** The second run goes on from the first with transitions alone. */
  ghost predicate Prolongs(trace: seq<World>, steps: seq<Step>, trace2: seq<World>, steps2: seq<Step>) {
    trace <= trace2 && steps <= steps2 && forall i :: |steps| <= i < |steps2| ==> steps2[i].Transit?
  }

  lemma ProlongedByOne(
    trace: seq<World>, steps: seq<Step>, trace1: seq<World>, steps1: seq<Step>, step: Step, v: World)
    requires Prolongs(trace, steps, trace1, steps1) && step.Transit?
    ensures Prolongs(trace, steps, trace1 + [v], steps1 + [step])
  {
  }

  /** A run goes on with these actions on the key and nothing else. */
  lemma {:induction false} Continued(
    registry: Option<Statecharts.Registry>, trace: seq<World>, steps: seq<Step>, w: World, a: Address, rs: ResourceState,
    count: nat, acts: seq<ActionAt>)
    returns (trace2: seq<World>, steps2: seq<Step>, v: World)
    requires Reached(registry, trace, steps, w, a, count)
    requires w.up && Stored(w, a) == Some(rs) && KeyOf(rs) == a.1 && After(registry, rs, acts).Some?
    ensures Reached(registry, trace2, steps2, v, a, count + |acts|)
    ensures Prolongs(trace, steps, trace2, steps2)
    ensures v.up && Stored(v, a) == After(registry, rs, acts) && KeyOf(Stored(v, a).value) == a.1
    decreases |acts|
  {
    if acts == [] {
      trace2, steps2, v := trace, steps, w;
    } else {
      var n := |acts| - 1;
      var trace1, steps1, mid := Continued(registry, trace, steps, w, a, rs, count, acts[..n]);
      var op := UnusedId(mid.pending.Keys);
      v := Moves(registry, mid, a, op, Stored(mid, a).value, acts[n].0, acts[n].1);
      var step := Transit(op, a.0, a.1, acts[n].0, acts[n].1);
      trace2, steps2 := Reaches(registry, trace1, steps1, mid, a, count + n, step, v);
      ProlongedByOne(trace, steps, trace1, steps1, step, v);
    }
  }

  /**
   * After the first start that overdraws, the run can go on with transitions of
   * the key alone until more have succeeded than the chart allows.
   */
  lemma OverdrawnRunExceeds(
    registry: Statecharts.Registry, m: Statecharts.StateMachine, rank: map<string, nat>,
    trace: seq<World>, steps: seq<Step>, n: nat, a: Address)
    returns (trace2: seq<World>, steps2: seq<Step>)
    requires IsRun(Some(registry), trace, steps) && |steps| == n + 1 && Measured(registry, a.1.0, m, rank)
    requires AllLineal(Some(registry), trace[0]) && Keyed(trace[0].mem)
    requires NoneOverdraws(Some(registry), rank, rank[m.initial], trace, steps, n, a)
    requires OverdrawsAt(Some(registry), rank, rank[m.initial], trace, steps, n, a)
    ensures IsRun(Some(registry), trace2, steps2) && Prolongs(trace, steps, trace2, steps2)
    ensures Successes(Some(registry), trace2, steps2, |steps2|, a) > rank[m.initial]
  {
    RunWithinIff(registry, m, rank, trace, steps, n, a);
    assert Within(Some(registry), rank, rank[m.initial], trace, steps, n, a);
    assert Next(Some(registry), trace[n], steps[n], trace[n + 1]);
    var v, count := trace[n + 1], Successes(Some(registry), trace, steps, n + 1, a);
    LastHeldState(registry, m, rank, trace, steps, n + 1, a);
    MemIsKeyed(Some(registry), trace, steps, n + 1);
    var rs := Stored(v, a).value;
    var acts := LongestAfter(registry, m, rank, rs, rank[rs.currentState.value]);
    var last;
    trace2, steps2, last := Continued(Some(registry), trace, steps, v, a, rs, count, acts);
  }

  // ---------------------------------------------------------------- a charge moved three times

  const FILE := "pay.jsonl"

  lemma FileOfPay()
    ensures FileOf("pay") == FILE && IsLog(FILE) && ServiceOf(FILE) == "pay"
  {
    assert FILE[..3] == "pay" && FILE[3..] == SUFFIX;
  }

  lemma OneLine(rs: ResourceState)
    ensures Replay([Entry(rs)]) == map[KeyOf(rs) := rs] && Replay([Entry(rs)]) != map[] && WithText([Entry(rs)]) == [Entry(rs)]
  {
    var lines := [Entry(rs)];
    assert lines[..0] == [] && Replay([]) == map[] && WithText([]) == [];
    assert KeyOf(rs) in Replay(lines);
  }

  /** One logged charge: a crash and a start bring exactly it back. */
  lemma CrashAndStart(registry: Option<Statecharts.Registry>, w: World, rs: ResourceState) returns (dead: World, again: World)
    requires w.files == map[FILE := [Entry(rs)]]
    ensures Next(registry, w, Crash([FILE], 0, {}), dead) && Next(registry, dead, Boot([FILE], {}), again)
    ensures again == World(true, map["pay" := map[KeyOf(rs) := rs]], w.files, map[])
  {
    FileOfPay();
    OneLine(rs);
    dead := World(false, map[], w.files, map[]);
    again := World(true, map["pay" := map[KeyOf(rs) := rs]], w.files, map[]);
    assert [FILE][..0] == [] && [FILE][..1] == [FILE];
    assert LoadedInto(map[], w.files, [FILE], 0) == map[];
    assert LoadedInto(map[], w.files, [FILE], 1) == again.mem;
  }

  lemma CaptureLands(registry: Option<Statecharts.Registry>, step: Step) returns (mid: World, v: World)
    requires step.Capture? && step.service == "pay" && CapturedBy(registry, step).Some?
    ensures var w, rs := World(true, map[], map[], map[]), CapturedBy(registry, step).value;
      && Next(registry, w, step, mid) && Next(registry, mid, Append(step.op, true), v)
      && v.up && v.pending == map[] && v.files == map[FILE := [Entry(rs)]] && Stored(v, ("pay", KeyOf(rs))) == Some(rs)
  {
    FileOfPay();
    var w, rs := World(true, map[], map[], map[]), CapturedBy(registry, step).value;
    mid := Written(w, "pay", rs, step.op, Appending("pay", rs));
    StoredWritten(w, "pay", rs, step.op, Appending("pay", rs), ("pay", KeyOf(rs)));
    v := mid.(files := Appended(w.files, "pay", rs), pending := map[]);
    assert LogOf(w.files, "pay") + [Entry(rs)] == [Entry(rs)];
  }

  lemma ChargeMoves(rs: ResourceState, t: int)
    requires rs.statechart == Some("charge") && rs.currentState == Some("created")
    ensures var registry := Some(map["charge" := Statecharts.CHARGE]);
      var captured := Transition(registry, rs, "capture", t);
      && captured.Some? && KeyOf(captured.value) == KeyOf(rs)
      && Transition(registry, captured.value, "refund", t).Some?
  {
  }

  /**
   * The bound fails when a start loses an action: a charge is captured and
   * logged; its `capture` action is not appended before a crash; after the
   * start it is applied again, and `refund` follows. Three actions succeed on
   * one capture.
   */
  lemma ChargeMovedThrice(step: Step, t: int) returns (trace: seq<World>, steps: seq<Step>)
    requires step.Capture? && step.service == "pay" && step.collection == "charges"
    requires ExtractId(step.body, step.collection, step.hint).Some?
    ensures var registry := Some(map["charge" := Statecharts.CHARGE]);
      && IsRun(registry, trace, steps) && trace[0] == World(true, map[], map[], map[])
      && CapturedBy(registry, step).Some?
      && Successes(registry, trace, steps, |steps|, ("pay", KeyOf(CapturedBy(registry, step).value))) == 3
  {
    var registry := Some(map["charge" := Statecharts.CHARGE]);
    var rs := CapturedBy(registry, step).value;
    var a := ("pay", KeyOf(rs));
    assert Singular("charges") == "charge";
    ChargeMoves(rs, t);
    var moved := Transition(registry, rs, "capture", t).value;
    var w0 := World(true, map[], map[], map[]);
    var w1, w2 := CaptureLands(registry, step);
    var w3 := Moves(registry, w2, a, 1, rs, "capture", t);
    var w4, w5 := CrashAndStart(registry, w3, rs);
    var w6 := Moves(registry, w5, a, 1, rs, "capture", t);
    var w7 := Moves(registry, w6, a, 2, moved, "refund", t);
    trace, steps := [w0], [];
    trace, steps := Reaches(registry, trace, steps, w0, a, 0, step, w1);
    trace, steps := Reaches(registry, trace, steps, w1, a, 0, Append(step.op, true), w2);
    trace, steps := Reaches(registry, trace, steps, w2, a, 0, Transit(1, "pay", KeyOf(rs), "capture", t), w3);
    trace, steps := Reaches(registry, trace, steps, w3, a, 1, Crash([FILE], 0, {}), w4);
    trace, steps := Reaches(registry, trace, steps, w4, a, 1, Boot([FILE], {}), w5);
    trace, steps := Reaches(registry, trace, steps, w5, a, 1, Transit(1, "pay", KeyOf(rs), "capture", t), w6);
    trace, steps := Reaches(registry, trace, steps, w6, a, 2, Transit(2, "pay", KeyOf(rs), "refund", t), w7);
  }
}
