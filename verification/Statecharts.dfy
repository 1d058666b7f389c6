/**
 * Flat statecharts, the bundled machines, and how many transitions they allow.
 */
module Statecharts {
  import opened Options

  /** `states` gives, per state, the next state for each action. */
  datatype StateMachine = StateMachine(
    id: string, initial: string, states: map<string, map<string, string>>, statusField: string)

  type Registry = map<string, StateMachine>

  predicate HasState(m: StateMachine, name: string) { name in m.states }

  function Next(m: StateMachine, current: string, action: string): Option<string> {
    if current !in m.states || action !in m.states[current] then None
    else Some(m.states[current][action])
  }

  function NextIn(registry: Registry, machine: string, current: string, action: string): Option<string> {
    if machine !in registry then None else Next(registry[machine], current, action)
  }

  // ---------------------------------------------------------------- loading fixtures

  /** A registration key and the machine its file holds, or nothing when the file cannot be read. */
  type Fixture = (string, Option<StateMachine>)

  predicate Loads(f: Fixture) { f.1.Some? && HasState(f.1.value, f.1.value.initial) }

  function Loaded(fixtures: seq<Fixture>): (registry: Registry)
    ensures forall key :: key in registry ==> registry[key].id == key && HasState(registry[key], registry[key].initial)
  {
    if fixtures == [] then map[]
    else
      var n := |fixtures| - 1;
      var before := Loaded(fixtures[..n]);
      if Loads(fixtures[n]) then before[fixtures[n].0 := fixtures[n].1.value.(id := fixtures[n].0)] else before
  }

  method LoadFixtures(fixtures: seq<Fixture>) returns (registry: Registry)
    ensures registry == Loaded(fixtures)
  {
    registry := map[];
    for i := 0 to |fixtures|
      invariant registry == Loaded(fixtures[..i])
    {
      assert fixtures[..i + 1][..i] == fixtures[..i];
      var (key, parsed) := fixtures[i];
      if parsed.Some? {
        var m := parsed.value;
        if m.id != key { m := m.(id := key); }
        if HasState(m, m.initial) { registry := registry[key := m]; }
      }
    }
    assert fixtures[..|fixtures|] == fixtures;
  }

  const CHARGE := StateMachine("charge", "created",
    map["created" := map["capture" := "captured", "void" := "voided"],
        "captured" := map["refund" := "refunded"],
        "refunded" := map[],
        "voided" := map[]], "status")

  const CUSTOMER := StateMachine("customer", "active",
    map["active" := map["suspend" := "suspended", "delete" := "deleted"],
        "suspended" := map["reactivate" := "active", "delete" := "deleted"],
        "deleted" := map[]], "status")

  const INVOICE := StateMachine("invoice", "draft",
    map["draft" := map["finalize" := "open", "void" := "voided"],
        "open" := map["pay" := "paid", "void" := "voided", "uncollectible" := "uncollectible"],
        "paid" := map["refund" := "refunded"],
        "refunded" := map[],
        "voided" := map[],
        "uncollectible" := map["pay" := "paid", "void" := "voided"]], "status")

  const ORDER := StateMachine("order", "pending",
    map["pending" := map["pay" := "paid", "cancel" := "cancelled"],
        "paid" := map["ship" := "shipped", "refund" := "refunded"],
        "shipped" := map["deliver" := "delivered", "return" := "returned"],
        "delivered" := map["return" := "returned"],
        "returned" := map["refund" := "refunded"],
        "refunded" := map[],
        "cancelled" := map[]], "status")

  const SUBSCRIPTION := StateMachine("subscription", "trialing",
    map["trialing" := map["activate" := "active", "cancel" := "cancelled"],
        "active" := map["pause" := "paused", "cancel" := "cancelled"],
        "paused" := map["resume" := "active", "cancel" := "cancelled"],
        "cancelled" := map[]], "status")

  const BUNDLED_FIXTURES: seq<Fixture> := [
    ("charge", Some(CHARGE)), ("customer", Some(CUSTOMER)), ("invoice", Some(INVOICE)),
    ("order", Some(ORDER)), ("subscription", Some(SUBSCRIPTION))]

  // ---------------------------------------------------------------- runs

  /** The state after the actions, when each of them is allowed. */
  function RunFrom(m: StateMachine, state: string, actions: seq<string>): Option<string> {
    if actions == [] then Some(state)
    else
      var n := |actions| - 1;
      var before := RunFrom(m, state, actions[..n]);
      if before.None? then None else Next(m, before.value, actions[n])
  }

  /** A rank that every transition lowers. */
  ghost predicate Falls(m: StateMachine, rank: map<string, nat>) {
    forall s, a :: Next(m, s, a).Some? ==>
      s in rank && Next(m, s, a).value in rank && rank[Next(m, s, a).value] < rank[s]
  }

  lemma {:induction false} RunBound(m: StateMachine, rank: map<string, nat>, state: string, actions: seq<string>)
    requires Falls(m, rank) && state in rank && RunFrom(m, state, actions).Some?
    ensures var end := RunFrom(m, state, actions).value; end in rank && rank[end] + |actions| <= rank[state]
  {
    if actions != [] {
      RunBound(m, rank, state, actions[..|actions| - 1]);
    }
  }

  const CHARGE_RANK: map<string, nat> := map["created" := 2, "captured" := 1, "refunded" := 0, "voided" := 0]

  const INVOICE_RANK: map<string, nat> := map[
    "draft" := 4, "open" := 3, "uncollectible" := 2, "paid" := 1, "refunded" := 0, "voided" := 0]

  const ORDER_RANK: map<string, nat> := map[
    "pending" := 5, "paid" := 4, "shipped" := 3, "delivered" := 2, "returned" := 1, "refunded" := 0, "cancelled" := 0]

  lemma ChargeFalls() ensures Falls(CHARGE, CHARGE_RANK) {}

  lemma InvoiceFalls() ensures Falls(INVOICE, INVOICE_RANK) {}

  lemma OrderFalls() ensures Falls(ORDER, ORDER_RANK) {}

  /** Every positive rank is lowered by exactly one by some action. */
  ghost predicate Climbs(m: StateMachine, rank: map<string, nat>) {
    forall s :: s in rank && rank[s] > 0 ==> exists a :: LowersByOne(m, rank, s, a)
  }

  predicate LowersByOne(m: StateMachine, rank: map<string, nat>, s: string, a: string) {
    s in rank && Next(m, s, a).Some? && Next(m, s, a).value in rank && rank[Next(m, s, a).value] + 1 == rank[s]
  }

  lemma ChargeClimbs()
    ensures Climbs(CHARGE, CHARGE_RANK)
  {
    assert LowersByOne(CHARGE, CHARGE_RANK, "created", "capture");
    assert LowersByOne(CHARGE, CHARGE_RANK, "captured", "refund");
  }

  lemma InvoiceClimbs()
    ensures Climbs(INVOICE, INVOICE_RANK)
  {
    assert LowersByOne(INVOICE, INVOICE_RANK, "draft", "finalize");
    assert LowersByOne(INVOICE, INVOICE_RANK, "open", "uncollectible");
    assert LowersByOne(INVOICE, INVOICE_RANK, "uncollectible", "pay");
    assert LowersByOne(INVOICE, INVOICE_RANK, "paid", "refund");
  }

  lemma OrderClimbs()
    ensures Climbs(ORDER, ORDER_RANK)
  {
    assert LowersByOne(ORDER, ORDER_RANK, "pending", "pay");
    assert LowersByOne(ORDER, ORDER_RANK, "paid", "ship");
    assert LowersByOne(ORDER, ORDER_RANK, "shipped", "deliver");
    assert LowersByOne(ORDER, ORDER_RANK, "delivered", "return");
    assert LowersByOne(ORDER, ORDER_RANK, "returned", "refund");
  }

  /** A charge makes at most 2 transitions. */
  lemma ChargeBound(actions: seq<string>)
    requires RunFrom(CHARGE, CHARGE.initial, actions).Some?
    ensures |actions| <= 2
  {
    ChargeFalls();
    RunBound(CHARGE, CHARGE_RANK, CHARGE.initial, actions);
  }

  /** An invoice makes at most 4 transitions. */
  lemma InvoiceBound(actions: seq<string>)
    requires RunFrom(INVOICE, INVOICE.initial, actions).Some?
    ensures |actions| <= 4
  {
    InvoiceFalls();
    RunBound(INVOICE, INVOICE_RANK, INVOICE.initial, actions);
  }

  /** An order makes at most 5 transitions. */
  lemma OrderBound(actions: seq<string>)
    requires RunFrom(ORDER, ORDER.initial, actions).Some?
    ensures |actions| <= 5
  {
    OrderFalls();
    RunBound(ORDER, ORDER_RANK, ORDER.initial, actions);
  }

  lemma RunSnoc(m: StateMachine, state: string, actions: seq<string>, action: string)
    ensures RunFrom(m, state, actions + [action]) ==
            var before := RunFrom(m, state, actions); if before.None? then None else Next(m, before.value, action)
  {
    assert (actions + [action])[..|actions|] == actions;
  }

  /** A walk along the transitions is a run. */
  lemma {:induction false} WalkIsRun(m: StateMachine, states: seq<string>, actions: seq<string>)
    requires |states| == |actions| + 1
    requires forall i :: 0 <= i < |actions| ==> Next(m, states[i], actions[i]) == Some(states[i + 1])
    ensures RunFrom(m, states[0], actions) == Some(states[|actions|])
  {
    if actions != [] {
      var n := |actions| - 1;
      WalkIsRun(m, states[..n + 1], actions[..n]);
    }
  }

  lemma ChargeBoundReached()
    ensures RunFrom(CHARGE, CHARGE.initial, ["capture", "refund"]) == Some("refunded")
  {
    WalkIsRun(CHARGE, ["created", "captured", "refunded"], ["capture", "refund"]);
  }

  lemma InvoiceBoundReached()
    ensures RunFrom(INVOICE, INVOICE.initial, ["finalize", "uncollectible", "pay", "refund"]) == Some("refunded")
  {
    WalkIsRun(INVOICE, ["draft", "open", "uncollectible", "paid", "refunded"], ["finalize", "uncollectible", "pay", "refund"]);
  }

  lemma OrderBoundReached()
    ensures RunFrom(ORDER, ORDER.initial, ["pay", "ship", "deliver", "return", "refund"]) == Some("refunded")
  {
    WalkIsRun(ORDER, ["pending", "paid", "shipped", "delivered", "returned", "refunded"],
              ["pay", "ship", "deliver", "return", "refund"]);
  }

  /** Two states that lead to each other allow runs of any length. */
  lemma {:induction false} Cycle(m: StateMachine, s: string, t: string, a: string, b: string, n: nat)
    returns (actions: seq<string>)
    requires Next(m, s, a) == Some(t) && Next(m, t, b) == Some(s)
    ensures |actions| == n && RunFrom(m, s, actions) == Some(if n % 2 == 0 then s else t)
  {
    if n == 0 {
      actions := [];
    } else {
      actions := Cycle(m, s, t, a, b, n - 1);
      RunSnoc(m, s, actions, if n % 2 == 1 then a else b);
      actions := actions + [if n % 2 == 1 then a else b];
    }
  }

  /** A customer can make any number of transitions. */
  lemma CustomerUnbounded(n: nat)
    ensures exists actions :: |actions| == n && RunFrom(CUSTOMER, CUSTOMER.initial, actions).Some?
  {
    var actions := Cycle(CUSTOMER, "active", "suspended", "suspend", "reactivate", n);
  }

  // ---------------------------------------------------------------- the bundled registry

  /** A machine was read under this key, and its initial state is one of its states. */
  ghost predicate Readable(f: Fixture, key: string) {
    f.0 == key && f.1.Some? && f.1.value.initial in f.1.value.states
  }

  ghost predicate LastReadable(fixtures: seq<Fixture>, key: string, i: int) {
    0 <= i < |fixtures| && Readable(fixtures[i], key) && forall j :: i < j < |fixtures| ==> !Readable(fixtures[j], key)
  }

  /** Under a key the registry has the last machine that could be read for it, with the key as its id, and nothing else. */
  lemma {:induction false} LoadedIsLast(fixtures: seq<Fixture>, key: string)
    ensures key in Loaded(fixtures) ==>
      exists i :: LastReadable(fixtures, key, i) && Loaded(fixtures)[key] == fixtures[i].1.value.(id := key)
    ensures key !in Loaded(fixtures) ==> forall i :: !LastReadable(fixtures, key, i)
  {
    if fixtures != [] {
      var n := |fixtures| - 1;
      LoadedIsLast(fixtures[..n], key);
      if Readable(fixtures[n], key) {
        assert LastReadable(fixtures, key, n);
      } else {
        forall i ensures LastReadable(fixtures, key, i) <==> LastReadable(fixtures[..n], key, i) {
          LastEarlier(fixtures, key, i);
        }
      }
    }
  }

  lemma LastEarlier(fixtures: seq<Fixture>, key: string, i: int)
    requires fixtures != [] && !Readable(fixtures[|fixtures| - 1], key)
    ensures LastReadable(fixtures, key, i) <==> LastReadable(fixtures[..|fixtures| - 1], key, i)
  {
    var n := |fixtures| - 1;
    assert forall j :: 0 <= j < n ==> fixtures[j] == fixtures[..n][j];
  }

  /** A fixture that loads is found under its key, unless a later one for that key loads too. */
  lemma LoadedValue(fixtures: seq<Fixture>, i: nat)
    requires i < |fixtures| && Loads(fixtures[i])
    requires forall j :: i < j < |fixtures| && Loads(fixtures[j]) ==> fixtures[j].0 != fixtures[i].0
    ensures fixtures[i].0 in Loaded(fixtures)
    ensures Loaded(fixtures)[fixtures[i].0] == fixtures[i].1.value.(id := fixtures[i].0)
  {
    var key := fixtures[i].0;
    LoadedIsLast(fixtures, key);
    assert LastReadable(fixtures, key, i);
  }

  /** Each bundled file holds a machine with its own id and a known initial state. */
  lemma BundledFixturesAreSound()
    ensures forall i :: 0 <= i < 5 ==> Loads(BUNDLED_FIXTURES[i]) && BUNDLED_FIXTURES[i].1.value.id == BUNDLED_FIXTURES[i].0
    ensures forall i, j :: 0 <= i < j < 5 ==> BUNDLED_FIXTURES[j].0 != BUNDLED_FIXTURES[i].0
  {
  }

  /** So all five load, as they are. */
  lemma BundledLoad(i: nat)
    requires i < 5
    ensures |BUNDLED_FIXTURES| == 5
    ensures BUNDLED_FIXTURES[i].0 in Loaded(BUNDLED_FIXTURES)
    ensures Loaded(BUNDLED_FIXTURES)[BUNDLED_FIXTURES[i].0] == BUNDLED_FIXTURES[i].1.value
  {
    BundledFixturesAreSound();
    LoadedValue(BUNDLED_FIXTURES, i);
  }
}
