/**
 * When the map and the log of the resource store come to agree on a key: the
 * exact condition on a state for every way of finishing the pending operations,
 * and the exact condition on a step for keeping it.
 */
module ResourceAgreement {
  import opened Options
  import Statecharts
  import opened Resources
  import opened ResourceLog
  import opened ResourceStore
  import opened ResourceRuns

  /** An operation on this key has done its locked write and not finished. */
  ghost predicate Busy(w: World, a: Address) {
    exists op :: op in w.pending && AddressOf(w.pending[op]) == a
  }

  /** The operation holds a state of this key that it is going to append. */
  ghost predicate Holds(w: World, op: nat, a: Address) {
    op in w.pending && w.pending[op].Appending? && AddressOf(w.pending[op]) == a
  }

  /** The operation will append something to this key: what it holds, or what it has still to read. */
  ghost predicate Appends(w: World, op: nat, a: Address) {
    op in w.pending && AddressOf(w.pending[op]) == a && (w.pending[op].Appending? || Stored(w, a).Some?)
  }

  ghost predicate WillAppend(w: World, a: Address) {
    exists op :: Appends(w, op, a)
  }

  /** No operation holds a state that the map does not hold any more. */
  ghost predicate Fresh(w: World, a: Address) {
    forall op :: Holds(w, op, a) ==> Some(w.pending[op].rs) == Stored(w, a)
  }

  ghost predicate Agrees(w: World, a: Address) { Stored(w, a) == Logged(w.files, a) }

  /** What is held is fresh; and map and log agree already unless something is still to be appended. */
  ghost predicate Settles(w: World, a: Address) {
    Fresh(w, a) && (WillAppend(w, a) || Agrees(w, a))
  }

  // ---------------------------------------------------------------- finishing the pending operations

  function StepOf(w: World, op: nat): Step
    requires op in w.pending
  {
    if w.pending[op].Appending? then Append(op, true) else Snapshot(op)
  }

  /** The operation takes its next step, with success; a finished one does nothing. */
  function Advance(w: World, op: nat): World {
    if op !in w.pending then w
    else
      match w.pending[op]
      case Appending(service, rs) => w.(files := Appended(w.files, service, rs), pending := w.pending - {op})
      case Snapshotting(service, key) =>
        var rs := LookupIn(w.mem, service, key);
        w.(pending := if rs.Some? then w.pending[op := Appending(service, rs.value)] else w.pending - {op})
  }

  lemma AdvanceIsNext(registry: Option<Statecharts.Registry>, w: World, op: nat)
    requires op in w.pending
    ensures Next(registry, w, StepOf(w, op), Advance(w, op))
  {
  }

  /** The operations take steps in this order. */
  function Finish(w: World, ops: seq<nat>): World
    decreases |ops|
  {
    if ops == [] then w else Finish(Advance(w, ops[0]), ops[1..])
  }

  lemma AdvanceSettles(w: World, op: nat, a: Address)
    requires Keyed(w.mem) && Settles(w, a)
    ensures Settles(Advance(w, op), a)
  {
    if op in w.pending {
      AdvanceIsNext(None, w, op);
      var v := Advance(w, op);
      if w.pending[op].Appending? {
        AppendSettles(w, op, true, v, a);
      } else {
        SnapshotSettles(w, op, v, a);
      }
    }
  }

  lemma {:induction false} FinishSettles(w: World, ops: seq<nat>, a: Address)
    requires Keyed(w.mem) && Settles(w, a)
    ensures Settles(Finish(w, ops), a)
    decreases |ops|
  {
    if ops != [] {
      AdvanceSettles(w, ops[0], a);
      FinishSettles(Advance(w, ops[0]), ops[1..], a);
    }
  }

  /** Two steps finish any operation. */
  lemma AdvanceTwice(w: World, op: nat)
    requires op in w.pending
    ensures var v := Advance(Advance(w, op), op);
      && v.mem == w.mem && v.pending == w.pending - {op}
      && (w.pending[op].Snapshotting? && LookupIn(w.mem, w.pending[op].service, w.pending[op].key).None? ==> v.files == w.files)
  {
  }

  lemma FinishTwo(w: World, op: nat, ops: seq<nat>)
    ensures Finish(w, [op, op] + ops) == Finish(Advance(Advance(w, op), op), ops)
  {
    assert ([op, op] + ops)[1..] == [op] + ops && ([op] + ops)[1..] == ops;
  }

  lemma {:induction false} FinishConcat(w: World, ops: seq<nat>, more: seq<nat>)
    ensures Finish(w, ops + more) == Finish(Finish(w, ops), more)
    decreases |ops|
  {
    if ops == [] {
      assert ops + more == more;
    } else {
      assert (ops + more)[1..] == ops[1..] + more;
      FinishConcat(Advance(w, ops[0]), ops[1..], more);
    }
  }

  /** All operations on the key but one can be finished. */
  lemma {:induction false} FinishOthers(w: World, a: Address, keep: nat) returns (ops: seq<nat>)
    ensures var v := Finish(w, ops);
      && v.mem == w.mem
      && (forall op :: op in v.pending && AddressOf(v.pending[op]) == a ==> op == keep)
      && (keep in w.pending ==> keep in v.pending && v.pending[keep] == w.pending[keep])
      && (keep !in w.pending ==> keep !in v.pending)
      && (Stored(w, a).None? && (forall op :: !Holds(w, op, a)) ==> v.files == w.files)
    decreases |w.pending|
  {
    ops := [];
    if op :| op in w.pending && AddressOf(w.pending[op]) == a && op != keep {
      var v := Advance(Advance(w, op), op);
      AdvanceTwice(w, op);
      assert w.pending.Keys == v.pending.Keys + {op};
      assert Stored(w, a).None? && (forall q :: !Holds(w, q, a)) ==> v.files == w.files && forall q :: !Holds(v, q, a) by {
        assert !Holds(w, op, a) ==> w.pending[op].Snapshotting?;
        assert forall q :: Holds(v, q, a) ==> Holds(w, q, a);
      }
      var rest := FinishOthers(v, a, keep);
      FinishTwo(w, op, rest);
      ops := [op, op] + rest;
    }
  }

  lemma {:induction false} UnusedId(ops: set<nat>) returns (n: nat)
    ensures forall op :: op in ops ==> op < n
  {
    n := 0;
    if ops != {} {
      var op :| op in ops;
      n := UnusedId(ops - {op});
      if n <= op { n := op + 1; }
      assert forall q :: q in ops ==> q == op || q in ops - {op};
    }
  }

  /** A state that does not settle can be finished so that map and log disagree. */
  lemma UnsettledDiverges(w: World, a: Address) returns (ops: seq<nat>)
    requires Keyed(w.mem) && !Settles(w, a)
    ensures !Busy(Finish(w, ops), a) && !Agrees(Finish(w, ops), a)
  {
    if stale :| Holds(w, stale, a) && Some(w.pending[stale].rs) != Stored(w, a) {
      ops := FinishOthers(w, a, stale);
      var v := Finish(w, ops);
      var last := Advance(v, stale);
      LoggedAppended(v.files, v.pending[stale].service, v.pending[stale].rs, a);
      FinishConcat(w, ops, [stale]);
      assert Finish(v, [stale]) == last by { assert [stale][1..] == []; }
      ops := ops + [stale];
    } else {
      var none := UnusedId(w.pending.Keys);
      assert forall op :: !Appends(w, op, a);
      assert forall op :: Holds(w, op, a) ==> Appends(w, op, a);
      if Busy(w, a) {
        var op :| op in w.pending && AddressOf(w.pending[op]) == a;
        assert !Appends(w, op, a);
        ops := FinishOthers(w, a, none);
      } else {
        ops := [];
      }
    }
  }

  /**
   * Every way of finishing the operations on a key, in any order and with
   * successful appends, ends with map and log in agreement, if and only if the
   * state settles.
   */
  lemma CompletionsAgree(w: World, a: Address)
    requires Keyed(w.mem)
    ensures (forall ops :: !Busy(Finish(w, ops), a) ==> Agrees(Finish(w, ops), a)) <==> Settles(w, a)
  {
    if Settles(w, a) {
      forall ops | !Busy(Finish(w, ops), a) ensures Agrees(Finish(w, ops), a) {
        FinishSettles(w, ops, a);
        assert forall op :: !Appends(Finish(w, ops), op, a);
      }
    } else {
      var ops := UnsettledDiverges(w, a);
    }
  }

  // ---------------------------------------------------------------- steps

  /** An operation on this key holds another state than this one. */
  ghost predicate HeldOtherwise(w: World, a: Address, rs: ResourceState) {
    exists op :: Holds(w, op, a) && w.pending[op].rs != rs
  }

  /**
   * The steps after which a key does not settle any more: a locked write of
   * another state while an operation holds its own, the failure of the only
   * append that would have brought the log up to date, and the deletion of a
   * key that is logged or about to be.
   */
  ghost predicate Spoils(registry: Option<Statecharts.Registry>, w: World, step: Step, a: Address) {
    match step
    case Capture(_, service, _, _, _, _, _, _) =>
      var rs := CapturedBy(registry, step);
      rs.Some? && a == (service, KeyOf(rs.value)) && HeldOtherwise(w, a, rs.value)
    case Transit(_, service, key, action, now) =>
      var rs := TransitionIn(registry, w.mem, service, key, action, now);
      rs.Some? && a == (service, key) && HeldOtherwise(w, a, rs.value)
    case Append(op, diskOk) =>
      !diskOk && Holds(w, op, a) && !Agrees(w, a) && forall q :: Appends(w, q, a) ==> q == op
    case Delete(service, key) =>
      a == (service, key) && (Logged(w.files, a).Some? || exists op :: Holds(w, op, a))
    case _ => false
  }

  /** A locked write touches one key. */
  lemma StoredWritten(w: World, service: string, rs: ResourceState, op: nat, todo: Op, a: Address)
    ensures Stored(Written(w, service, rs, op, todo), a) == if a == (service, KeyOf(rs)) then Some(rs) else Stored(w, a)
  {
    LookupInserted(w.mem, service, rs, a.0, a.1);
  }

  lemma WriteDecides(w: World, service: string, rs: ResourceState, op: nat, todo: Op, a: Address)
    requires op !in w.pending && Settles(w, a)
    requires todo == Appending(service, rs) || todo == Snapshotting(service, KeyOf(rs))
    ensures Settles(Written(w, service, rs, op, todo), a) <==> !(a == (service, KeyOf(rs)) && HeldOtherwise(w, a, rs))
  {
    var v := Written(w, service, rs, op, todo);
    StoredWritten(w, service, rs, op, todo, a);
    assert forall q :: q != op ==> (Holds(v, q, a) <==> Holds(w, q, a));
    if a == (service, KeyOf(rs)) {
      assert Appends(v, op, a);
      assert forall q :: Holds(w, q, a) && w.pending[q].rs != rs ==> Holds(v, q, a) && v.pending[q].rs != rs;
    } else {
      assert !Holds(v, op, a);
      assert forall q :: Appends(v, q, a) <==> Appends(w, q, a);
    }
  }

  lemma SnapshotSettles(w: World, op: nat, v: World, a: Address)
    requires Keyed(w.mem) && Settles(w, a) && Next(None, w, Snapshot(op), v)
    ensures Settles(v, a)
  {
    assert forall q :: Appends(v, q, a) <==> Appends(w, q, a);
    assert forall q :: q != op && Holds(v, q, a) ==> Holds(w, q, a);
  }

  lemma AppendSettles(w: World, op: nat, diskOk: bool, v: World, a: Address)
    requires Settles(w, a) && Next(None, w, Append(op, diskOk), v)
    ensures Settles(v, a) <==> !Spoils(None, w, Append(op, diskOk), a)
  {
    var todo := w.pending[op];
    assert forall q :: Holds(v, q, a) ==> Holds(w, q, a);
    assert forall q :: Appends(v, q, a) <==> Appends(w, q, a) && q != op;
    if diskOk {
      LoggedAppended(w.files, todo.service, todo.rs, a);
      assert Holds(w, op, AddressOf(todo));
    }
  }

  lemma DeleteDecides(w: World, service: string, key: Key, a: Address)
    requires Settles(w, a)
    ensures Settles(w.(mem := Removed(w.mem, service, key)), a) <==> !Spoils(None, w, Delete(service, key), a)
  {
    var v := w.(mem := Removed(w.mem, service, key));
    assert forall q :: Holds(v, q, a) <==> Holds(w, q, a);
    if a == (service, key) {
      assert Stored(v, a) == None;
      assert forall q :: Appends(v, q, a) <==> Holds(w, q, a);
    } else {
      assert Stored(v, a) == Stored(w, a);
      assert forall q :: Appends(v, q, a) <==> Appends(w, q, a);
    }
  }

  /** A start makes every key of a service that it recovers settle. */
  lemma BootRecovers(registry: Option<Statecharts.Registry>, w: World, step: Step, v: World, a: Address)
    requires RecoversOwn(w.files, a.0) && step.Boot? && Next(registry, w, step, v)
    ensures Stored(v, a) == Logged(w.files, a) == Logged(v.files, a)
  {
    ServiceRecovered(w.files, step.order, a.0);
    LoggedNext(registry, w, step, v, a);
  }

  /** A step keeps a key settling exactly when it is none of the spoiling ones. */
  lemma StepDecides(registry: Option<Statecharts.Registry>, w: World, step: Step, v: World, a: Address)
    requires Next(registry, w, step, v) && Keyed(w.mem)
    requires w.up ==> Settles(w, a)
    requires !w.up ==> w.pending == map[]
    requires step.Boot? ==> RecoversOwn(w.files, a.0)
    ensures (v.up ==> Settles(v, a)) <==> !Spoils(registry, w, step, a)
  {
    match step {
      case Capture(op, service, _, _, _, _, _, _) =>
        var rs := CapturedBy(registry, step);
        if rs.Some? { WriteDecides(w, service, rs.value, op, Appending(service, rs.value), a); }
      case Transit(op, service, key, action, now) =>
        var rs := TransitionIn(registry, w.mem, service, key, action, now);
        if rs.Some? { WriteDecides(w, service, rs.value, op, Snapshotting(service, key), a); }
      case Snapshot(op) => SnapshotSettles(w, op, v, a);
      case Append(op, diskOk) => AppendSettles(w, op, diskOk, v, a);
      case Delete(service, key) => DeleteDecides(w, service, key, a);
      case Crash(_, _, _) =>
      case Boot(_, _) =>
        BootRecovers(registry, w, step, v, a);
        assert forall q :: !Holds(v, q, a);
    }
  }

  // ---------------------------------------------------------------- runs

  /** Each start of the run recovers the service. */
  ghost predicate StartsRecover(trace: seq<World>, steps: seq<Step>, service: string)
    requires |trace| == |steps| + 1
  {
    forall i :: 0 <= i < |steps| && steps[i].Boot? ==> RecoversOwn(trace[i].files, service)
  }

  /** The step writes no service of another id whose file name reads as this one. */
  predicate NamesApart(step: Step, service: string) {
    step.Capture? || step.Transit? ==> ServiceOf(step.service) == service ==> step.service == service
  }

  ghost predicate OpsApart(w: World, service: string) {
    forall op :: op in w.pending && ServiceOf(w.pending[op].service) == service ==> w.pending[op].service == service
  }

  /** A step adds at most the file that an append writes. */
  lemma NextFiles(registry: Option<Statecharts.Registry>, w: World, step: Step, v: World)
    requires Next(registry, w, step, v)
    ensures v.files.Keys ==
      if step.Append? && step.diskOk then w.files.Keys + {FileOf(w.pending[step.op].service)} else w.files.Keys
  {
  }

  lemma NextOps(registry: Option<Statecharts.Registry>, w: World, step: Step, v: World, op: nat)
    requires Next(registry, w, step, v) && op in v.pending
    ensures (op in w.pending && v.pending[op].service == w.pending[op].service)
         || ((step.Capture? || step.Transit?) && v.pending[op].service == step.service)
  {
  }

  lemma NextKeepsSoleFile(registry: Option<Statecharts.Registry>, w: World, step: Step, v: World, service: string)
    requires Next(registry, w, step, v) && NamesApart(step, service)
    requires SoleFile(w.files, service) && OpsApart(w, service)
    ensures SoleFile(v.files, service) && OpsApart(v, service)
  {
    NextFiles(registry, w, step, v);
    if step.Append? {
      FileIsLog(w.pending[step.op].service);
      ServiceOfExtended(w.pending[step.op].service);
    }
    forall op | op in v.pending && ServiceOf(v.pending[op].service) == service ensures v.pending[op].service == service {
      NextOps(registry, w, step, v, op);
    }
  }

  lemma ServiceOfExtended(service: string)
    ensures ServiceOf(FileOf(service)) == ServiceOf(service)
  {
    FileIsLog(service);
  }

  /** So starts recover a service whose id has no suffix when no other id is this one with suffixes. */
  lemma {:induction false} SoleFileInRun(
    registry: Option<Statecharts.Registry>, trace: seq<World>, steps: seq<Step>, n: nat, service: string)
    requires IsRun(registry, trace, steps) && n < |trace| && trace[0].pending == map[] && SoleFile(trace[0].files, service)
    requires forall i :: 0 <= i < |steps| ==> NamesApart(steps[i], service)
    ensures SoleFile(trace[n].files, service) && OpsApart(trace[n], service)
    ensures RecoversOwn(trace[n].files, service)
  {
    if n > 0 {
      SoleFileInRun(registry, trace, steps, n - 1, service);
      NextKeepsSoleFile(registry, trace[n - 1], steps[n - 1], trace[n], service);
    }
    SoleFileRecovers(trace[n].files, service);
  }

  lemma {:induction false} DownIsIdle(registry: Option<Statecharts.Registry>, trace: seq<World>, steps: seq<Step>, n: nat)
    requires IsRun(registry, trace, steps) && n < |trace| && trace[0].pending == map[]
    ensures !trace[n].up ==> trace[n].pending == map[]
  {
    if n > 0 {
      DownIsIdle(registry, trace, steps, n - 1);
      assert Next(registry, trace[n - 1], steps[n - 1], trace[n]);
    }
  }

  ghost predicate SettlesThroughout(trace: seq<World>, n: nat, a: Address)
    requires n < |trace|
  {
    forall i :: 0 <= i <= n && trace[i].up ==> Settles(trace[i], a)
  }

  ghost predicate NoneSpoils(
    registry: Option<Statecharts.Registry>, trace: seq<World>, steps: seq<Step>, n: nat, a: Address)
    requires |trace| == |steps| + 1 && n <= |steps|
  {
    forall i :: 0 <= i < n ==> !Spoils(registry, trace[i], steps[i], a)
  }

  lemma LoadedSettles(w: World, a: Address)
    requires Loaded(w, a.0)
    ensures Settles(w, a)
  {
    assert forall op :: !Holds(w, op, a);
  }

  lemma OneMoreWorld(trace: seq<World>, n: nat, a: Address)
    requires 0 < n < |trace|
    ensures SettlesThroughout(trace, n, a) <==> SettlesThroughout(trace, n - 1, a) && (trace[n].up ==> Settles(trace[n], a))
  {
  }

  lemma OneMoreStep(registry: Option<Statecharts.Registry>, trace: seq<World>, steps: seq<Step>, n: nat, a: Address)
    requires |trace| == |steps| + 1 && 0 < n <= |steps|
    ensures NoneSpoils(registry, trace, steps, n, a) <==>
            NoneSpoils(registry, trace, steps, n - 1, a) && !Spoils(registry, trace[n - 1], steps[n - 1], a)
  {
  }

  lemma RunStepDecides(registry: Option<Statecharts.Registry>, trace: seq<World>, steps: seq<Step>, n: nat, a: Address)
    requires IsRun(registry, trace, steps) && n < |steps| && Loaded(trace[0], a.0) && StartsRecover(trace, steps, a.0)
    requires trace[n].up ==> Settles(trace[n], a)
    ensures (trace[n + 1].up ==> Settles(trace[n + 1], a)) <==> !Spoils(registry, trace[n], steps[n], a)
  {
    MemIsKeyed(registry, trace, steps, n);
    DownIsIdle(registry, trace, steps, n);
    StepDecides(registry, trace[n], steps[n], trace[n + 1], a);
  }

  /** In any run, with failures, deletions, crashes and starts: a key settles throughout exactly when no step spoils it. */
  lemma {:induction false} RunSettlesIff(
    registry: Option<Statecharts.Registry>, trace: seq<World>, steps: seq<Step>, n: nat, a: Address)
    requires IsRun(registry, trace, steps) && n <= |steps| && Loaded(trace[0], a.0) && StartsRecover(trace, steps, a.0)
    ensures SettlesThroughout(trace, n, a) <==> NoneSpoils(registry, trace, steps, n, a)
  {
    if n == 0 {
      LoadedSettles(trace[0], a);
    } else {
      RunSettlesIff(registry, trace, steps, n - 1, a);
      OneMoreWorld(trace, n, a);
      OneMoreStep(registry, trace, steps, n, a);
      if SettlesThroughout(trace, n - 1, a) { RunStepDecides(registry, trace, steps, n - 1, a); }
    }
  }

  /** Every way of finishing the operations on a key, from every world of the run up to the `n`-th, ends in agreement. */
  ghost predicate AlwaysEndsInAgreement(trace: seq<World>, n: nat, a: Address)
    requires n < |trace|
  {
    forall i, ops :: 0 <= i <= n && trace[i].up && !Busy(Finish(trace[i], ops), a) ==> Agrees(Finish(trace[i], ops), a)
  }

  /**
   * At every moment of a run every completion ends with map and log in
   * agreement on a key, if and only if no step was a spoiling one: no locked
   * write of another state while an operation held its own, no failure of the
   * append that mattered, no deletion of what was logged or held.
   */
  lemma RunAgreesIff(
    registry: Option<Statecharts.Registry>, trace: seq<World>, steps: seq<Step>, n: nat, a: Address)
    requires IsRun(registry, trace, steps) && n <= |steps| && Loaded(trace[0], a.0) && StartsRecover(trace, steps, a.0)
    ensures AlwaysEndsInAgreement(trace, n, a) <==> NoneSpoils(registry, trace, steps, n, a)
  {
    RunSettlesIff(registry, trace, steps, n, a);
    forall i | 0 <= i <= n && trace[i].up
      ensures (forall ops :: !Busy(Finish(trace[i], ops), a) ==> Agrees(Finish(trace[i], ops), a)) <==> Settles(trace[i], a)
    {
      MemIsKeyed(registry, trace, steps, i);
      CompletionsAgree(trace[i], a);
    }
  }

  /** While the process serves, a key with no operation under way reads the same from map and log. */
  lemma SettledKeyAgrees(registry: Option<Statecharts.Registry>, trace: seq<World>, steps: seq<Step>, n: nat, a: Address)
    requires IsRun(registry, trace, steps) && n <= |steps| && Loaded(trace[0], a.0) && StartsRecover(trace, steps, a.0)
    requires NoneSpoils(registry, trace, steps, n, a)
    requires trace[n].up && !Busy(trace[n], a)
    ensures Stored(trace[n], a) == Logged(trace[n].files, a)
  {
    RunSettlesIff(registry, trace, steps, n, a);
    assert forall op :: !Appends(trace[n], op, a);
  }

  /** When every operation has finished, replaying the service's log gives its map. */
  lemma QuietEqualsReplay(registry: Option<Statecharts.Registry>, trace: seq<World>, steps: seq<Step>, n: nat, service: string)
    requires IsRun(registry, trace, steps) && n <= |steps| && Loaded(trace[0], service) && StartsRecover(trace, steps, service)
    requires forall k :: NoneSpoils(registry, trace, steps, n, (service, k))
    requires trace[n].up && trace[n].pending == map[]
    ensures BucketOf(trace[n].mem, service) == Replay(LogOf(trace[n].files, service))
  {
    var bucket, replay := BucketOf(trace[n].mem, service), Replay(LogOf(trace[n].files, service));
    forall k: Key ensures (k in bucket <==> k in replay) && (k in bucket ==> bucket[k] == replay[k]) {
      SettledKeyAgrees(registry, trace, steps, n, (service, k));
    }
  }

  /** A spoiling step, the first of its run for the key, can end in disagreement although nothing fails any more. */
  lemma SpoiledRunDiverges(
    registry: Option<Statecharts.Registry>, trace: seq<World>, steps: seq<Step>, n: nat, a: Address)
    returns (ops: seq<nat>)
    requires IsRun(registry, trace, steps) && n < |steps| && Loaded(trace[0], a.0) && StartsRecover(trace, steps, a.0)
    requires NoneSpoils(registry, trace, steps, n, a) && Spoils(registry, trace[n], steps[n], a)
    ensures !Busy(Finish(trace[n + 1], ops), a) && !Agrees(Finish(trace[n + 1], ops), a)
  {
    RunSettlesIff(registry, trace, steps, n, a);
    RunStepDecides(registry, trace, steps, n, a);
    MemIsKeyed(registry, trace, steps, n + 1);
    ops := UnsettledDiverges(trace[n + 1], a);
  }

  /** A deleted resource is gone until the next start, and then it is back as it was. */
  lemma DeletedComesBack(
    registry: Option<Statecharts.Registry>, w: World, deleted: World, dead: World, again: World, a: Address, crash: Step, boot: Step)
    requires w.up && Settles(w, a) && !Busy(w, a) && RecoversOwn(dead.files, a.0)
    requires Next(registry, w, Delete(a.0, a.1), deleted)
    requires crash.Crash? && Next(registry, deleted, crash, dead)
    requires boot.Boot? && Next(registry, dead, boot, again)
    ensures Stored(deleted, a) == None && Stored(again, a) == Stored(w, a)
  {
    assert forall op :: !Appends(w, op, a);
    LoggedNext(registry, deleted, crash, dead, a);
    BootRecovers(registry, dead, boot, again, a);
  }

  // ---------------------------------------------------------------- an instance

  /**
   * An order is paid; before that is appended the order is shipped. The second
   * write is a spoiling one, and no such run ends well in every case.
   */
  lemma OverlapExample(order: ResourceState, w: World, t: int) returns (paid: World, read: World)
    requires order.statechart == Some("order") && order.currentState == Some("pending")
    requires w.up && w.pending == map[] && Stored(w, ("shop", KeyOf(order))) == Some(order)
    ensures var registry, a := Some(map["order" := Statecharts.ORDER]), ("shop", KeyOf(order));
      && Next(registry, w, Transit(0, a.0, a.1, "pay", t), paid) && Next(registry, paid, Snapshot(0), read)
      && TransitionIn(registry, read.mem, a.0, a.1, "ship", t).Some?
      && Spoils(registry, read, Transit(1, a.0, a.1, "ship", t), a)
  {
    var registry, a := Some(map["order" := Statecharts.ORDER]), ("shop", KeyOf(order));
    var rs := TransitionIn(registry, w.mem, a.0, a.1, "pay", t).value;
    paid := Written(w, a.0, rs, 0, Snapshotting(a.0, a.1));
    StoredWritten(w, a.0, rs, 0, Snapshotting(a.0, a.1), a);
    read := paid.(pending := map[0 := Appending(a.0, rs)]);
    assert Holds(read, 0, a) && read.pending[0].rs.currentState == Some("paid");
  }
}
