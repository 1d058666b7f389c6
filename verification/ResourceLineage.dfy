/**
 * Where stored resources come from, over all runs. Every state in the map, in a
 * file or on its way to one has a history: a capture of the run, or a state it
 * started with, and the actions applied since; a start rolls it back to what
 * was logged. And how many actions the charts allow between captures.
 */
module ResourceLineage {
  import opened Logs
  import opened Options
  import Statecharts
  import opened Resources
  import opened ResourceLog
  import opened ResourceStore
  import opened ResourceRuns
  import opened ResourceAgreement

  ghost predicate Lineal(registry: Option<Statecharts.Registry>, rs: ResourceState) {
    exists captured, acts :: IsCapture(registry, captured) && After(registry, captured, acts) == Some(rs)
  }

  lemma AfterSnoc(registry: Option<Statecharts.Registry>, captured: ResourceState, acts: seq<ActionAt>, act: ActionAt)
    ensures After(registry, captured, acts + [act]) ==
            var before := After(registry, captured, acts);
            if before.None? then None else Transition(registry, before.value, act.0, act.1)
  {
    assert (acts + [act])[..|acts|] == acts;
  }

  lemma TransitionIsLineal(registry: Option<Statecharts.Registry>, rs: ResourceState, action: string, now: int)
    requires Lineal(registry, rs) && Transition(registry, rs, action, now).Some?
    ensures Lineal(registry, Transition(registry, rs, action, now).value)
  {
    var captured, acts :| IsCapture(registry, captured) && After(registry, captured, acts) == Some(rs);
    AfterSnoc(registry, captured, acts, (action, now));
  }

  lemma CaptureIsLineal(registry: Option<Statecharts.Registry>, step: Step)
    requires step.Capture? && CapturedBy(registry, step).Some?
    ensures IsCapture(registry, CapturedBy(registry, step).value)
    ensures Lineal(registry, CapturedBy(registry, step).value)
  {
    var rs := CapturedBy(registry, step).value;
    assert ExtractId(rs.body, rs.collection, step.hint) == Some(rs.id);
    assert rs == NewResource(registry, rs.collection, rs.id, rs.body, step.contentType, rs.status, rs.createdAt);
    assert After(registry, rs, []) == Some(rs);
  }

  ghost predicate LinesLineal(registry: Option<Statecharts.Registry>, lines: seq<Line>) {
    forall i :: 0 <= i < |lines| && lines[i].Entry? ==> Lineal(registry, lines[i].entry)
  }

  ghost predicate LogsLineal(registry: Option<Statecharts.Registry>, files: Files) {
    forall f :: f in files ==> LinesLineal(registry, files[f])
  }

  ghost predicate MapLineal(registry: Option<Statecharts.Registry>, mem: Services) {
    forall s, k :: s in mem && k in mem[s] ==> Lineal(registry, mem[s][k])
  }

  ghost predicate AllLineal(registry: Option<Statecharts.Registry>, w: World) {
    && LogsLineal(registry, w.files)
    && MapLineal(registry, w.mem)
    && forall op :: op in w.pending && w.pending[op].Appending? ==> Lineal(registry, w.pending[op].rs)
  }

  // ---------------------------------------------------------------- loading keeps the lineage

  lemma ReplayIsLineal(registry: Option<Statecharts.Registry>, lines: seq<Line>, k: Key)
    requires LinesLineal(registry, lines) && k in Replay(lines)
    ensures Lineal(registry, Replay(lines)[k])
  {
    var i :| 0 <= i < |lines| && lines[i] == Entry(Replay(lines)[k]);
  }

  lemma RewriteIsLineal(registry: Option<Statecharts.Registry>, before: seq<Line>, after: seq<Line>, writable: bool)
    requires LinesLineal(registry, before) && LoadRewrites(before, after, writable)
    ensures LinesLineal(registry, after)
  {
    if after != before {
      forall i | 0 <= i < |after| && after[i].Entry? ensures Lineal(registry, after[i].entry) {
        assert IsLineOf(after[i], KeyOf, Replay(before));
        ReplayIsLineal(registry, before, KeyOf(after[i].entry));
      }
    }
  }

  lemma LoadedLogsLineal(
    registry: Option<Statecharts.Registry>, before: Files, after: Files, order: seq<string>, n: nat, writable: set<string>)
    requires n <= |order| && IsListing(before, order) && FilesLoaded(before, after, order, n, writable)
    requires LogsLineal(registry, before)
    ensures LogsLineal(registry, after)
  {
    forall f | f in after ensures LinesLineal(registry, after[f]) {
      if f in order[..n] {
        var i :| 0 <= i < n && order[i] == f;
        RewriteIsLineal(registry, before[f], after[f], IsLog(order[i]) && order[i] in writable);
      }
    }
  }

  lemma {:induction false} LoadedMapLineal(
    registry: Option<Statecharts.Registry>, start: Services, files: Files, order: seq<string>, n: nat)
    requires n <= |order| && (forall i :: 0 <= i < |order| ==> order[i] in files)
    requires MapLineal(registry, start) && LogsLineal(registry, files)
    ensures MapLineal(registry, LoadedInto(start, files, order, n))
  {
    if n > 0 {
      LoadedMapLineal(registry, start, files, order, n - 1);
      var bucket := Replay(files[order[n - 1]]);
      forall k | k in bucket ensures Lineal(registry, bucket[k]) { ReplayIsLineal(registry, files[order[n - 1]], k); }
    }
  }

  // ---------------------------------------------------------------- every step keeps the lineage

  lemma WrittenIsLineal(
    registry: Option<Statecharts.Registry>, w: World, service: string, rs: ResourceState, op: nat, todo: Op)
    requires AllLineal(registry, w) && Lineal(registry, rs) && (todo.Appending? ==> todo.rs == rs)
    ensures AllLineal(registry, Written(w, service, rs, op, todo))
  {
  }

  lemma LinealNext(registry: Option<Statecharts.Registry>, w: World, step: Step, v: World)
    requires AllLineal(registry, w) && Next(registry, w, step, v)
    ensures AllLineal(registry, v)
  {
    match step {
      case Capture(op, service, _, _, _, _, _, _) =>
        var rs := CapturedBy(registry, step);
        if rs.Some? {
          CaptureIsLineal(registry, step);
          WrittenIsLineal(registry, w, service, rs.value, op, Appending(service, rs.value));
        }
      case Transit(op, service, key, action, now) =>
        var rs := TransitionIn(registry, w.mem, service, key, action, now);
        if rs.Some? {
          TransitionIsLineal(registry, w.mem[service][key], action, now);
          WrittenIsLineal(registry, w, service, rs.value, op, Snapshotting(service, key));
        }
      case Append(op, diskOk) => AppendIsLineal(registry, w, op, diskOk, v);
      case Crash(order, n, writable) => LoadedLogsLineal(registry, w.files, v.files, order, n, writable);
      case Boot(order, writable) =>
        LoadedLogsLineal(registry, w.files, v.files, order, |order|, writable);
        LoadedMapLineal(registry, map[], w.files, order, |order|);
      case _ =>
    }
  }

  lemma AppendIsLineal(registry: Option<Statecharts.Registry>, w: World, op: nat, diskOk: bool, v: World)
    requires AllLineal(registry, w) && Next(registry, w, Append(op, diskOk), v)
    ensures AllLineal(registry, v)
  {
    forall f | f in v.files ensures LinesLineal(registry, v.files[f]) {
      if f in w.files { assert LinesLineal(registry, w.files[f]); }
    }
  }

  lemma {:induction false} LinealInRun(
    registry: Option<Statecharts.Registry>, trace: seq<World>, steps: seq<Step>, n: nat)
    requires IsRun(registry, trace, steps) && AllLineal(registry, trace[0]) && n < |trace|
    ensures AllLineal(registry, trace[n])
  {
    if n > 0 {
      LinealInRun(registry, trace, steps, n - 1);
      LinealNext(registry, trace[n - 1], steps[n - 1], trace[n]);
    }
  }

  // ---------------------------------------------------------------- histories

  /** `since` is the number of steps up to the capture of `base`, or 0 for a state the run started with. */
  datatype History = History(since: nat, base: ResourceState, acts: seq<ActionAt>)

  /** The state that a history stands for. */
  function Grown(registry: Option<Statecharts.Registry>, h: Option<History>): Option<ResourceState> {
    if h.None? then None else After(registry, h.value.base, h.value.acts)
  }

  predicate CapturesAt(registry: Option<Statecharts.Registry>, step: Step, a: Address) {
    step.Capture? && CapturedBy(registry, step).Some? && a == (step.service, KeyOf(CapturedBy(registry, step).value))
  }

  /** The step is a transition of this key that its chart allows. */
  predicate SucceedsAt(registry: Option<Statecharts.Registry>, w: World, step: Step, a: Address) {
    step.Transit? && a == (step.service, step.key)
    && TransitionIn(registry, w.mem, step.service, step.key, step.action, step.now).Some?
  }

  function Initially(rs: Option<ResourceState>): Option<History> {
    if rs.None? then None else Some(History(0, rs.value, []))
  }

  /** The history of a key in the map after the `n`-th step, from those of map and log before it. */
  function MemNext(
    registry: Option<Statecharts.Registry>, w: World, step: Step, n: nat, mem: Option<History>, log: Option<History>, a: Address)
    : Option<History>
  {
    if CapturesAt(registry, step, a) then Some(History(n, CapturedBy(registry, step).value, []))
    else if SucceedsAt(registry, w, step, a) then
      if mem.None? then None else Some(mem.value.(acts := mem.value.acts + [(step.action, step.now)]))
    else if step.Crash? || (step.Delete? && a == (step.service, step.key)) then None
    else if step.Boot? then log
    else mem
  }

  /** Of what the map holds after `n` steps. */
  ghost function MemHistory(
    registry: Option<Statecharts.Registry>, trace: seq<World>, steps: seq<Step>, n: nat, a: Address): Option<History>
    requires |trace| == |steps| + 1 && n < |trace|
  {
    if n == 0 then Initially(Stored(trace[0], a))
    else
      MemNext(registry, trace[n - 1], steps[n - 1], n,
              MemHistory(registry, trace, steps, n - 1, a), LogHistory(registry, trace, steps, n - 1, a), a)
  }

  /** Of what the log gives. */
  ghost function LogHistory(
    registry: Option<Statecharts.Registry>, trace: seq<World>, steps: seq<Step>, n: nat, a: Address): Option<History>
    requires |trace| == |steps| + 1 && n < |trace|
  {
    if n == 0 then Initially(Logged(trace[0].files, a))
    else
      var w, step := trace[n - 1], steps[n - 1];
      if step.Append? && step.diskOk && step.op in w.pending && a == AddressOf(w.pending[step.op]) then
        OpHistory(registry, trace, steps, n - 1, step.op)
      else LogHistory(registry, trace, steps, n - 1, a)
  }

  /** Of what an operation holds. */
  ghost function OpHistory(
    registry: Option<Statecharts.Registry>, trace: seq<World>, steps: seq<Step>, n: nat, op: nat): Option<History>
    requires |trace| == |steps| + 1 && n < |trace|
  {
    if n == 0 then None
    else
      var w, step := trace[n - 1], steps[n - 1];
      if step.Capture? && step.op == op && CapturedBy(registry, step).Some? then
        Some(History(n, CapturedBy(registry, step).value, []))
      else if step.Snapshot? && step.op == op && op in w.pending then
        MemHistory(registry, trace, steps, n - 1, AddressOf(w.pending[op]))
      else OpHistory(registry, trace, steps, n - 1, op)
  }

  lemma StoredNext(registry: Option<Statecharts.Registry>, w: World, step: Step, v: World, a: Address)
    requires Next(registry, w, step, v) && Keyed(w.mem) && !step.Boot?
    ensures Stored(v, a) ==
      if CapturesAt(registry, step, a) then CapturedBy(registry, step)
      else if SucceedsAt(registry, w, step, a) then
        TransitionIn(registry, w.mem, step.service, step.key, step.action, step.now)
      else if step.Crash? || (step.Delete? && a == (step.service, step.key)) then None
      else Stored(w, a)
  {
    match step {
      case Capture(_, service, _, _, _, _, _, _) =>
        var rs := CapturedBy(registry, step);
        if rs.Some? { LookupInserted(w.mem, service, rs.value, a.0, a.1); }
      case Transit(_, service, key, action, now) =>
        var rs := TransitionIn(registry, w.mem, service, key, action, now);
        if rs.Some? { LookupInserted(w.mem, service, rs.value, a.0, a.1); }
      case _ =>
    }
  }

  /** The conditions under which histories are followed for one service. */
  ghost predicate Followed(registry: Option<Statecharts.Registry>, trace: seq<World>, steps: seq<Step>, service: string) {
    IsRun(registry, trace, steps) && Loaded(trace[0], service) && StartsRecover(trace, steps, service)
  }

  /**
   * The map holds for each key exactly the fold of its history, over all runs:
   * with any overlaps, failing appends, deletions, crashes and starts.
   */
  lemma {:induction false} StoredIsFold(
    registry: Option<Statecharts.Registry>, trace: seq<World>, steps: seq<Step>, n: nat, a: Address)
    requires Followed(registry, trace, steps, a.0) && n < |trace|
    ensures Stored(trace[n], a) == Grown(registry, MemHistory(registry, trace, steps, n, a))
    decreases n, 0
  {
    if n > 0 {
      var w, step, v := trace[n - 1], steps[n - 1], trace[n];
      MemIsKeyed(registry, trace, steps, n - 1);
      StoredIsFold(registry, trace, steps, n - 1, a);
      if step.Boot? {
        BootRecovers(registry, w, step, v, a);
        LoggedIsFold(registry, trace, steps, n - 1, a);
      } else {
        StoredNext(registry, w, step, v, a);
        var before := MemHistory(registry, trace, steps, n - 1, a);
        if SucceedsAt(registry, w, step, a) && before.Some? {
          AfterSnoc(registry, before.value.base, before.value.acts, (step.action, step.now));
        }
      }
    }
  }

  /** So does the log, of the history of what was appended. */
  lemma {:induction false} LoggedIsFold(
    registry: Option<Statecharts.Registry>, trace: seq<World>, steps: seq<Step>, n: nat, a: Address)
    requires Followed(registry, trace, steps, a.0) && n < |trace|
    ensures Logged(trace[n].files, a) == Grown(registry, LogHistory(registry, trace, steps, n, a))
    decreases n, 0
  {
    if n > 0 {
      var w, step := trace[n - 1], steps[n - 1];
      assert Next(registry, w, step, trace[n]);
      LoggedNext(registry, w, step, trace[n], a);
      if step.Append? && step.diskOk && a == AddressOf(w.pending[step.op]) {
        HeldIsFold(registry, trace, steps, n - 1, a.0, step.op);
      } else {
        LoggedIsFold(registry, trace, steps, n - 1, a);
      }
    }
  }

  /** And so does every operation that is about to append. */
  lemma {:induction false} HeldIsFold(
    registry: Option<Statecharts.Registry>, trace: seq<World>, steps: seq<Step>, n: nat, service: string, op: nat)
    requires Followed(registry, trace, steps, service)
    requires n < |trace| && op in trace[n].pending && trace[n].pending[op].Appending? && trace[n].pending[op].service == service
    ensures Some(trace[n].pending[op].rs) == Grown(registry, OpHistory(registry, trace, steps, n, op))
    decreases n, 0
  {
    if n > 0 {
      var w, step, v := trace[n - 1], steps[n - 1], trace[n];
      assert Next(registry, w, step, v);
      if step.Capture? && step.op == op {
      } else if step.Snapshot? && step.op == op {
        StoredIsFold(registry, trace, steps, n - 1, AddressOf(w.pending[op]));
      } else {
        assert op in w.pending && w.pending[op] == v.pending[op];
        HeldIsFold(registry, trace, steps, n - 1, service, op);
      }
    }
  }

  /** The base is the capture that the history names, or a state that the run started with. */
  ghost predicate HasBase(
    registry: Option<Statecharts.Registry>, trace: seq<World>, steps: seq<Step>, n: nat, a: Address, h: Option<History>)
    requires |trace| == |steps| + 1 && n <= |steps|
  {
    h.Some? ==>
      && h.value.since <= n
      && if h.value.since == 0 then Stored(trace[0], a) == Some(h.value.base)
         else CapturesAt(registry, steps[h.value.since - 1], a)
              && CapturedBy(registry, steps[h.value.since - 1]) == Some(h.value.base)
  }

  lemma BaseLater(
    registry: Option<Statecharts.Registry>, trace: seq<World>, steps: seq<Step>, n: nat, a: Address, h: Option<History>)
    requires |trace| == |steps| + 1 && n < |steps| && HasBase(registry, trace, steps, n, a, h)
    ensures HasBase(registry, trace, steps, n + 1, a, h)
  {
  }

  lemma MemNextHasBase(
    registry: Option<Statecharts.Registry>, trace: seq<World>, steps: seq<Step>, n: nat, a: Address,
    mem: Option<History>, log: Option<History>)
    requires |trace| == |steps| + 1 && n < |steps|
    requires HasBase(registry, trace, steps, n, a, mem) && HasBase(registry, trace, steps, n, a, log)
    ensures HasBase(registry, trace, steps, n + 1, a, MemNext(registry, trace[n], steps[n], n + 1, mem, log, a))
  {
    var h := MemNext(registry, trace[n], steps[n], n + 1, mem, log, a);
    if CapturesAt(registry, steps[n], a) {
      assert h == Some(History(n + 1, CapturedBy(registry, steps[n]).value, []));
    } else if h.Some? && h == log {
      BaseLater(registry, trace, steps, n, a, log);
    } else if h.Some? {
      BaseLater(registry, trace, steps, n, a, mem);
      SameBase(registry, trace, steps, n + 1, a, mem.value, h.value);
    }
  }

  lemma SameBase(
    registry: Option<Statecharts.Registry>, trace: seq<World>, steps: seq<Step>, n: nat, a: Address, g: History, h: History)
    requires |trace| == |steps| + 1 && n <= |steps| && HasBase(registry, trace, steps, n, a, Some(g))
    requires h.since == g.since && h.base == g.base
    ensures HasBase(registry, trace, steps, n, a, Some(h))
  {
  }

  lemma {:induction false} MemHistoryHasBase(
    registry: Option<Statecharts.Registry>, trace: seq<World>, steps: seq<Step>, n: nat, a: Address)
    requires Followed(registry, trace, steps, a.0) && n < |trace|
    ensures HasBase(registry, trace, steps, n, a, MemHistory(registry, trace, steps, n, a))
    decreases n
  {
    if n > 0 {
      MemHistoryHasBase(registry, trace, steps, n - 1, a);
      LogHistoryHasBase(registry, trace, steps, n - 1, a);
      MemNextHasBase(registry, trace, steps, n - 1, a,
                     MemHistory(registry, trace, steps, n - 1, a), LogHistory(registry, trace, steps, n - 1, a));
    }
  }

  lemma LoadedReads(w: World, a: Address)
    requires Loaded(w, a.0)
    ensures Stored(w, a) == Logged(w.files, a)
  {
  }

  lemma {:induction false} LogHistoryHasBase(
    registry: Option<Statecharts.Registry>, trace: seq<World>, steps: seq<Step>, n: nat, a: Address)
    requires Followed(registry, trace, steps, a.0) && n < |trace|
    ensures HasBase(registry, trace, steps, n, a, LogHistory(registry, trace, steps, n, a))
    decreases n
  {
    if n == 0 {
      LoadedReads(trace[0], a);
    } else {
      var w, step := trace[n - 1], steps[n - 1];
      assert Next(registry, w, step, trace[n]);
      if step.Append? && step.diskOk && a == AddressOf(w.pending[step.op]) {
        OpHistoryHasBase(registry, trace, steps, n - 1, a.0, step.op);
      } else {
        LogHistoryHasBase(registry, trace, steps, n - 1, a);
      }
      BaseLater(registry, trace, steps, n - 1, a, LogHistory(registry, trace, steps, n, a));
    }
  }

  /** Where a pending append comes from. */
  lemma OpFrom(registry: Option<Statecharts.Registry>, w: World, step: Step, v: World, op: nat)
    requires Next(registry, w, step, v) && Keyed(w.mem) && op in v.pending && v.pending[op].Appending?
    ensures
      if step.Capture? && step.op == op then
        CapturedBy(registry, step) == Some(v.pending[op].rs) && v.pending[op].service == step.service
      else op in w.pending && AddressOf(w.pending[op]) == AddressOf(v.pending[op])
           && (w.pending[op] == v.pending[op] || (step.Snapshot? && step.op == op && Stored(w, AddressOf(v.pending[op])).Some?))
  {
  }

  lemma {:induction false} OpHistoryHasBase(
    registry: Option<Statecharts.Registry>, trace: seq<World>, steps: seq<Step>, n: nat, service: string, op: nat)
    requires Followed(registry, trace, steps, service)
    requires n < |trace| && op in trace[n].pending && trace[n].pending[op].Appending? && trace[n].pending[op].service == service
    ensures HasBase(registry, trace, steps, n, AddressOf(trace[n].pending[op]), OpHistory(registry, trace, steps, n, op))
    decreases n
  {
    if n > 0 {
      var w, step, v := trace[n - 1], steps[n - 1], trace[n];
      assert Next(registry, w, step, v);
      MemIsKeyed(registry, trace, steps, n - 1);
      OpFrom(registry, w, step, v, op);
      if step.Capture? && step.op == op {
      } else if step.Snapshot? && step.op == op {
        MemHistoryHasBase(registry, trace, steps, n - 1, AddressOf(w.pending[op]));
        BaseLater(registry, trace, steps, n - 1, AddressOf(w.pending[op]), OpHistory(registry, trace, steps, n, op));
      } else {
        OpHistoryHasBase(registry, trace, steps, n - 1, service, op);
        BaseLater(registry, trace, steps, n - 1, AddressOf(v.pending[op]), OpHistory(registry, trace, steps, n, op));
      }
    }
  }

  /**
   * What that means for a stored resource: it is a capture of the run, or what
   * the run started with, after the actions of its history. Its state is where
   * they lead, it differs from its base only in that, in its update time and in
   * the status field of its body; and since a capture the bundled charts bound
   * the actions in its history.
   */
  lemma StoredIsRunOfCapture(
    registry: Statecharts.Registry, trace: seq<World>, steps: seq<Step>, n: nat, a: Address)
    requires Followed(Some(registry), trace, steps, a.0) && n < |trace| && Stored(trace[n], a).Some?
    requires AllLineal(Some(registry), trace[0])
    ensures MemHistory(Some(registry), trace, steps, n, a).Some?
    ensures var h, rs := MemHistory(Some(registry), trace, steps, n, a).value, Stored(trace[n], a).value;
      && HasBase(Some(registry), trace, steps, n, a, Some(h))
      && (rs.statechart.None? ==> rs == h.base && h.acts == [])
      && (rs.statechart.Some? ==>
           && rs.statechart.value in registry
           && var m := registry[rs.statechart.value];
           && rs.currentState.Some? && h.base.currentState.Some?
           && Statecharts.RunFrom(m, h.base.currentState.value, Actions(h.acts)) == rs.currentState
           && (h.since > 0 ==> h.base.currentState == Some(m.initial))
           && rs == h.base.(currentState := rs.currentState, updatedAt := rs.updatedAt, body := rs.body)
           && rs.body == (if h.acts == [] then h.base.body
                          else WriteStatus(h.base.body, m.statusField, rs.currentState.value))
           && (h.since > 0 && m == Statecharts.CHARGE ==> |h.acts| <= 2)
           && (h.since > 0 && m == Statecharts.INVOICE ==> |h.acts| <= 4)
           && (h.since > 0 && m == Statecharts.ORDER ==> |h.acts| <= 5))
  {
    StoredIsFold(Some(registry), trace, steps, n, a);
    MemHistoryHasBase(Some(registry), trace, steps, n, a);
    var h := MemHistory(Some(registry), trace, steps, n, a).value;
    if h.since > 0 { CaptureIsLineal(Some(registry), steps[h.since - 1]); }
    var actions := LinealState(registry, h.base);
    if h.base.statechart.None? {
      NoChartNoSteps(Some(registry), h.base, h.acts);
    } else {
      AfterIsRun(registry, h.base, h.acts);
      if h.since > 0 {
        CaptureStartsInitial(registry, h.base);
        StepsPerCapture(registry, h.base, h.acts);
      }
    }
  }

  /** A lineal resource has the chart of its collection and is in a state that chart leads to. */
  lemma LinealState(registry: Statecharts.Registry, rs: ResourceState) returns (actions: seq<string>)
    requires Lineal(Some(registry), rs)
    ensures rs.statechart == ChartFor(Some(registry), rs.collection)
    ensures rs.statechart.Some? ==>
      && rs.statechart.value in registry && rs.currentState.Some?
      && var m := registry[rs.statechart.value]; Statecharts.RunFrom(m, m.initial, actions) == rs.currentState
  {
    var captured, acts :| IsCapture(Some(registry), captured) && After(Some(registry), captured, acts) == Some(rs);
    actions := Actions(acts);
    if captured.statechart.None? {
      NoChartNoSteps(Some(registry), captured, acts);
    } else {
      CaptureStartsInitial(registry, captured);
      AfterIsRun(registry, captured, acts);
    }
  }
}
