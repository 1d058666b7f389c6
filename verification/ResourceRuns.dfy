/**
 * Runs of the resource store: the locked write, the snapshot and the append of
 * each operation are separate steps that interleave freely, and the process may
 * die and be started again between any two of them.
 */
module ResourceRuns {
  import opened Logs
  import opened Options
  import opened Statecharts
  import opened Resources
  import opened ResourceLog
  import opened ResourceStore
  import Json

  /** A service and a key of it. */
  type Address = (string, Key)

  /** What an operation that has done its locked write has still to do. */
  datatype Op =
    | Appending(service: string, rs: ResourceState)
    | Snapshotting(service: string, key: Key)

  function AddressOf(op: Op): Address {
    match op
    case Appending(service, rs) => (service, KeyOf(rs))
    case Snapshotting(service, key) => (service, key)
  }

  datatype World = World(up: bool, mem: Services, files: Files, pending: map<nat, Op>)

  datatype Step =
    | Capture(op: nat, service: string, collection: string, body: Json.Value, hint: Option<string>,
              contentType: Option<string>, status: nat, now: int)
    | Transit(op: nat, service: string, key: Key, action: string, now: int)
    | Snapshot(op: nat)
    | Append(op: nat, diskOk: bool)
    | Delete(service: string, key: Key)
    | Crash(order: seq<string>, n: nat, writable: set<string>)
    | Boot(order: seq<string>, writable: set<string>)

  function CapturedBy(registry: Option<Registry>, step: Step): Option<ResourceState>
    requires step.Capture?
  {
    var id := ExtractId(step.body, step.collection, step.hint);
    if id.None? then None
    else Some(NewResource(registry, step.collection, id.value, step.body, step.contentType, step.status, step.now))
  }

  function Written(w: World, service: string, rs: ResourceState, op: nat, todo: Op): World {
    w.(mem := Inserted(w.mem, service, rs), pending := w.pending[op := todo])
  }

  /**
   * One step. A crash may strike while the next start has already been through
   * `n` files; a boot goes through all of them before requests are served.
   */
  ghost predicate Next(registry: Option<Registry>, w: World, step: Step, v: World) {
    match step
    case Capture(op, service, _, _, _, _, _, _) =>
      var rs := CapturedBy(registry, step);
      w.up && op !in w.pending &&
      v == if rs.None? then w else Written(w, service, rs.value, op, Appending(service, rs.value))
    case Transit(op, service, key, action, now) =>
      var rs := TransitionIn(registry, w.mem, service, key, action, now);
      w.up && op !in w.pending &&
      v == if rs.None? then w else Written(w, service, rs.value, op, Snapshotting(service, key))
    case Snapshot(op) =>
      op in w.pending && w.pending[op].Snapshotting? &&
      var todo := w.pending[op];
      var rs := LookupIn(w.mem, todo.service, todo.key);
      v == w.(pending := if rs.Some? then w.pending[op := Appending(todo.service, rs.value)] else w.pending - {op})
    case Append(op, diskOk) =>
      op in w.pending && w.pending[op].Appending? &&
      var todo := w.pending[op];
      v == w.(files := if diskOk then Appended(w.files, todo.service, todo.rs) else w.files, pending := w.pending - {op})
    case Delete(service, key) =>
      w.up && v == w.(mem := Removed(w.mem, service, key))
    case Crash(order, n, writable) =>
      && n <= |order| && IsListing(w.files, order) && FilesLoaded(w.files, v.files, order, n, writable)
      && v == World(false, map[], v.files, map[])
    case Boot(order, writable) =>
      && !w.up && IsFullListing(w.files, order)
      && FilesLoaded(w.files, v.files, order, |order|, writable)
      && v == World(true, LoadedInto(map[], w.files, order, |order|), v.files, map[])
  }

  ghost predicate IsRun(registry: Option<Registry>, trace: seq<World>, steps: seq<Step>) {
    |trace| == |steps| + 1 && forall i :: 0 <= i < |steps| ==> Next(registry, trace[i], steps[i], trace[i + 1])
  }

  /** A process that has just loaded its files, and this service's own file for this service. */
  ghost predicate Loaded(w: World, service: string) {
    && w.up && w.pending == map[] && Keyed(w.mem)
    && BucketOf(w.mem, service) == Replay(LogOf(w.files, service))
  }

  /** What the log gives for a key. */
  function Logged(files: Files, a: Address): Option<ResourceState> {
    var bucket := Replay(LogOf(files, a.0));
    if a.1 in bucket then Some(bucket[a.1]) else None
  }

  function Stored(w: World, a: Address): Option<ResourceState> { LookupIn(w.mem, a.0, a.1) }

  // ---------------------------------------------------------------- uninterrupted operations

  /** A capture whose two steps follow each other does what the store's method does; without an id it does nothing. */
  lemma CaptureUninterrupted(
    registry: Option<Registry>, w: World, step: Step, mid: World, diskOk: bool, v: World)
    requires step.Capture? && Next(registry, w, step, mid)
    ensures var id := ExtractId(step.body, step.collection, step.hint);
      if id.None? then mid == w
      else
        var rs := NewResource(
          registry, step.collection, id.value, step.body, step.contentType, step.status, step.now);
        Next(registry, mid, Append(step.op, diskOk), v) ==>
          && v.mem == Inserted(w.mem, step.service, rs)
          && v.files == (if diskOk then Appended(w.files, step.service, rs) else w.files)
          && v.up == w.up && v.pending == w.pending
  {
  }

  /** So does a transition whose three steps follow each other. */
  lemma TransitUninterrupted(
    registry: Option<Registry>, w: World, step: Step, mid: World, mid2: World, diskOk: bool, v: World)
    requires step.Transit? && Keyed(w.mem)
    requires TransitionIn(registry, w.mem, step.service, step.key, step.action, step.now).Some?
    requires Next(registry, w, step, mid) && Next(registry, mid, Snapshot(step.op), mid2)
    requires Next(registry, mid2, Append(step.op, diskOk), v)
    ensures var rs := TransitionIn(registry, w.mem, step.service, step.key, step.action, step.now).value;
      && v.mem == Inserted(w.mem, step.service, rs)
      && v.files == (if diskOk then Appended(w.files, step.service, rs) else w.files)
      && v.up == w.up && v.pending == w.pending
  {
    var rs := TransitionIn(registry, w.mem, step.service, step.key, step.action, step.now).value;
    LookupInserted(w.mem, step.service, rs, step.service, step.key);
    assert mid2.pending[step.op] == Appending(step.service, rs);
  }

  // ---------------------------------------------------------------- what each step does to the log

  lemma LoadKeepsLogged(before: Files, after: Files, order: seq<string>, n: nat, writable: set<string>, a: Address)
    requires n <= |order| && IsListing(before, order) && FilesLoaded(before, after, order, n, writable)
    ensures Logged(after, a) == Logged(before, a)
  {
    var f := FileOf(a.0);
    if f in before {
      if f in order[..n] {
        var i :| 0 <= i < n && order[i] == f;
        LoadKeepsReplay(before[f], after[f], IsLog(order[i]) && order[i] in writable);
      }
    }
  }

  lemma LoggedAppended(files: Files, service: string, rs: ResourceState, a: Address)
    ensures Logged(Appended(files, service, rs), a) ==
            if a == (service, KeyOf(rs)) then Some(rs) else Logged(files, a)
  {
    LogAppended(files, service, rs, a.0);
    ReplayAppend(LogOf(files, service), KeyOf, rs);
  }

  /** Only a successful append changes what the log gives. */
  lemma LoggedNext(registry: Option<Registry>, w: World, step: Step, v: World, a: Address)
    requires Next(registry, w, step, v)
    ensures Logged(v.files, a) ==
            if step.Append? && step.diskOk && a == AddressOf(w.pending[step.op]) then Some(w.pending[step.op].rs)
            else Logged(w.files, a)
  {
    match step {
      case Crash(order, n, writable) => LoadKeepsLogged(w.files, v.files, order, n, writable, a);
      case Boot(order, writable) => LoadKeepsLogged(w.files, v.files, order, |order|, writable, a);
      case Append(op, diskOk) => LoggedAppended(w.files, w.pending[op].service, w.pending[op].rs, a);
      case _ =>
    }
  }

  // ---------------------------------------------------------------- every logged state was held

  /** The map held this state for the key in one of the first `n` worlds or in world `n`. */
  ghost predicate Held(trace: seq<World>, n: nat, a: Address, rs: ResourceState)
    requires n < |trace|
  {
    exists j :: 0 <= j <= n && Stored(trace[j], a) == Some(rs)
  }

  lemma {:induction false} LoadedIntoIsKeyed(start: Services, files: Files, order: seq<string>, n: nat)
    requires Keyed(start) && n <= |order| && forall i :: 0 <= i < |order| ==> order[i] in files
    ensures Keyed(LoadedInto(start, files, order, n))
  {
    if n > 0 { LoadedIntoIsKeyed(start, files, order, n - 1); }
  }

  lemma NextIsKeyed(registry: Option<Registry>, w: World, step: Step, v: World)
    requires Next(registry, w, step, v) && Keyed(w.mem)
    ensures Keyed(v.mem)
  {
    if step.Boot? { LoadedIntoIsKeyed(map[], w.files, step.order, |step.order|); }
  }

  lemma {:induction false} MemIsKeyed(registry: Option<Registry>, trace: seq<World>, steps: seq<Step>, n: nat)
    requires IsRun(registry, trace, steps) && Keyed(trace[0].mem) && n < |trace|
    ensures Keyed(trace[n].mem)
  {
    if n > 0 {
      MemIsKeyed(registry, trace, steps, n - 1);
      NextIsKeyed(registry, trace[n - 1], steps[n - 1], trace[n]);
    }
  }

  /** An operation that is about to append holds what it wrote or has just read. */
  lemma PendingNext(registry: Option<Registry>, w: World, step: Step, v: World, op: nat)
    requires Next(registry, w, step, v) && Keyed(w.mem)
    requires op in v.pending && v.pending[op].Appending? && !(op in w.pending && w.pending[op] == v.pending[op])
    ensures Stored(v, AddressOf(v.pending[op])) == Some(v.pending[op].rs)
  {
  }

  lemma {:induction false} PendingWasHeld(registry: Option<Registry>, trace: seq<World>, steps: seq<Step>, n: nat, op: nat)
    requires IsRun(registry, trace, steps) && n < |trace| && trace[0].pending == map[] && Keyed(trace[0].mem)
    requires op in trace[n].pending && trace[n].pending[op].Appending?
    ensures Held(trace, n, AddressOf(trace[n].pending[op]), trace[n].pending[op].rs)
  {
    if n > 0 {
      var w, v := trace[n - 1], trace[n];
      if op in w.pending && w.pending[op] == v.pending[op] {
        PendingWasHeld(registry, trace, steps, n - 1, op);
      } else {
        MemIsKeyed(registry, trace, steps, n - 1);
        PendingNext(registry, w, steps[n - 1], v, op);
      }
    }
  }

  /**
   * Whatever interleaves, fails or crashes: a state that the log gives for a
   * key is one that the map held for it.
   */
  lemma {:induction false} LoggedWasHeld(registry: Option<Registry>, trace: seq<World>, steps: seq<Step>, n: nat, a: Address)
    requires IsRun(registry, trace, steps) && Loaded(trace[0], a.0) && n < |trace|
    requires Logged(trace[n].files, a).Some?
    ensures Held(trace, n, a, Logged(trace[n].files, a).value)
  {
    if n == 0 {
      assert Stored(trace[0], a) == Logged(trace[0].files, a);
    } else {
      var w, step := trace[n - 1], steps[n - 1];
      assert Next(registry, w, step, trace[n]);
      LoggedNext(registry, w, step, trace[n], a);
      if step.Append? && step.diskOk && a == AddressOf(w.pending[step.op]) {
        PendingWasHeld(registry, trace, steps, n - 1, step.op);
      } else {
        LoggedWasHeld(registry, trace, steps, n - 1, a);
      }
    }
  }
}
