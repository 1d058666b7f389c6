/**
 * Runs of the mock library: writes publish at once and append later, files are
 * edited and reloaded. When the library and the log come to agree, for every
 * order in which the appends land, and which steps prevent it.
 */
module MockRuns {
  import opened Options
  import opened Entries
  import opened Logs
  import opened MockLog
  import opened MockLibrary

  /**
   * `landing` are the appends that were started and have not landed, `changed`
   * the files that were edited and not reloaded since.
   */
  datatype World = World(library: Library, files: Files, landing: map<nat, (string, MockEntry)>, changed: set<string>)

  datatype Step =
    | Write(op: nat, service: string, entry: MockEntry)
    | Land(op: nat, diskOk: bool)
    | Edit(name: string, content: Option<seq<Line>>)
    | Reload(name: string, canWrite: bool)
    | ReloadAll(writable: set<string>)

  ghost predicate Next(w: World, step: Step, v: World) {
    match step
    case Write(op, service, e) =>
      op !in w.landing &&
      v == w.(library := Publish(w.library, service, e), landing := w.landing[op := (service, e)])
    case Land(op, diskOk) =>
      op in w.landing &&
      v == w.(files := if diskOk then Appended(w.files, w.landing[op].0, w.landing[op].1) else w.files,
              landing := w.landing - {op})
    case Edit(name, content) =>
      v == w.(files := Edited(w.files, name, content), changed := w.changed + {name})
    case Reload(name, canWrite) =>
      && (if IsMockFile(name) then FileLoaded(w.files, v.files, name, canWrite) else v.files == w.files)
      && v == World(Reloaded(w.library, w.files, name), v.files, w.landing, w.changed - {name})
    case ReloadAll(writable) =>
      AllLoaded(w.files, v.files, writable) && v == World(LoadAll(w.files), v.files, w.landing, {})
  }

  ghost predicate IsRun(trace: seq<World>, steps: seq<Step>) {
    |trace| == |steps| + 1 && forall i :: 0 <= i < |steps| ==> Next(trace[i], steps[i], trace[i + 1])
  }

  function Shown(w: World, a: Address): Option<MockEntry> { Found(w.library, a.0, a.1) }

  function LoggedIn(files: Files, a: Address): Option<MockEntry> {
    var mocks := MapOf(LogOf(files, a.0));
    if a.1 in mocks then Some(mocks[a.1]) else None
  }

  function Logged(w: World, a: Address): Option<MockEntry> { LoggedIn(w.files, a) }

  ghost predicate Agrees(w: World, a: Address) { Shown(w, a) == Logged(w, a) }

  /** The append is one for this service and key. */
  ghost predicate LandsAt(w: World, op: nat, a: Address) {
    op in w.landing && w.landing[op].0 == a.0 && KeyOf(w.landing[op].1) == a.1
  }

  /** What is to land is what is shown; and library and log agree already unless something is to land. */
  ghost predicate Settles(w: World, a: Address) {
    && (forall op :: LandsAt(w, op, a) ==> Some(w.landing[op].1) == Shown(w, a))
    && (Agrees(w, a) || exists op :: LandsAt(w, op, a))
  }

  lemma LoggedAppended(files: Files, service: string, e: MockEntry, a: Address)
    ensures LoggedIn(Appended(files, service, e), a) == if a == (service, KeyOf(e)) then Some(e) else LoggedIn(files, a)
  {
    LogAppended(files, service, e, a.0);
    ReplayAppend(LogOf(files, service), KeyOf, e);
  }

  lemma SegmentReads(files: Files, after: Files, a: Address)
    requires SegmentOf(after, a.0) == SegmentOf(files, a.0)
    ensures LoggedIn(after, a) == LoggedIn(files, a)
  {
    var before, now := MapOf(LogOf(files, a.0)), MapOf(LogOf(after, a.0));
    assert before != map[] ==> SegmentOf(files, a.0).value[a.0] == before;
    assert now != map[] ==> SegmentOf(after, a.0).value[a.0] == now;
  }

  // ---------------------------------------------------------------- landing the appends

  /** The append lands with success, if it has not landed yet. */
  function Landed(w: World, op: nat): World {
    if op !in w.landing then w
    else w.(files := Appended(w.files, w.landing[op].0, w.landing[op].1), landing := w.landing - {op})
  }

  /** The appends land in this order. */
  function LandAll(w: World, ops: seq<nat>): World
    decreases |ops|
  {
    if ops == [] then w else LandAll(Landed(w, ops[0]), ops[1..])
  }

  ghost predicate Waiting(w: World, a: Address) { exists op :: LandsAt(w, op, a) }

  lemma LandedDecides(w: World, op: nat, diskOk: bool, v: World, a: Address)
    requires Settles(w, a) && Next(w, Land(op, diskOk), v)
    ensures Settles(v, a) <==> !(!diskOk && LandsAt(w, op, a) && !Agrees(w, a) && forall q :: LandsAt(w, q, a) ==> q == op)
  {
    assert forall q :: LandsAt(v, q, a) <==> LandsAt(w, q, a) && q != op;
    LoggedAppended(w.files, w.landing[op].0, w.landing[op].1, a);
    assert LandsAt(w, op, (w.landing[op].0, KeyOf(w.landing[op].1)));
  }

  lemma {:induction false} LandAllSettles(w: World, ops: seq<nat>, a: Address)
    requires Settles(w, a)
    ensures Settles(LandAll(w, ops), a)
    decreases |ops|
  {
    if ops != [] {
      if ops[0] in w.landing { LandedDecides(w, ops[0], true, Landed(w, ops[0]), a); }
      LandAllSettles(Landed(w, ops[0]), ops[1..], a);
    }
  }

  lemma {:induction false} LandAllConcat(w: World, ops: seq<nat>, last: nat)
    ensures LandAll(w, ops + [last]) == Landed(LandAll(w, ops), last)
    decreases |ops|
  {
    if ops == [] {
      assert ops + [last] == [last] && [last][1..] == [];
    } else {
      assert (ops + [last])[1..] == ops[1..] + [last];
      LandAllConcat(Landed(w, ops[0]), ops[1..], last);
    }
  }

  /** All appends for the key but one can land first. */
  lemma {:induction false} LandOthers(w: World, a: Address, keep: nat) returns (ops: seq<nat>)
    ensures var v := LandAll(w, ops);
      && v.library == w.library
      && (forall op :: LandsAt(v, op, a) ==> op == keep)
      && (keep in w.landing ==> keep in v.landing && v.landing[keep] == w.landing[keep])
    decreases |w.landing|
  {
    ops := [];
    if op :| LandsAt(w, op, a) && op != keep {
      var v := Landed(w, op);
      assert w.landing.Keys == v.landing.Keys + {op};
      var rest := LandOthers(v, a, keep);
      ops := [op] + rest;
      assert ops[1..] == rest;
    }
  }

  lemma UnsettledDiverges(w: World, a: Address) returns (ops: seq<nat>)
    requires !Settles(w, a)
    ensures !Waiting(LandAll(w, ops), a) && !Agrees(LandAll(w, ops), a)
  {
    if stale :| LandsAt(w, stale, a) && Some(w.landing[stale].1) != Shown(w, a) {
      ops := LandOthers(w, a, stale);
      var v := LandAll(w, ops);
      LoggedAppended(v.files, v.landing[stale].0, v.landing[stale].1, a);
      LandAllConcat(w, ops, stale);
      assert forall op :: LandsAt(Landed(v, stale), op, a) ==> LandsAt(v, op, a) && op != stale;
      ops := ops + [stale];
    } else {
      ops := [];
    }
  }

  /** Every order of landing ends with library and log in agreement on a key if and only if the state settles. */
  lemma LandingsAgree(w: World, a: Address)
    ensures (forall ops :: !Waiting(LandAll(w, ops), a) ==> Agrees(LandAll(w, ops), a)) <==> Settles(w, a)
  {
    if Settles(w, a) {
      forall ops | !Waiting(LandAll(w, ops), a) ensures Agrees(LandAll(w, ops), a) { LandAllSettles(w, ops, a); }
    } else {
      var ops := UnsettledDiverges(w, a);
    }
  }

  // ---------------------------------------------------------------- steps

  ghost predicate Judged(w: World, a: Address) { FileOf(a.0) !in w.changed }

  /** An append for the key is to land that differs from this. */
  ghost predicate LandsOtherwise(w: World, a: Address, e: Option<MockEntry>) {
    exists op :: LandsAt(w, op, a) && Some(w.landing[op].1) != e
  }

  /**
   * The steps after which a key does not settle any more: a write over an
   * append of something else that has not landed, the failure of the only
   * append that would have brought the log up to date, and a reload of the
   * file while it still lacks what was published.
   */
  ghost predicate Spoils(w: World, step: Step, a: Address) {
    match step
    case Write(_, service, e) =>
      Judged(w, a) && a == (service, KeyOf(e)) && LandsOtherwise(w, a, Some(e))
    case Land(op, diskOk) =>
      Judged(w, a) && !diskOk && LandsAt(w, op, a) && !Agrees(w, a) && forall q :: LandsAt(w, q, a) ==> q == op
    case Edit(_, _) => false
    case Reload(name, _) =>
      name == FileOf(a.0) && LandsOtherwise(w, a, Logged(w, a))
    case ReloadAll(_) => LandsOtherwise(w, a, Logged(w, a))
  }

  lemma WriteDecides(w: World, op: nat, service: string, e: MockEntry, v: World, a: Address)
    requires Settles(w, a) && Next(w, Write(op, service, e), v)
    ensures Settles(v, a) <==> !(a == (service, KeyOf(e)) && LandsOtherwise(w, a, Some(e)))
  {
    PublishFound(w.library, service, e, a.0, a.1.0, a.1.1, a.1.2);
    assert forall q :: q != op ==> (LandsAt(v, q, a) <==> LandsAt(w, q, a));
    if a == (service, KeyOf(e)) { assert LandsAt(v, op, a); } else { assert !LandsAt(v, op, a); }
  }

  lemma ReloadedShows(library: Library, files: Files, name: string, a: Address)
    ensures Found(Reloaded(library, files, name), a.0, a.1) ==
            if name == FileOf(a.0) then LoggedIn(files, a) else Found(library, a.0, a.1)
  {
    FileNames(a.0, name);
    ReloadedAt(library, files, name, a.0);
  }

  lemma LoadAllShows(files: Files, a: Address)
    ensures Found(LoadAll(files), a.0, a.1) == LoggedIn(files, a)
  {
    LoadAllAt(files, a.0);
  }

  lemma ReloadDecides(w: World, step: Step, v: World, a: Address)
    requires Next(w, step, v) && (step.ReloadAll? || (step.Reload? && step.name == FileOf(a.0)))
    ensures Settles(v, a) <==> !LandsOtherwise(w, a, Logged(w, a))
  {
    assert forall q :: LandsAt(v, q, a) <==> LandsAt(w, q, a);
    if step.Reload? {
      FileNames(a.0, step.name);
      FileLoadedKeepsSegment(w.files, v.files, step.name, step.canWrite, a.0);
      ReloadedShows(w.library, w.files, step.name, a);
    } else {
      AllLoadedKeepsSegment(w.files, v.files, step.writable, a.0);
      LoadAllShows(w.files, a);
    }
    SegmentReads(w.files, v.files, a);
  }

  lemma OtherReload(w: World, name: string, canWrite: bool, v: World, a: Address)
    requires Next(w, Reload(name, canWrite), v) && name != FileOf(a.0)
    ensures Settles(v, a) <==> Settles(w, a)
  {
    assert forall q :: LandsAt(v, q, a) <==> LandsAt(w, q, a);
    if IsMockFile(name) { FileLoadedKeepsSegment(w.files, v.files, name, canWrite, a.0); }
    ReloadedShows(w.library, w.files, name, a);
    SegmentReads(w.files, v.files, a);
  }

  lemma OtherEdit(w: World, name: string, content: Option<seq<Line>>, v: World, a: Address)
    requires Next(w, Edit(name, content), v) && name != FileOf(a.0)
    ensures Settles(v, a) <==> Settles(w, a)
  {
    assert forall q :: LandsAt(v, q, a) <==> LandsAt(w, q, a);
  }

  /** A step keeps a key settling, as far as its file is not waiting for a reload, exactly when it is none of these. */
  lemma StepDecides(w: World, step: Step, v: World, a: Address)
    requires Next(w, step, v) && (Judged(w, a) ==> Settles(w, a))
    ensures (Judged(v, a) ==> Settles(v, a)) <==> !Spoils(w, step, a)
  {
    match step {
      case Write(op, service, e) => if Judged(w, a) { WriteDecides(w, op, service, e, v, a); }
      case Land(op, diskOk) => if Judged(w, a) { LandedDecides(w, op, diskOk, v, a); }
      case Edit(name, content) => if name != FileOf(a.0) { OtherEdit(w, name, content, v, a); }
      case Reload(name, canWrite) =>
        if name == FileOf(a.0) { ReloadDecides(w, step, v, a); } else { OtherReload(w, name, canWrite, v, a); }
      case ReloadAll(_) => ReloadDecides(w, step, v, a);
    }
  }

  // ---------------------------------------------------------------- runs

  /** A library that was just loaded. */
  ghost predicate Loaded(w: World) {
    w.library == LoadAll(w.files) && w.landing == map[]
  }

  ghost predicate SettlesThroughout(trace: seq<World>, n: nat, a: Address)
    requires n < |trace|
  {
    forall i :: 0 <= i <= n && Judged(trace[i], a) ==> Settles(trace[i], a)
  }

  ghost predicate NoneSpoils(trace: seq<World>, steps: seq<Step>, n: nat, a: Address)
    requires |trace| == |steps| + 1 && n <= |steps|
  {
    forall i :: 0 <= i < n ==> !Spoils(trace[i], steps[i], a)
  }

  lemma LoadedSettles(w: World, a: Address)
    requires Loaded(w)
    ensures Settles(w, a)
  {
    LoadAllShows(w.files, a);
    assert forall op :: !LandsAt(w, op, a);
  }

  lemma OneMoreWorld(trace: seq<World>, n: nat, a: Address)
    requires 0 < n < |trace|
    ensures SettlesThroughout(trace, n, a) <==>
            SettlesThroughout(trace, n - 1, a) && (Judged(trace[n], a) ==> Settles(trace[n], a))
  {
  }

  lemma OneMoreStep(trace: seq<World>, steps: seq<Step>, n: nat, a: Address)
    requires |trace| == |steps| + 1 && 0 < n <= |steps|
    ensures NoneSpoils(trace, steps, n, a) <==>
            NoneSpoils(trace, steps, n - 1, a) && !Spoils(trace[n - 1], steps[n - 1], a)
  {
  }

  lemma {:induction false} RunSettlesIff(trace: seq<World>, steps: seq<Step>, n: nat, a: Address)
    requires IsRun(trace, steps) && n <= |steps| && Loaded(trace[0])
    ensures SettlesThroughout(trace, n, a) <==> NoneSpoils(trace, steps, n, a)
  {
    if n == 0 {
      LoadedSettles(trace[0], a);
    } else {
      RunSettlesIff(trace, steps, n - 1, a);
      OneMoreWorld(trace, n, a);
      OneMoreStep(trace, steps, n, a);
      if SettlesThroughout(trace, n - 1, a) { StepDecides(trace[n - 1], steps[n - 1], trace[n], a); }
    }
  }

  /** Whenever the key's file is not waiting for a reload, every order of landing ends in agreement. */
  ghost predicate AlwaysEndsInAgreement(trace: seq<World>, n: nat, a: Address)
    requires n < |trace|
  {
    forall i, ops :: 0 <= i <= n && Judged(trace[i], a) && !Waiting(LandAll(trace[i], ops), a) ==>
      Agrees(LandAll(trace[i], ops), a)
  }

  /**
   * In any run of writes, landings, edits and reloads: at every moment at which
   * a key's file is not waiting for a reload, every order of landing ends with
   * library and log in agreement on it, if and only if no step was a spoiling one.
   */
  lemma RunAgreesIff(trace: seq<World>, steps: seq<Step>, n: nat, a: Address)
    requires IsRun(trace, steps) && n <= |steps| && Loaded(trace[0])
    ensures AlwaysEndsInAgreement(trace, n, a) <==> NoneSpoils(trace, steps, n, a)
  {
    RunSettlesIff(trace, steps, n, a);
    forall i | 0 <= i <= n
      ensures (forall ops :: !Waiting(LandAll(trace[i], ops), a) ==> Agrees(LandAll(trace[i], ops), a)) <==> Settles(trace[i], a)
    {
      LandingsAgree(trace[i], a);
    }
  }

  lemma {:induction false} RunIsNeat(trace: seq<World>, steps: seq<Step>, n: nat)
    requires IsRun(trace, steps) && n <= |steps| && Neat(trace[0].library)
    ensures Neat(trace[n].library)
  {
    if n > 0 {
      RunIsNeat(trace, steps, n - 1);
      var w, step := trace[n - 1], steps[n - 1];
      assert Next(w, step, trace[n]);
      match step {
        case Write(_, service, e) => PublishIsNeat(w.library, service, e);
        case Reload(name, _) => ReloadedIsNeat(w.library, w.files, name);
        case ReloadAll(_) => LoadAllIsNeat(w.files);
        case _ =>
      }
    }
  }

  lemma QuietService(trace: seq<World>, steps: seq<Step>, n: nat, service: string)
    requires IsRun(trace, steps) && n <= |steps| && Loaded(trace[0])
    requires forall a :: NoneSpoils(trace, steps, n, a)
    requires trace[n].changed == {} && trace[n].landing == map[]
    ensures MocksOf(trace[n].library, service) == MapOf(LogOf(trace[n].files, service))
  {
    var mocks, replay := MocksOf(trace[n].library, service), MapOf(LogOf(trace[n].files, service));
    forall k: MockKey ensures (k in mocks <==> k in replay) && (k in mocks ==> mocks[k] == replay[k]) {
      var a := (service, k);
      RunSettlesIff(trace, steps, n, a);
      assert Settles(trace[n], a);
      assert forall op :: !LandsAt(trace[n], op, a);
    }
  }

  /**
   * After any run without a spoiling step the library is the replay of the log
   * as soon as all appends have landed and no edited file is waiting.
   */
  lemma ViewIsLog(trace: seq<World>, steps: seq<Step>, n: nat)
    requires IsRun(trace, steps) && n <= |steps| && Loaded(trace[0])
    requires forall a :: NoneSpoils(trace, steps, n, a)
    requires trace[n].changed == {} && trace[n].landing == map[]
    ensures trace[n].library == LoadAll(trace[n].files)
  {
    LoadAllIsNeat(trace[0].files);
    RunIsNeat(trace, steps, n);
    forall s ensures At(trace[n].library, s) == At(LoadAll(trace[n].files), s) {
      QuietService(trace, steps, n, s);
      NeatAt(trace[n].library, trace[n].files, s);
      LoadAllAt(trace[n].files, s);
    }
    SameAtEveryName(trace[n].library, LoadAll(trace[n].files));
  }

  /** A spoiling step, the first for its key, can end in disagreement although every append lands. */
  lemma SpoiledRunDiverges(trace: seq<World>, steps: seq<Step>, n: nat, a: Address) returns (ops: seq<nat>)
    requires IsRun(trace, steps) && n < |steps| && Loaded(trace[0])
    requires NoneSpoils(trace, steps, n, a) && Spoils(trace[n], steps[n], a)
    ensures !Waiting(LandAll(trace[n + 1], ops), a) && !Agrees(LandAll(trace[n + 1], ops), a)
  {
    RunSettlesIff(trace, steps, n, a);
    StepDecides(trace[n], steps[n], trace[n + 1], a);
    ops := UnsettledDiverges(trace[n + 1], a);
  }

  // ---------------------------------------------------------------- instances

  const NOTHING := World(map[], map[], map[], {})

  /** A file is reloaded before the append of a published mock lands: the log has the mock, the library has not. */
  lemma ReloadExample(service: string, e: MockEntry) returns (w1: World, w2: World)
    ensures var a := (service, (e.request.httpMethod, e.request.uri, e.tenant));
      && Next(NOTHING, Write(0, service, e), w1) && Next(w1, Reload(FileOf(service), true), w2)
      && !Spoils(NOTHING, Write(0, service, e), a) && Spoils(w1, Reload(FileOf(service), true), a)
      && Shown(Landed(w2, 0), a) == None && Logged(Landed(w2, 0), a) == Some(e)
  {
    var a := (service, KeyOf(e));
    FileNames(service, "");
    w1 := World(Publish(map[], service, e), map[], map[0 := (service, e)], {});
    w2 := World(Reloaded(w1.library, map[], FileOf(service)), map[], w1.landing, {});
    assert LandsAt(w1, 0, a) && Logged(w1, a) == None;
    ReloadedShows(w1.library, map[], FileOf(service), a);
    LoggedAppended(map[], service, e, a);
  }

  /** Two mocks are published for one key and their appends land the other way round. */
  lemma OverlapExample(service: string, e: MockEntry, f: MockEntry) returns (w1: World, w2: World)
    requires e.request.httpMethod == f.request.httpMethod && e.request.uri == f.request.uri && e.tenant == f.tenant && e != f
    ensures var a := (service, (e.request.httpMethod, e.request.uri, e.tenant));
      && Next(NOTHING, Write(0, service, e), w1) && Next(w1, Write(1, service, f), w2)
      && !Spoils(NOTHING, Write(0, service, e), a) && Spoils(w1, Write(1, service, f), a)
      && Shown(LandAll(w2, [1, 0]), a) == Some(f) && Logged(LandAll(w2, [1, 0]), a) == Some(e)
  {
    var a := (service, KeyOf(e));
    w1 := World(Publish(map[], service, e), map[], map[0 := (service, e)], {});
    w2 := World(Publish(w1.library, service, f), map[], map[0 := (service, e), 1 := (service, f)], {});
    assert LandsAt(w1, 0, a);
    PublishFound(w1.library, service, f, a.0, a.1.0, a.1.1, a.1.2);
    assert [1, 0][1..] == [0] && [0][1..] == [];
    assert LandAll(w2, [1, 0]) == Landed(Landed(w2, 1), 0);
    LoggedAppended(Landed(w2, 1).files, service, e, a);
  }

  // ---------------------------------------------------------------- where logged mocks come from

  /** One of the first `n` steps published this mock. */
  ghost predicate WasPublished(steps: seq<Step>, n: nat, service: string, e: MockEntry)
    requires n <= |steps|
  {
    exists j :: 0 <= j < n && steps[j].Write? && steps[j].service == service && steps[j].entry == e
  }

  /** One of the first `n` steps wrote this mock into the service's file from outside. */
  ghost predicate EditedIn(steps: seq<Step>, n: nat, service: string, e: MockEntry)
    requires n <= |steps|
  {
    exists j :: 0 <= j < n && steps[j].Edit? && steps[j].name == FileOf(service)
                && steps[j].content.Some? && Entry(e) in steps[j].content.value
  }

  lemma {:induction false} LandingWasPublished(trace: seq<World>, steps: seq<Step>, n: nat, op: nat)
    requires IsRun(trace, steps) && n <= |steps| && trace[0].landing == map[] && op in trace[n].landing
    ensures WasPublished(steps, n, trace[n].landing[op].0, trace[n].landing[op].1)
  {
    if n > 0 {
      assert Next(trace[n - 1], steps[n - 1], trace[n]);
      if !(steps[n - 1].Write? && steps[n - 1].op == op) { LandingWasPublished(trace, steps, n - 1, op); }
    }
  }

  lemma LoggedNext(w: World, step: Step, v: World, a: Address)
    requires Next(w, step, v) && Logged(v, a).Some? && Logged(v, a) != Logged(w, a)
    ensures (step.Land? && step.op in w.landing && w.landing[step.op] == (a.0, Logged(v, a).value))
         || (step.Edit? && step.name == FileOf(a.0) && step.content.Some? && Entry(Logged(v, a).value) in step.content.value)
  {
    match step {
      case Land(op, diskOk) => LoggedAppended(w.files, w.landing[op].0, w.landing[op].1, a);
      case Edit(name, content) =>
      case Reload(name, canWrite) =>
        if IsMockFile(name) { FileLoadedKeepsSegment(w.files, v.files, name, canWrite, a.0); }
        SegmentReads(w.files, v.files, a);
      case ReloadAll(writable) =>
        AllLoadedKeepsSegment(w.files, v.files, writable, a.0);
        SegmentReads(w.files, v.files, a);
      case _ =>
    }
  }

  /** Whatever interleaves and fails: a mock that the log gives was logged at the start, was published, or came with an edit. */
  lemma {:induction false} LoggedWasPublished(trace: seq<World>, steps: seq<Step>, n: nat, a: Address)
    requires IsRun(trace, steps) && n <= |steps| && trace[0].landing == map[] && Logged(trace[n], a).Some?
    ensures var e := Logged(trace[n], a).value;
      Logged(trace[0], a) == Some(e) || WasPublished(steps, n, a.0, e) || EditedIn(steps, n, a.0, e)
  {
    if n > 0 {
      if Logged(trace[n], a) == Logged(trace[n - 1], a) {
        LoggedWasPublished(trace, steps, n - 1, a);
      } else {
        LoggedNext(trace[n - 1], steps[n - 1], trace[n], a);
        if steps[n - 1].Land? { LandingWasPublished(trace, steps, n - 1, steps[n - 1].op); }
      }
    }
  }

  // ---------------------------------------------------------------- reloading file by file

  /** The files of `order` are reloaded one by one. */
  ghost predicate ReloadsInOrder(trace: seq<World>, steps: seq<Step>, order: seq<string>) {
    && IsRun(trace, steps) && |steps| == |order|
    && forall i :: 0 <= i < |order| ==> steps[i].Reload? && steps[i].name == order[i]
  }

  lemma {:induction false} ReloadsKeepSegments(trace: seq<World>, steps: seq<Step>, order: seq<string>, n: nat, service: string)
    requires ReloadsInOrder(trace, steps, order) && n < |trace|
    ensures SegmentOf(trace[n].files, service) == SegmentOf(trace[0].files, service)
  {
    if n > 0 {
      ReloadsKeepSegments(trace, steps, order, n - 1, service);
      var w, v, step := trace[n - 1], trace[n], steps[n - 1];
      assert Next(w, step, v);
      if IsMockFile(step.name) { FileLoadedKeepsSegment(w.files, v.files, step.name, step.canWrite, service); }
    }
  }

  /**
   * Reloading, in any order and with compaction on the way, a set of files that
   * holds every changed one turns a full load of the old directory into the
   * full load of the new one.
   */
  lemma ReloadsEqualFullLoad(before: Files, trace: seq<World>, steps: seq<Step>, order: seq<string>)
    requires ReloadsInOrder(trace, steps, order)
    requires trace[0].library == LoadAll(before)
    requires forall f :: IsMockFile(f) && f !in order ==>
      (f in before <==> f in trace[0].files) && (f in before ==> before[f] == trace[0].files[f])
    ensures trace[|order|].library == LoadAll(trace[0].files) == LoadAll(trace[|order|].files)
  {
    var n, after := |order|, trace[0].files;
    forall s
      ensures At(trace[n].library, s) == At(LoadAll(after), s) == At(LoadAll(trace[n].files), s)
    {
      FileNames(s, "");
      ReloadedAll(before, trace, steps, order, n, s);
      LoadAllAt(after, s);
      ReloadsKeepSegments(trace, steps, order, n, s);
      LoadAllAt(trace[n].files, s);
    }
    SameAtEveryName(trace[n].library, LoadAll(after));
    SameAtEveryName(LoadAll(trace[n].files), LoadAll(after));
  }

  lemma {:induction false} ReloadedAll(before: Files, trace: seq<World>, steps: seq<Step>, order: seq<string>, n: nat, service: string)
    requires ReloadsInOrder(trace, steps, order) && n <= |order| && trace[0].library == LoadAll(before)
    requires FileOf(service) !in order ==> SegmentOf(before, service) == SegmentOf(trace[0].files, service)
    ensures FileOf(service) in order[..n] || FileOf(service) !in order ==>
              At(trace[n].library, service) == SegmentOf(trace[0].files, service)
    ensures FileOf(service) !in order[..n] ==> At(trace[n].library, service) == SegmentOf(before, service)
  {
    if n == 0 {
      LoadAllAt(before, service);
    } else {
      ReloadedAll(before, trace, steps, order, n - 1, service);
      var w, step := trace[n - 1], steps[n - 1];
      assert Next(w, step, trace[n]);
      ReloadedAt(w.library, w.files, step.name, service);
      ReloadsKeepSegments(trace, steps, order, n - 1, service);
      assert order[..n] == order[..n - 1] + [order[n - 1]];
    }
  }

  // ---------------------------------------------------------------- the form of reachable libraries

  lemma NextKeepsForm(w: World, step: Step, v: World)
    requires Next(w, step, v) && WellFormed(w.library)
    ensures WellFormed(v.library)
  {
    match step {
      case Write(_, service, e) => PublishKeepsForm(w.library, service, e);
      case ReloadAll(_) => LoadAllFits(w.files);
      case _ =>
    }
  }

  /** Every library that a run reaches is well-formed. */
  lemma {:induction false} RunKeepsForm(trace: seq<World>, steps: seq<Step>, n: nat)
    requires IsRun(trace, steps) && n < |trace| && WellFormed(trace[0].library)
    ensures WellFormed(trace[n].library)
  {
    if n > 0 {
      RunKeepsForm(trace, steps, n - 1);
      NextKeepsForm(trace[n - 1], steps[n - 1], trace[n]);
    }
  }
}
