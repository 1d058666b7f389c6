/**
 * The store of captured resources: a map in memory and one append-only file per
 * service. Each method's parts run here without interruption; ResourceRuns
 * interleaves them.
 */
module ResourceStore {
  import opened Logs
  import opened Options
  import opened Statecharts
  import opened Resources
  import opened ResourceLog
  import Json

  // ---------------------------------------------------------------- the map

  function BucketOf(services: Services, service: string): Bucket {
    if service in services then services[service] else map[]
  }

  function LookupIn(services: Services, service: string, key: Key): Option<ResourceState> {
    if key in BucketOf(services, service) then Some(BucketOf(services, service)[key]) else None
  }

  function Inserted(services: Services, service: string, rs: ResourceState): Services {
    services[service := BucketOf(services, service)[KeyOf(rs) := rs]]
  }

  function Removed(services: Services, service: string, key: Key): Services {
    if service in services then services[service := services[service] - {key}] else services
  }

  function Appended(files: Files, service: string, rs: ResourceState): Files {
    AppendedTo(files, FileOf(service), rs)
  }

  /** The transition of a stored resource, if it is there and the action is allowed. */
  function TransitionIn(
    registry: Option<Registry>, services: Services, service: string, key: Key, action: string, now: int)
    : (next: Option<ResourceState>)
    ensures next.Some? ==> LookupIn(services, service, key).Some? && next.value.currentState.Some?
    ensures next.Some? && LookupIn(services, service, key).Some? ==>
              KeyOf(next.value) == KeyOf(LookupIn(services, service, key).value)
  {
    var rs := LookupIn(services, service, key);
    if rs.None? then None else Transition(registry, rs.value, action, now)
  }

  lemma LookupInserted(services: Services, service: string, rs: ResourceState, other: string, key: Key)
    ensures LookupIn(Inserted(services, service, rs), other, key) ==
            if other == service && key == (rs.collection, rs.id) then Some(rs) else LookupIn(services, other, key)
  {
  }

  lemma LookupRemoved(services: Services, service: string, key: Key, other: string, k: Key)
    ensures LookupIn(Removed(services, service, key), other, k) ==
            if other == service && k == key then None else LookupIn(services, other, k)
  {
  }

  /** Under this collection and id is what a captured resource starts as. */
  ghost predicate StoredAs(
    registry: Option<Registry>, services: Services, service: string, collection: string, id: string, body: Json.Value,
    contentType: Option<string>, status: nat, now: int)
  {
    && LookupIn(services, service, (collection, id)).Some?
    && IsCaptured(
         registry, LookupIn(services, service, (collection, id)).value, collection, id, body, contentType, status, now)
  }

  lemma StoredWhenInserted(
    registry: Option<Registry>, services: Services, service: string, collection: string, id: string, body: Json.Value,
    contentType: Option<string>, status: nat, now: int)
    ensures var rs := NewResource(registry, collection, id, body, contentType, status, now);
      StoredAs(registry, Inserted(services, service, rs), service, collection, id, body, contentType, status, now)
  {
  }

  lemma LogAppended(files: Files, service: string, rs: ResourceState, other: string)
    ensures LogOf(Appended(files, service, rs), other) ==
            if other == service then LogOf(files, service) + [Entry(rs)] else LogOf(files, other)
  {
    assert FileOf(service)[..|service|] == service && FileOf(other)[..|other|] == other;
  }

  /** The first `n` files of the listing have been through a load; the others are as they were. */
  ghost predicate FilesLoaded(before: Files, after: Files, order: seq<string>, n: nat, writable: set<string>)
    requires n <= |order| && IsListing(before, order)
  {
    && after.Keys == before.Keys
    && (forall i :: 0 <= i < n ==> LoadRewrites(before[order[i]], after[order[i]], IsLog(order[i]) && order[i] in writable))
    && forall f :: f in before && f !in order[..n] ==> after[f] == before[f]
  }

  /** The next file of the listing is as it was. */
  lemma StillThere(before: Files, after: Files, order: seq<string>, n: nat, writable: set<string>)
    requires n < |order| && IsListing(before, order) && FilesLoaded(before, after, order, n, writable)
    ensures order[n] in after && after[order[n]] == before[order[n]]
  {
    assert order[n] !in order[..n];
  }

  lemma OneMoreFile(disk: Files, before: Files, after: Files, order: seq<string>, n: nat, writable: set<string>)
    requires n < |order| && IsListing(disk, order) && FilesLoaded(disk, before, order, n, writable)
    requires after.Keys == before.Keys && forall f :: f in before && f != order[n] ==> after[f] == before[f]
    requires LoadRewrites(before[order[n]], after[order[n]], IsLog(order[n]) && order[n] in writable)
    ensures FilesLoaded(disk, after, order, n + 1, writable)
  {
    assert order[n] !in order[..n];
    assert order[..n + 1] == order[..n] + [order[n]];
    forall i | 0 <= i < n + 1
      ensures LoadRewrites(disk[order[i]], after[order[i]], IsLog(order[i]) && order[i] in writable)
    {
      if i < n { assert order[i] != order[n]; }
    }
  }

  lemma LoadedFileReplays(before: Files, after: Files, order: seq<string>, writable: set<string>, f: string)
    requires IsListing(before, order) && FilesLoaded(before, after, order, |order|, writable) && f in before
    ensures Replay(after[f]) == Replay(before[f])
  {
    if f in order[..|order|] {
      var i :| 0 <= i < |order| && order[i] == f;
      LoadKeepsReplay(before[f], after[f], IsLog(order[i]) && order[i] in writable);
    }
  }

  // ---------------------------------------------------------------- recovering one service

  /**
   * The files that load as this service give what its own file gives: its id
   * has no file suffix, or its file holds nothing, and no other file whose
   * name reads as the same service holds something else.
   */
  ghost predicate RecoversOwn(files: Files, service: string) {
    && (IsLog(service) ==> Replay(LogOf(files, service)) == map[])
    && forall f :: f in files && ResourceLog.Loads(files, f) && ServiceOf(f) == service ==>
         Replay(files[f]) == Replay(LogOf(files, service))
  }

  /** One of the first `n` files has loaded this service's bucket, or none has. */
  lemma {:induction false} LoadedFrom(start: Services, files: Files, order: seq<string>, n: nat, service: string)
    requires n <= |order| && forall i :: 0 <= i < |order| ==> order[i] in files
    ensures var bucket := BucketOf(LoadedInto(start, files, order, n), service);
      if LoadedBy(files, order, n, service) then
        exists i :: 0 <= i < n && ResourceLog.Loads(files, order[i]) && ServiceOf(order[i]) == service
                    && bucket == Replay(files[order[i]])
      else bucket == BucketOf(start, service)
  {
    if n > 0 { LoadedFrom(start, files, order, n - 1, service); }
  }

  lemma OwnFileLoads(files: Files, service: string)
    requires Replay(LogOf(files, service)) != map[] && !IsLog(service)
    ensures FileOf(service) in files && ResourceLog.Loads(files, FileOf(service)) && ServiceOf(FileOf(service)) == service
  {
    FileIsLog(service);
    ServiceOfFile(service);
  }

  /** A start gives such a service what its log gave, in whatever order the directory is listed. */
  lemma ServiceRecovered(files: Files, order: seq<string>, service: string)
    requires RecoversOwn(files, service) && IsFullListing(files, order)
    ensures BucketOf(LoadedInto(map[], files, order, |order|), service) == Replay(LogOf(files, service))
  {
    LoadedFrom(map[], files, order, |order|, service);
    if !LoadedBy(files, order, |order|, service) && Replay(LogOf(files, service)) != map[] {
      OwnFileLoads(files, service);
      assert false;
    }
  }

  lemma {:induction false} ListingOf(names: set<string>) returns (order: seq<string>)
    ensures forall f :: f in order <==> f in names
    ensures forall i, j :: 0 <= i < j < |order| ==> order[i] != order[j]
    decreases |names|
  {
    order := [];
    if names != {} {
      var f :| f in names;
      order := ListingOf(names - {f});
      order := order + [f];
    }
  }

  lemma ListingEndingIn(files: Files, last: string) returns (order: seq<string>)
    requires last in files
    ensures IsFullListing(files, order) && order != [] && order[|order| - 1] == last
  {
    order := ListingOf(files.Keys - {last});
    order := order + [last];
    assert forall i :: 0 <= i < |order| - 1 ==> order[i] in files.Keys - {last};
  }

  /** A service for which this does not hold loses its state in some order of the directory. */
  lemma ServiceLost(files: Files, service: string) returns (order: seq<string>)
    requires !RecoversOwn(files, service)
    ensures IsFullListing(files, order)
    ensures BucketOf(LoadedInto(map[], files, order, |order|), service) != Replay(LogOf(files, service))
  {
    if IsLog(service) && Replay(LogOf(files, service)) != map[] {
      order := ListingEndingIn(files, FileOf(service));
      LoadedFrom(map[], files, order, |order|, service);
      if LoadedBy(files, order, |order|, service) {
        var i :| 0 <= i < |order| && ServiceOf(order[i]) == service;
        ServiceIsNoLog(order[i]);
        assert false;
      }
    } else {
      var f :| f in files && ResourceLog.Loads(files, f) && ServiceOf(f) == service
               && Replay(files[f]) != Replay(LogOf(files, service));
      order := ListingEndingIn(files, f);
    }
  }

  /** The exact condition under which a start recovers a service. */
  lemma RecoveredIffOwn(files: Files, service: string)
    ensures (forall order :: IsFullListing(files, order) ==>
                BucketOf(LoadedInto(map[], files, order, |order|), service) == Replay(LogOf(files, service)))
       <==> RecoversOwn(files, service)
  {
    if RecoversOwn(files, service) {
      forall order | IsFullListing(files, order)
        ensures BucketOf(LoadedInto(map[], files, order, |order|), service) == Replay(LogOf(files, service))
      {
        ServiceRecovered(files, order, service);
      }
    } else {
      var order := ServiceLost(files, service);
    }
  }

  /** A service whose id ends in the suffix has nothing stored after a start. */
  lemma SuffixedServiceForgotten(files: Files, order: seq<string>, service: string)
    requires IsLog(service) && IsFullListing(files, order)
    ensures BucketOf(LoadedInto(map[], files, order, |order|), service) == map[]
  {
    LoadedFrom(map[], files, order, |order|, service);
    if LoadedBy(files, order, |order|, service) {
      var i :| 0 <= i < |order| && ServiceOf(order[i]) == service;
      ServiceIsNoLog(order[i]);
      assert false;
    }
  }

  // ---------------------------------------------------------------- loading twice

  /** All files that load as this service replay to the same bucket. */
  ghost predicate LoadsAlike(files: Files, service: string) {
    forall f, g :: f in files && g in files && ResourceLog.Loads(files, f) && ResourceLog.Loads(files, g)
                   && ServiceOf(f) == service && ServiceOf(g) == service ==>
      Replay(files[f]) == Replay(files[g])
  }

  lemma AlikeLoads(start: Services, files: Files, order: seq<string>, again: seq<string>, service: string)
    requires IsFullListing(files, order) && IsFullListing(files, again) && LoadsAlike(files, service)
    ensures BucketOf(LoadedInto(LoadedInto(start, files, order, |order|), files, again, |again|), service) ==
            BucketOf(LoadedInto(start, files, order, |order|), service)
  {
    var once := LoadedInto(start, files, order, |order|);
    LoadedFrom(start, files, order, |order|, service);
    LoadedFrom(once, files, again, |again|, service);
    if LoadedBy(files, again, |again|, service) {
      var i :| 0 <= i < |again| && ResourceLog.Loads(files, again[i]) && ServiceOf(again[i]) == service;
      var j :| 0 <= j < |order| && order[j] == again[i];
    }
  }

  /** A load that compacts changes no bucket of a later load. */
  lemma {:induction false} LoadedSame(start: Services, before: Files, after: Files, order: seq<string>, n: nat)
    requires n <= |order| && (forall i :: 0 <= i < |order| ==> order[i] in before) && after.Keys == before.Keys
    requires forall f :: f in before ==> Replay(after[f]) == Replay(before[f])
    ensures LoadedInto(start, after, order, n) == LoadedInto(start, before, order, n)
  {
    if n > 0 { LoadedSame(start, before, after, order, n - 1); }
  }

  /** A load in one order, with any rewrites, and a load of what it left in another. */
  ghost predicate SecondLoadChanges(
    start: Services, before: Files, order: seq<string>, after: Files, writable: set<string>, again: seq<string>, service: string)
  {
    && IsFullListing(before, order) && FilesLoaded(before, after, order, |order|, writable) && IsFullListing(after, again)
    && var once := LoadedInto(start, before, order, |order|);
       BucketOf(LoadedInto(once, after, again, |again|), service) != BucketOf(once, service)
  }

  lemma AlikeIsKept(
    start: Services, before: Files, order: seq<string>, after: Files, writable: set<string>, again: seq<string>, service: string)
    requires LoadsAlike(before, service)
    ensures !SecondLoadChanges(start, before, order, after, writable, again, service)
  {
    if IsFullListing(before, order) && FilesLoaded(before, after, order, |order|, writable) && IsFullListing(after, again) {
      forall f | f in before ensures Replay(after[f]) == Replay(before[f]) {
        LoadedFileReplays(before, after, order, writable, f);
      }
      LoadedSame(LoadedInto(start, before, order, |order|), before, after, again, |again|);
      AlikeLoads(start, before, order, again, service);
    }
  }

  /**
   * Loading a directory a second time leaves a service's bucket as the first
   * load made it, in all orders and with all rewrites, if and only if all files
   * that load as this service replay alike.
   */
  lemma SecondLoadIff(start: Services, before: Files, service: string)
    ensures (forall order, after, writable, again ::
               !SecondLoadChanges(start, before, order, after, writable, again, service))
       <==> LoadsAlike(before, service)
  {
    if LoadsAlike(before, service) {
      forall order, after, writable, again
        ensures !SecondLoadChanges(start, before, order, after, writable, again, service)
      {
        AlikeIsKept(start, before, order, after, writable, again, service);
      }
    } else {
      var f, g :| f in before && g in before && ResourceLog.Loads(before, f) && ResourceLog.Loads(before, g)
                  && ServiceOf(f) == service && ServiceOf(g) == service && Replay(before[f]) != Replay(before[g]);
      var order := ListingEndingIn(before, f);
      var again := ListingEndingIn(before, g);
      assert FilesLoaded(before, before, order, |order|, {});
      assert SecondLoadChanges(start, before, order, before, {}, again, service);
    }
  }

  /** The order of the directory does not matter to a service if and only if those files replay alike. */
  lemma OrderIrrelevantIff(start: Services, files: Files, service: string)
    ensures (forall order, again :: IsFullListing(files, order) && IsFullListing(files, again) ==>
               BucketOf(LoadedInto(start, files, order, |order|), service) ==
               BucketOf(LoadedInto(start, files, again, |again|), service))
       <==> LoadsAlike(files, service)
  {
    if LoadsAlike(files, service) {
      forall order, again | IsFullListing(files, order) && IsFullListing(files, again)
        ensures BucketOf(LoadedInto(start, files, order, |order|), service) ==
                BucketOf(LoadedInto(start, files, again, |again|), service)
      {
        LoadedFrom(start, files, order, |order|, service);
        LoadedFrom(start, files, again, |again|, service);
        SameLoaders(files, order, again, service);
      }
    } else {
      var f, g :| f in files && g in files && ResourceLog.Loads(files, f) && ResourceLog.Loads(files, g)
                  && ServiceOf(f) == service && ServiceOf(g) == service && Replay(files[f]) != Replay(files[g]);
      var order := ListingEndingIn(files, f);
      var again := ListingEndingIn(files, g);
    }
  }

  lemma SameLoaders(files: Files, order: seq<string>, again: seq<string>, service: string)
    requires IsFullListing(files, order) && IsFullListing(files, again)
    ensures LoadedBy(files, order, |order|, service) <==> LoadedBy(files, again, |again|, service)
  {
    if LoadedBy(files, order, |order|, service) {
      var i :| 0 <= i < |order| && ResourceLog.Loads(files, order[i]) && ServiceOf(order[i]) == service;
      var j :| 0 <= j < |again| && again[j] == order[i];
    }
    if LoadedBy(files, again, |again|, service) {
      var i :| 0 <= i < |again| && ResourceLog.Loads(files, again[i]) && ServiceOf(again[i]) == service;
      var j :| 0 <= j < |order| && order[j] == again[i];
    }
  }

  lemma {:induction false} LoadedKeys(start: Services, files: Files, order: seq<string>, n: nat, service: string)
    requires n <= |order| && forall i :: 0 <= i < |order| ==> order[i] in files
    ensures service in LoadedInto(start, files, order, n) <==> service in start || LoadedBy(files, order, n, service)
  {
    if n > 0 { LoadedKeys(start, files, order, n - 1, service); }
  }

  /** When this holds of all services, a second load leaves the whole map as it is. */
  lemma LoadTwice(start: Services, before: Files, after: Files, order: seq<string>, again: seq<string>, writable: set<string>)
    requires IsFullListing(before, order) && FilesLoaded(before, after, order, |order|, writable)
    requires IsFullListing(after, again) && forall service :: LoadsAlike(before, service)
    ensures var once := LoadedInto(start, before, order, |order|);
      LoadedInto(once, after, again, |again|) == once
  {
    forall f | f in before ensures Replay(after[f]) == Replay(before[f]) {
      LoadedFileReplays(before, after, order, writable, f);
    }
    LoadedSame(LoadedInto(start, before, order, |order|), before, after, again, |again|);
    SameTwice(start, before, order, again);
  }

  lemma SameTwice(start: Services, files: Files, order: seq<string>, again: seq<string>)
    requires IsFullListing(files, order) && IsFullListing(files, again)
    requires forall service :: LoadsAlike(files, service)
    ensures var once := LoadedInto(start, files, order, |order|);
      LoadedInto(once, files, again, |again|) == once
  {
    var once := LoadedInto(start, files, order, |order|);
    var twice := LoadedInto(once, files, again, |again|);
    forall s ensures (s in twice <==> s in once) && (s in once ==> twice[s] == once[s]) {
      ServiceTwice(start, files, order, again, s);
    }
  }

  lemma ServiceTwice(start: Services, files: Files, order: seq<string>, again: seq<string>, service: string)
    requires IsFullListing(files, order) && IsFullListing(files, again) && LoadsAlike(files, service)
    ensures var once := LoadedInto(start, files, order, |order|);
      var twice := LoadedInto(once, files, again, |again|);
      (service in twice <==> service in once) && (service in once ==> twice[service] == once[service])
  {
    var once := LoadedInto(start, files, order, |order|);
    LoadedKeys(start, files, order, |order|, service);
    LoadedKeys(once, files, again, |again|, service);
    SameLoaders(files, order, again, service);
    AlikeLoads(start, files, order, again, service);
  }

  /** The id has no suffix, and no other file name reads as this service. */
  ghost predicate SoleFile(files: Files, service: string) {
    !IsLog(service) && forall f :: f in files && IsLog(f) && ServiceOf(f) == service ==> f == FileOf(service)
  }

  lemma SoleFileRecovers(files: Files, service: string)
    requires SoleFile(files, service)
    ensures RecoversOwn(files, service)
  {
  }

  /** Resources are stored under their own keys. */
  ghost predicate Keyed(services: Services) {
    forall s, k :: s in services && k in services[s] ==> KeyOf(services[s][k]) == k
  }

  lemma InsertedKeyed(services: Services, service: string, rs: ResourceState)
    requires Keyed(services)
    ensures Keyed(Inserted(services, service, rs))
  {
  }

  class Store {
    var byService: Services
    var files: Files
    const persistent: bool
    const registry: Option<Registry>

    ghost predicate Valid()
      reads this
    {
      Keyed(byService)
    }

    constructor (persistent: bool, registry: Option<Registry>, onDisk: Files)
      ensures Valid() && byService == map[] && files == onDisk
      ensures this.persistent == persistent && this.registry == registry
    {
      byService := map[];
      files := onDisk;
      this.persistent := persistent;
      this.registry := registry;
    }

    method Lookup(service: string, collection: string, id: string) returns (found: Option<ResourceState>)
      ensures found == LookupIn(byService, service, (collection, id))
    {
      if service !in byService { return None; }
      var svc := byService[service];
      if (collection, id) !in svc { return None; }
      return Some(svc[(collection, id)]);
    }

    /** One line, or nothing when the disk fails. */
    method PersistJsonl(service: string, rs: ResourceState, diskOk: bool)
      modifies this`files
      ensures files == if diskOk then Appended(old(files), service, rs) else old(files)
    {
      if diskOk {
        var name := FileOf(service);
        var lines := if name in files then files[name] else [];
        files := files[name := lines + [Entry(rs)]];
      }
    }

    method CaptureCreate(
      service: string, collection: string, body: Json.Value, hint: Option<string>,
      contentType: Option<string>, status: nat, now: int, diskOk: bool)
      returns (captured: Option<string>)
      requires Valid()
      modifies this
      ensures Valid()
      ensures captured == ExtractId(body, collection, hint)
      ensures captured.None? ==> byService == old(byService) && files == old(files)
      ensures captured.Some? ==>
        var rs := NewResource(registry, collection, captured.value, body, contentType, status, now);
        && byService == Inserted(old(byService), service, rs)
        && files == if persistent && diskOk then Appended(old(files), service, rs) else old(files)
      ensures IsExtracted(body, collection, hint, captured)
      ensures captured.Some? ==>
        StoredAs(registry, byService, service, collection, captured.value, body, contentType, status, now)
    {
      ExtractedIsFirst(body, collection, hint);
      captured := ExtractId(body, collection, hint);
      if captured.None? { return; }
      var rs := NewResource(registry, collection, captured.value, body, contentType, status, now);
      InsertedKeyed(byService, service, rs);
      StoredWhenInserted(registry, byService, service, collection, captured.value, body, contentType, status, now);
      ghost var next := Inserted(byService, service, rs);
      if service !in byService { byService := byService[service := map[]]; }
      byService := byService[service := byService[service][(collection, captured.value) := rs]];
      assert byService == next;
      if persistent { PersistJsonl(service, rs, diskOk); }
    }

    method ApplyTransition(service: string, collection: string, id: string, action: string, now: int, diskOk: bool)
      returns (state: Option<string>)
      requires Valid()
      modifies this
      ensures Valid()
      ensures var next := TransitionIn(registry, old(byService), service, (collection, id), action, now);
        if next.None? then state.None? && byService == old(byService) && files == old(files)
        else
          && state == next.value.currentState
          && byService == Inserted(old(byService), service, next.value)
          && files == if persistent && diskOk then Appended(old(files), service, next.value) else old(files)
    {
      if registry.None? || service !in byService || (collection, id) !in byService[service] { return None; }
      var rs := byService[service][(collection, id)];
      if rs.statechart.None? || rs.currentState.None? { return None; }
      var next := NextIn(registry.value, rs.statechart.value, rs.currentState.value, action);
      if next.None? { return None; }
      rs := rs.(currentState := next, updatedAt := now);
      var field := registry.value[rs.statechart.value].statusField;
      rs := rs.(body := WriteStatus(rs.body, field, next.value));
      byService := byService[service := byService[service][(collection, id) := rs]];
      if persistent {
        var snapshot := Lookup(service, collection, id);
        if snapshot.Some? { PersistJsonl(service, snapshot.value, diskOk); }
      }
      return next;
    }

    /** Removes from the map only; the file keeps its lines. */
    method Delete(service: string, collection: string, id: string) returns (removed: bool)
      requires Valid()
      modifies this`byService
      ensures Valid()
      ensures removed <==> LookupIn(old(byService), service, (collection, id)).Some?
      ensures byService == Removed(old(byService), service, (collection, id))
    {
      if service !in byService { return false; }
      removed := (collection, id) in byService[service];
      byService := byService[service := byService[service] - {(collection, id)}];
    }

    /** The line loop of a load: how many lines have text, and the replay. */
    static method ReadFile(lines: seq<Line>) returns (raw: nat, bucket: Bucket)
      ensures raw == |WithText(lines)| && bucket == Replay(lines)
    {
      raw, bucket := 0, map[];
      for i := 0 to |lines|
        invariant raw == |WithText(lines[..i])| && bucket == Replay(lines[..i])
      {
        assert lines[..i + 1][..i] == lines[..i];
        match lines[i] {
          case Blank =>
          case Junk => raw := raw + 1;
          case Entry(rs) =>
            raw := raw + 1;
            bucket := bucket[(rs.collection, rs.id) := rs];
        }
      }
      assert lines[..|lines|] == lines;
    }

    /**
     * Replays every file of the directory listing and compacts it. `writable`
     * are the files whose rewrite succeeds; no listing means the directory
     * could not be read.
     */
    method LoadFromDisk(listing: Option<seq<string>>, writable: set<string>)
      requires Valid()
      requires listing.Some? ==> IsListing(files, listing.value)
      modifies this
      ensures Valid()
      ensures !persistent || listing.None? ==> byService == old(byService) && files == old(files)
      ensures persistent && listing.Some? ==>
        && byService == LoadedInto(old(byService), old(files), listing.value, |listing.value|)
        && FilesLoaded(old(files), files, listing.value, |listing.value|, writable)
    {
      if !persistent || listing.None? { return; }
      LoadFiles(listing.value, writable);
    }

    /** The file loop. */
    method LoadFiles(order: seq<string>, writable: set<string>)
      requires Valid() && IsListing(files, order)
      modifies this
      ensures Valid()
      ensures byService == LoadedInto(old(byService), old(files), order, |order|)
      ensures FilesLoaded(old(files), files, order, |order|, writable)
    {
      ghost var start, disk := byService, files;
      for n := 0 to |order|
        invariant Valid()
        invariant byService == LoadedInto(start, disk, order, n)
        invariant FilesLoaded(disk, files, order, n, writable)
      {
        LoadNext(start, disk, order, n, writable);
      }
    }

    /** One turn of the file loop, after the first `n` files of the listing. */
    method LoadNext(ghost start: Services, ghost disk: Files, order: seq<string>, n: nat, writable: set<string>)
      requires Valid() && n < |order| && IsListing(disk, order)
      requires byService == LoadedInto(start, disk, order, n) && FilesLoaded(disk, files, order, n, writable)
      modifies this
      ensures Valid()
      ensures byService == LoadedInto(start, disk, order, n + 1) && FilesLoaded(disk, files, order, n + 1, writable)
    {
      ghost var before := files;
      StillThere(disk, files, order, n, writable);
      LoadOneFile(order[n], order[n] in writable);
      OneMoreFile(disk, before, files, order, n, writable);
    }

    /** Replays and compacts one file. */
    method LoadOneFile(name: string, canWrite: bool)
      requires Valid() && name in files
      modifies this
      ensures Valid()
      ensures byService ==
        if ResourceLog.Loads(old(files), name) then old(byService)[ServiceOf(name) := Replay(old(files)[name])] else old(byService)
      ensures files.Keys == old(files).Keys && forall f :: f in files && f != name ==> files[f] == old(files)[f]
      ensures LoadRewrites(old(files)[name], files[name], IsLog(name) && canWrite)
    {
      if !IsLog(name) { return; }
      var raw, bucket := ReadFile(files[name]);
      if bucket == map[] { return; }
      if |bucket| < raw {
        var compacted := Compact(bucket, KeyOf);
        if canWrite { files := files[name := compacted]; }
      }
      byService := byService[ServiceOf(name) := bucket];
    }
  }
}
