/**
 * The mock library as a value: what a lookup finds, what a write changes, and
 * how it stays equal to the log through writes, edits and reloads.
 */
module MockLibrary {
  import opened Options
  import opened Entries
  import opened Logs
  import opened Defaults
  import opened MockLog

  // ---------------------------------------------------------------- lookups

  /** Each segment holds its own service only, and each mock is under its own key. */
  ghost predicate WellFormed(library: Library) {
    forall s :: s in library ==> SegmentFits(s, library[s])
  }

  ghost predicate SegmentFits(name: string, segment: Segment) {
    forall service :: service in segment ==> service == name && Keyed(segment[service])
  }

  function MocksOf(library: Library, service: string): ServiceMocks {
    if service in library && service in library[service] then library[service][service] else map[]
  }

  /** What an exact lookup finds. */
  function Found(library: Library, service: string, key: MockKey): Option<MockEntry> {
    var mocks := MocksOf(library, service);
    if key in mocks then Some(mocks[key]) else None
  }

  predicate Wanted(tenant: Option<string>, key: MockKey) { tenant.None? || tenant.value == key.2 }

  function Matching(mocks: ServiceMocks, tenant: Option<string>): ServiceMocks {
    map k | k in mocks && Wanted(tenant, k) :: mocks[k]
  }

  /** The mocks of a service that a request of this tenant may be served from. */
  function Candidates(library: Library, service: string, tenant: Option<string>): ServiceMocks {
    Matching(MocksOf(library, service), tenant)
  }

  // ---------------------------------------------------------------- writes

  function Publish(library: Library, service: string, e: MockEntry): Library {
    var segment := if service in library then library[service] else map[];
    var mocks := if service in segment then segment[service] else map[];
    library[service := segment[service := mocks[KeyOf(e) := e]]]
  }

  /** A write of the admin interface: the default tenant and service fill the gaps. */
  function AdminEntry(e: MockEntry): (stored: MockEntry)
    ensures stored == e.(tenant := stored.tenant)
    ensures if e.tenant != "" then stored.tenant == e.tenant else stored.tenant == "_global"
  {
    if e.tenant == "" then e.(tenant := GLOBAL_TENANT) else e
  }

  lemma PublishKeepsForm(library: Library, service: string, e: MockEntry)
    requires WellFormed(library)
    ensures WellFormed(Publish(library, service, e))
  {
  }

  /** Lookups find the entry under its service, method, URI and tenant, and everything else as before. */
  ghost predicate OnlyAdds(before: Library, after: Library, service: string, e: MockEntry) {
    forall other, httpMethod, uri, tenant ::
      Found(after, other, (httpMethod, uri, tenant)) ==
        if other == service && httpMethod == e.request.httpMethod && uri == e.request.uri && tenant == e.tenant then Some(e)
        else Found(before, other, (httpMethod, uri, tenant))
  }

  /** A write is found under its own service, method, URI and tenant, and changes no other lookup. */
  lemma PublishFound(
    library: Library, service: string, e: MockEntry, other: string, httpMethod: string, uri: string, tenant: string)
    ensures Found(Publish(library, service, e), other, (httpMethod, uri, tenant)) ==
      if other == service && httpMethod == e.request.httpMethod && uri == e.request.uri && tenant == e.tenant then Some(e)
      else Found(library, other, (httpMethod, uri, tenant))
  {
  }

  lemma PublishOnlyAdds(library: Library, service: string, e: MockEntry)
    ensures OnlyAdds(library, Publish(library, service, e), service, e)
  {
    forall other, httpMethod, uri, tenant { PublishFound(library, service, e, other, httpMethod, uri, tenant); }
  }

  /** An empty library holds nothing; a mock is a candidate when it is found and of this tenant, if one is wanted. */
  lemma CandidatesIff(
    library: Library, service: string, wanted: Option<string>, httpMethod: string, uri: string, tenant: string, e: MockEntry)
    ensures Found(map[], service, (httpMethod, uri, tenant)) == None
    ensures (var key := (httpMethod, uri, tenant);
        key in Candidates(library, service, wanted) && Candidates(library, service, wanted)[key] == e)
      <==> Found(library, service, (httpMethod, uri, tenant)) == Some(e) && (wanted == None || wanted == Some(tenant))
  {
  }

  /** The candidates as entries: those that a lookup of their own fields finds, of this tenant if one is wanted. */
  ghost predicate AreCandidates(entries: seq<MockEntry>, library: Library, service: string, wanted: Option<string>) {
    forall e :: e in entries <==>
      && Found(library, service, (e.request.httpMethod, e.request.uri, e.tenant)) == Some(e)
      && (wanted == None || wanted == Some(e.tenant))
  }

  lemma ListedAreCandidates(entries: seq<MockEntry>, library: Library, service: string, wanted: Option<string>)
    requires WellFormed(library) && Lists(entries, Candidates(library, service, wanted))
    ensures AreCandidates(entries, library, service, wanted)
  {
    var candidates := Candidates(library, service, wanted);
    ListsIff(entries, candidates);
    if service in library { assert SegmentFits(service, library[service]); }
    forall e ensures e in entries <==> KeyOf(e) in candidates && candidates[KeyOf(e)] == e {
      if e in entries {
        var i :| 0 <= i < |entries| && entries[i] == e;
      }
    }
  }

  /** Writes as service and entry, applied in turn. */
  function Published(library: Library, writes: seq<(string, MockEntry)>): Library {
    if writes == [] then library
    else
      var n := |writes| - 1;
      Publish(Published(library, writes[..n]), writes[n].0, writes[n].1)
  }

  /** No run of writes under other tenants changes a lookup of this tenant. */
  lemma {:induction false} OtherTenantsKeepFound(
    library: Library, writes: seq<(string, MockEntry)>, service: string, key: MockKey)
    requires forall i :: 0 <= i < |writes| ==> writes[i].1.tenant != key.2
    ensures Found(Published(library, writes), service, key) == Found(library, service, key)
  {
    if writes != [] {
      var n := |writes| - 1;
      OtherTenantsKeepFound(library, writes[..n], service, key);
      PublishFound(Published(library, writes[..n]), writes[n].0, writes[n].1, service, key.0, key.1, key.2);
    }
  }

  /** Nor the set of mocks that this tenant's requests may be served from. */
  lemma OtherTenantsKeepCandidates(library: Library, writes: seq<(string, MockEntry)>, service: string, tenant: string)
    requires forall i :: 0 <= i < |writes| ==> writes[i].1.tenant != tenant
    ensures Candidates(Published(library, writes), service, Some(tenant)) == Candidates(library, service, Some(tenant))
  {
    var after, before := Candidates(Published(library, writes), service, Some(tenant)), Candidates(library, service, Some(tenant));
    forall k: MockKey ensures (k in after <==> k in before) && (k in after ==> after[k] == before[k]) {
      if k.2 == tenant { OtherTenantsKeepFound(library, writes, service, k); }
      assert k in after <==> k.2 == tenant && Found(Published(library, writes), service, k).Some?;
      assert k in before <==> k.2 == tenant && Found(library, service, k).Some?;
    }
  }

  // ---------------------------------------------------------------- counting

  /** A service and a key of it. */
  type Address = (string, MockKey)

  /** Every mock of a well-formed library by service and key. */
  function Flat(library: Library): map<Address, MockEntry> {
    map s, k | s in library && k in MocksOf(library, s) :: (s, k) := MocksOf(library, s)[k]
  }

  /** What a listing holds: the mocks of one tenant, or all of them. */
  function TenantPart(all: map<Address, MockEntry>, tenant: Option<string>): map<Address, MockEntry> {
    map a | a in all && Wanted(tenant, a.1) :: all[a]
  }

  /** The entries, each with the one address it is stored at. */
  ghost predicate ListsAt(entries: seq<MockEntry>, at: seq<Address>, all: map<Address, MockEntry>) {
    && |entries| == |at|
    && (forall i :: 0 <= i < |at| ==> at[i] in all && all[at[i]] == entries[i])
    && (forall i, j :: 0 <= i < j < |at| ==> at[i] != at[j])
    && (forall a :: a in all ==> a in at)
  }

  lemma {:induction false} DistinctCount(at: seq<Address>)
    requires forall i, j :: 0 <= i < j < |at| ==> at[i] != at[j]
    ensures |set a | a in at| == |at|
  {
    if at != [] {
      var n := |at| - 1;
      DistinctCount(at[..n]);
      assert at == at[..n] + [at[n]];
      assert (set a | a in at) == (set a | a in at[..n]) + {at[n]};
    }
  }

  /** A listing is as long as what it lists. */
  lemma ListsAtCount(entries: seq<MockEntry>, at: seq<Address>, all: map<Address, MockEntry>)
    requires ListsAt(entries, at, all)
    ensures |entries| == |all|
  {
    DistinctCount(at);
    assert (set a | a in at) == all.Keys;
  }

  function AddressesIn(service: string, entries: seq<MockEntry>): (at: seq<Address>)
    ensures |at| == |entries| && forall i :: 0 <= i < |at| ==> at[i] == (service, KeyOf(entries[i]))
  {
    seq(|entries|, i requires 0 <= i < |entries| => (service, KeyOf(entries[i])))
  }

  function Without(all: map<Address, MockEntry>, services: set<string>): map<Address, MockEntry> {
    map a | a in all && a.0 !in services :: all[a]
  }

  lemma AllListed(entries: seq<MockEntry>, at: seq<Address>, all: map<Address, MockEntry>, todo: set<string>)
    requires todo == {} && ListsAt(entries, at, Without(all, todo))
    ensures ListsAt(entries, at, all)
  {
    assert Without(all, todo) == all;
  }

  function Only(all: map<Address, MockEntry>, service: string): map<Address, MockEntry> {
    map a | a in all && a.0 == service :: all[a]
  }

  lemma ListsJoin(
    entries: seq<MockEntry>, at: seq<Address>, part: map<Address, MockEntry>,
    more: seq<MockEntry>, extra: seq<Address>, rest: map<Address, MockEntry>)
    requires ListsAt(entries, at, part) && ListsAt(more, extra, rest) && part.Keys !! rest.Keys
    ensures ListsAt(entries + more, at + extra, part + rest)
  {
  }

  lemma ListsOnly(all: map<Address, MockEntry>, service: string, mocks: ServiceMocks, more: seq<MockEntry>)
    requires Lists(more, mocks)
    requires forall k :: (service, k) in all <==> k in mocks
    requires forall k :: k in mocks ==> all[(service, k)] == mocks[k] && KeyOf(mocks[k]) == k
    ensures ListsAt(more, AddressesIn(service, more), Only(all, service))
  {
    var extra := AddressesIn(service, more);
    ListsIff(more, mocks);
    forall i | 0 <= i < |more| ensures extra[i] in all && all[extra[i]] == more[i] {}
    forall a | a in Only(all, service) ensures a in extra {
      assert a == (service, a.1);
      var i :| 0 <= i < |more| && more[i] == mocks[a.1];
      assert extra[i] == a;
    }
    forall i, j | 0 <= i < j < |more| ensures extra[i] != extra[j] {
      assert mocks[KeyOf(more[i])] == more[i] && mocks[KeyOf(more[j])] == more[j];
    }
  }

  /** The listing of one more service's mocks. */
  lemma ListsOneMore(
    all: map<Address, MockEntry>, todo: set<string>, service: string, mocks: ServiceMocks,
    entries: seq<MockEntry>, at: seq<Address>, more: seq<MockEntry>)
    requires service in todo && ListsAt(entries, at, Without(all, todo)) && Lists(more, mocks)
    requires forall k :: (service, k) in all <==> k in mocks
    requires forall k :: k in mocks ==> all[(service, k)] == mocks[k] && KeyOf(mocks[k]) == k
    ensures ListsAt(entries + more, at + AddressesIn(service, more), Without(all, todo - {service}))
  {
    ListsOnly(all, service, mocks, more);
    ListsJoin(entries, at, Without(all, todo), more, AddressesIn(service, more), Only(all, service));
    assert Without(all, todo - {service}) == Without(all, todo) + Only(all, service);
  }

  lemma NothingListed(library: Library, tenant: Option<string>, all: map<Address, MockEntry>, todo: set<string>)
    requires all == TenantPart(Flat(library), tenant) && todo == library.Keys
    ensures ListsAt([], [], Without(all, todo))
  {
  }

  lemma OneMoreSegment(
    library: Library, tenant: Option<string>, all: map<Address, MockEntry>, todo: set<string>, service: string,
    entries: seq<MockEntry>, at: seq<Address>, more: seq<MockEntry>)
    requires all == TenantPart(Flat(library), tenant)
    requires service in todo && service in library && SegmentFits(service, library[service])
    requires ListsAt(entries, at, Without(all, todo))
    requires Lists(more, Matching(MocksOf(library, service), tenant))
    ensures ListsAt(entries + more, at + AddressesIn(service, more), Without(all, todo - {service}))
  {
    ListsOneMore(all, todo, service, Matching(MocksOf(library, service), tenant), entries, at, more);
  }

  lemma {:induction false} AddressCount(service: string, keys: set<MockKey>)
    ensures |set k | k in keys :: (service, k)| == |keys|
  {
    if keys != {} {
      var k :| k in keys;
      AddressCount(service, keys - {k});
      assert (set x | x in keys :: (service, x)) == (set x | x in keys - {k} :: (service, x)) + {(service, k)};
    }
  }

  lemma WithoutOneLess(all: map<Address, MockEntry>, todo: set<string>, service: string)
    requires service in todo
    ensures |Without(all, todo - {service})| == |Without(all, todo)| + |Only(all, service)|
  {
    var before, after, own := Without(all, todo).Keys, Without(all, todo - {service}).Keys, Only(all, service).Keys;
    assert after == before + own && before !! own;
  }

  lemma CountOneMore(library: Library, todo: set<string>, service: string)
    requires service in todo && service in library
    ensures |Without(Flat(library), todo - {service})| == |Without(Flat(library), todo)| + |MocksOf(library, service)|
  {
    var keys, own := MocksOf(library, service).Keys, Only(Flat(library), service).Keys;
    AddressCount(service, keys);
    forall a ensures a in own <==> a.0 == service && a.1 in keys { assert a == (a.0, a.1); }
    assert own == set k | k in keys :: (service, k);
    WithoutOneLess(Flat(library), todo, service);
  }

  lemma CountEnds(library: Library, todo: set<string>)
    ensures todo == library.Keys ==> |Without(Flat(library), todo)| == 0
    ensures todo == {} ==> |Without(Flat(library), todo)| == |Flat(library)|
  {
    if todo == library.Keys { assert Without(Flat(library), todo) == map[]; }
    if todo == {} { assert Without(Flat(library), todo) == Flat(library); }
  }

  function SumOfParts(all: map<Address, MockEntry>, tenants: seq<string>): nat {
    if tenants == [] then 0
    else
      var n := |tenants| - 1;
      SumOfParts(all, tenants[..n]) + |TenantPart(all, Some(tenants[n]))|
  }

  function PartsOf(all: map<Address, MockEntry>, tenants: seq<string>): set<Address> {
    set a | a in all && a.1.2 in tenants
  }

  lemma {:induction false} PartsAdd(all: map<Address, MockEntry>, tenants: seq<string>)
    requires forall i, j :: 0 <= i < j < |tenants| ==> tenants[i] != tenants[j]
    ensures SumOfParts(all, tenants) == |PartsOf(all, tenants)|
  {
    if tenants == [] {
      assert PartsOf(all, tenants) == {};
    } else {
      var n := |tenants| - 1;
      PartsAdd(all, tenants[..n]);
      var before, part := PartsOf(all, tenants[..n]), TenantPart(all, Some(tenants[n])).Keys;
      assert tenants == tenants[..n] + [tenants[n]];
      assert PartsOf(all, tenants) == before + part && before !! part;
    }
  }

  /** The listings of all tenants together are the whole library, each mock once. */
  lemma TenantsPartition(all: map<Address, MockEntry>, tenants: seq<string>)
    requires forall i, j :: 0 <= i < j < |tenants| ==> tenants[i] != tenants[j]
    requires forall a :: a in all ==> a.1.2 in tenants
    ensures SumOfParts(all, tenants) == |all|
    ensures forall a :: a in all ==> forall t :: a in TenantPart(all, Some(t)) <==> t == a.1.2
  {
    PartsAdd(all, tenants);
    assert PartsOf(all, tenants) == all.Keys;
  }

  // ---------------------------------------------------------------- reloads

  /** One file changes as a load changes it; the others stay. */
  ghost predicate FileLoaded(before: Files, after: Files, name: string, canWrite: bool) {
    && after.Keys == before.Keys
    && (name in before ==> LoadRewrites(before[name], after[name], canWrite))
    && forall f :: f in before && f != name ==> after[f] == before[f]
  }

  /** Every mock file changes as a load changes it; other files stay. */
  ghost predicate AllLoaded(before: Files, after: Files, writable: set<string>) {
    && after.Keys == before.Keys
    && forall f :: f in before ==>
         if IsMockFile(f) then LoadRewrites(before[f], after[f], f in writable) else after[f] == before[f]
  }

  /** A segment takes the old one's place, or the old one goes. */
  function Swapped(library: Library, service: string, segment: Option<Segment>): Library {
    if segment.Some? then library[service := segment.value] else library - {service}
  }

  function Reloaded(library: Library, files: Files, name: string): Library {
    if !IsMockFile(name) then library
    else Swapped(library, ServiceOf(name), SegmentOf(files, ServiceOf(name)))
  }

  lemma FileLoadedKeepsSegment(before: Files, after: Files, name: string, canWrite: bool, service: string)
    requires FileLoaded(before, after, name, canWrite)
    ensures SegmentOf(after, service) == SegmentOf(before, service)
  {
    if FileOf(service) == name && name in before { LoadKeepsMap(before[name], after[name], canWrite); }
  }

  lemma AllLoadedKeepsSegment(before: Files, after: Files, writable: set<string>, service: string)
    requires AllLoaded(before, after, writable)
    ensures SegmentOf(after, service) == SegmentOf(before, service)
  {
    var f := FileOf(service);
    FileNames(service, "");
    if f in before { LoadKeepsMap(before[f], after[f], f in writable); }
  }

  lemma ReloadedAt(library: Library, files: Files, name: string, service: string)
    ensures At(Reloaded(library, files, name), service) ==
            if name == FileOf(service) then SegmentOf(files, service) else At(library, service)
  {
    FileNames(service, name);
  }

  // ---------------------------------------------------------------- loading file by file

  /** The library built from the first `n` files of a directory listing. */
  function LoadedUpTo(files: Files, order: seq<string>, n: nat): Library
    requires n <= |order|
  {
    if n == 0 then map[]
    else
      var before, f := LoadedUpTo(files, order, n - 1), order[n - 1];
      if IsMockFile(f) && SegmentOf(files, ServiceOf(f)).Some? then before[ServiceOf(f) := SegmentOf(files, ServiceOf(f)).value]
      else before
  }

  lemma {:induction false} LoadedUpToAt(files: Files, order: seq<string>, n: nat, service: string)
    requires n <= |order|
    ensures At(LoadedUpTo(files, order, n), service) ==
            if FileOf(service) in order[..n] then SegmentOf(files, service) else None
  {
    if n > 0 {
      LoadedUpToAt(files, order, n - 1, service);
      FileNames(service, order[n - 1]);
      assert order[..n] == order[..n - 1] + [order[n - 1]];
    }
  }

  /** Any order of the directory gives the same library. */
  lemma LoadedInAnyOrder(files: Files, order: seq<string>)
    requires forall f :: f in files ==> f in order
    ensures LoadedUpTo(files, order, |order|) == LoadAll(files)
  {
    forall s ensures At(LoadedUpTo(files, order, |order|), s) == At(LoadAll(files), s) {
      LoadedUpToAt(files, order, |order|, s);
      LoadAllAt(files, s);
      assert order[..|order|] == order;
    }
    SameAtEveryName(LoadedUpTo(files, order, |order|), LoadAll(files));
  }

  /** The mock files among the first `n` of the listing changed as a load changes them. */
  ghost predicate LoadedFilesUpTo(before: Files, after: Files, order: seq<string>, n: nat, writable: set<string>)
    requires n <= |order|
  {
    && after.Keys == before.Keys
    && forall f :: f in before ==>
         if f in order[..n] && IsMockFile(f) then LoadRewrites(before[f], after[f], f in writable) else after[f] == before[f]
  }

  lemma OneMoreFile(disk: Files, before: Files, after: Files, order: seq<string>, n: nat, writable: set<string>)
    requires n < |order| && LoadedFilesUpTo(disk, before, order, n, writable)
    requires forall i, j :: 0 <= i < j < |order| ==> order[i] != order[j]
    requires if IsMockFile(order[n]) then FileLoaded(before, after, order[n], order[n] in writable) else after == before
    ensures LoadedFilesUpTo(disk, after, order, n + 1, writable)
    ensures IsMockFile(order[n]) ==> SegmentOf(before, ServiceOf(order[n])) == SegmentOf(disk, ServiceOf(order[n]))
  {
    assert order[n] !in order[..n];
    assert order[..n + 1] == order[..n] + [order[n]];
    FileNames("", order[n]);
  }

  lemma AllFilesLoaded(before: Files, after: Files, order: seq<string>, writable: set<string>)
    requires LoadedFilesUpTo(before, after, order, |order|, writable) && forall f :: f in before ==> f in order
    ensures AllLoaded(before, after, writable)
  {
    assert order[..|order|] == order;
  }

  // ---------------------------------------------------------------- changes of the files

  function Appended(files: Files, service: string, e: MockEntry): Files {
    AppendedTo(files, FileOf(service), e)
  }

  function Edited(files: Files, name: string, content: Option<seq<Line>>): Files {
    if content.Some? then files[name := content.value] else files - {name}
  }

  lemma LogAppended(files: Files, service: string, e: MockEntry, other: string)
    ensures LogOf(Appended(files, service, e), other) ==
            if other == service then LogOf(files, service) + [Entry(e)] else LogOf(files, other)
  {
    FileNames(service, "");
    FileNames(other, "");
  }

  /** After a full load a lookup finds the last mock of the service's file with these fields. */
  lemma LoadedIsLast(files: Files, service: string, httpMethod: string, uri: string, tenant: string)
    ensures var found := Found(LoadAll(files), service, (httpMethod, uri, tenant));
      if found.Some? then exists i :: LastOf(LogOf(files, service), httpMethod, uri, tenant, i)
                                      && found.value == LogOf(files, service)[i].entry
      else forall i :: !LastOf(LogOf(files, service), httpMethod, uri, tenant, i)
  {
    LoadAllAt(files, service);
    MapIsLast(LogOf(files, service), httpMethod, uri, tenant);
  }

  lemma FoundAfterLoad(files: Files, service: string, key: MockKey)
    ensures var mocks := MapOf(LogOf(files, service));
      Found(LoadAll(files), service, key) == if key in mocks then Some(mocks[key]) else None
  {
    LoadAllAt(files, service);
  }

  /** One more line is found after a full load as a write is, and changes no other lookup. */
  lemma AppendOnlyAdds(files: Files, service: string, e: MockEntry)
    ensures OnlyAdds(LoadAll(files), LoadAll(Appended(files, service, e)), service, e)
  {
    forall other, httpMethod, uri, tenant
      ensures Found(LoadAll(Appended(files, service, e)), other, (httpMethod, uri, tenant)) ==
        if other == service && httpMethod == e.request.httpMethod && uri == e.request.uri && tenant == e.tenant then Some(e)
        else Found(LoadAll(files), other, (httpMethod, uri, tenant))
    {
      LogAppended(files, service, e, other);
      FoundAfterLoad(files, other, (httpMethod, uri, tenant));
      FoundAfterLoad(Appended(files, service, e), other, (httpMethod, uri, tenant));
      ReplayAppend(LogOf(files, service), KeyOf, e);
    }
  }

  // ---------------------------------------------------------------- the form of libraries

  lemma LoadAllFits(files: Files)
    ensures WellFormed(LoadAll(files))
  {
  }

  /** And nothing empty is kept. */
  ghost predicate Neat(library: Library) {
    forall s :: s in library ==> MocksOf(library, s) != map[] && library[s] == map[s := MocksOf(library, s)]
  }

  lemma LoadAllIsNeat(files: Files)
    ensures Neat(LoadAll(files))
  {
    forall s | s in LoadAll(files)
      ensures MocksOf(LoadAll(files), s) != map[] && LoadAll(files)[s] == map[s := MocksOf(LoadAll(files), s)]
    {
      LoadAllAt(files, s);
    }
  }

  lemma PublishIsNeat(library: Library, service: string, e: MockEntry)
    requires Neat(library)
    ensures Neat(Publish(library, service, e))
  {
    var next := Publish(library, service, e);
    assert KeyOf(e) in MocksOf(next, service);
    assert service in library ==> library[service] == map[service := MocksOf(library, service)];
  }

  lemma ReloadedIsNeat(library: Library, files: Files, name: string)
    requires Neat(library)
    ensures Neat(Reloaded(library, files, name))
  {
  }

  /** Of such a library everything is known from its lookups. */
  lemma NeatAt(library: Library, files: Files, service: string)
    requires Neat(library) && MocksOf(library, service) == MapOf(LogOf(files, service))
    ensures At(library, service) == SegmentOf(files, service)
  {
  }
}
