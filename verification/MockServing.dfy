/**
 * The running mock store: immutable segments shared between libraries, a
 * pointer to the current library, and the directory of logs. Writers and
 * reloads build a new library and swap the pointer; nothing reachable from an
 * older library is ever modified.
 */
module MockServing {
  import opened Options
  import opened Entries
  import opened Logs
  import opened MockLog
  import opened MockLibrary
  import opened Defaults

  /** What a value holds for a tenant, listed in any order. */
  method ListMatching(mocks: ServiceMocks, tenant: Option<string>) returns (entries: seq<MockEntry>)
    requires Keyed(mocks)
    ensures Lists(entries, Matching(mocks, tenant))
  {
    entries := [];
    var todo := mocks.Keys;
    while todo != {}
      invariant todo <= mocks.Keys
      invariant forall i :: 0 <= i < |entries| ==>
        KeyOf(entries[i]) in mocks && KeyOf(entries[i]) !in todo && entries[i] == mocks[KeyOf(entries[i])]
        && Wanted(tenant, KeyOf(entries[i]))
      invariant forall i, j :: 0 <= i < j < |entries| ==> entries[i] != entries[j]
      invariant forall k :: k in Matching(mocks, tenant) && k !in todo ==> mocks[k] in entries
    {
      var k :| k in todo;
      if Wanted(tenant, k) { entries := entries + [mocks[k]]; }
      todo := todo - {k};
    }
    ListsIff(entries, Matching(mocks, tenant));
  }

  /** The mocks of one file. */
  class MockSegment {
    var services: Segment

    constructor (services: Segment)
      ensures this.services == services
    {
      this.services := services;
    }

    method Count(ghost name: string) returns (n: nat)
      requires SegmentFits(name, services)
      ensures n == if name in services then |services[name]| else 0
    {
      n := 0;
      var todo := services.Keys;
      while todo != {}
        invariant todo <= services.Keys
        invariant n == if name in services && name !in todo then |services[name]| else 0
      {
        var s :| s in todo;
        n := n + |services[s]|;
        todo := todo - {s};
      }
    }

    method List(ghost name: string, tenant: Option<string>) returns (entries: seq<MockEntry>)
      requires SegmentFits(name, services)
      ensures Lists(entries, Matching(if name in services then services[name] else map[], tenant))
    {
      entries := [];
      var todo := services.Keys;
      while todo != {}
        invariant todo <= services.Keys
        invariant name !in services || name in todo ==> entries == []
        invariant name in services && name !in todo ==> Lists(entries, Matching(services[name], tenant))
      {
        var s :| s in todo;
        var more := ListMatching(services[s], tenant);
        assert entries + more == more;
        entries := entries + more;
        todo := todo - {s};
      }
    }
  }

  class SharedLibrary {
    const segments: map<string, MockSegment>

    ghost function View(): (library: Library)
      reads segments.Values
      ensures library.Keys == segments.Keys
    {
      map s | s in segments :: segments[s].services
    }

    constructor (segments: map<string, MockSegment>)
      ensures this.segments == segments
    {
      this.segments := segments;
    }

    method FindExact(service: string, httpMethod: string, uri: string, tenant: string) returns (found: Option<MockEntry>)
      requires WellFormed(View())
      ensures found == Found(View(), service, (httpMethod, uri, tenant))
    {
      var key := (httpMethod, uri, tenant);
      var todo := segments.Keys;
      while todo != {}
        invariant todo <= segments.Keys
        invariant forall s :: s in segments && s !in todo ==>
          !(service in segments[s].services && key in segments[s].services[service])
      {
        var s :| s in todo;
        assert SegmentFits(s, View()[s]);
        if service in segments[s].services && key in segments[s].services[service] {
          return Some(segments[s].services[service][key]);
        }
        todo := todo - {s};
      }
      return None;
    }

    method EntriesForService(service: string, tenant: Option<string>) returns (entries: seq<MockEntry>)
      requires WellFormed(View())
      ensures Lists(entries, Candidates(View(), service, tenant))
      ensures AreCandidates(entries, View(), service, tenant)
    {
      entries := [];
      var todo := segments.Keys;
      while todo != {}
        invariant todo <= segments.Keys
        invariant service in todo ==> entries == []
        invariant service !in todo ==> Lists(entries, Candidates(View(), service, tenant))
      {
        var s :| s in todo;
        assert SegmentFits(s, View()[s]);
        if service in segments[s].services {
          var more := ListMatching(segments[s].services[service], tenant);
          assert entries + more == more;
          entries := entries + more;
        }
        todo := todo - {s};
      }
      ListedAreCandidates(entries, View(), service, tenant);
    }

    /** One turn of the listing loop. */
    method ListNext(
      s: string, tenant: Option<string>, ghost all: map<Address, MockEntry>, ghost todo: set<string>,
      listed: seq<MockEntry>, ghost listedAt: seq<Address>)
      returns (entries: seq<MockEntry>, ghost at: seq<Address>)
      requires WellFormed(View()) && s in segments && s in todo && all == TenantPart(Flat(View()), tenant)
      requires ListsAt(listed, listedAt, Without(all, todo))
      ensures ListsAt(entries, at, Without(all, todo - {s}))
    {
      ghost var view := View();
      assert SegmentFits(s, view[s]);
      var more := segments[s].List(s, tenant);
      OneMoreSegment(view, tenant, all, todo, s, listed, listedAt, more);
      entries, at := listed + more, listedAt + AddressesIn(s, more);
    }

    /** Every entry, or those of one tenant, each once for the place it is stored at. */
    method AllEntries(tenant: Option<string>) returns (entries: seq<MockEntry>)
      requires WellFormed(View())
      ensures exists at :: ListsAt(entries, at, TenantPart(Flat(View()), tenant))
    {
      entries := [];
      ghost var at: seq<Address> := [];
      ghost var view := View();
      ghost var all := TenantPart(Flat(view), tenant);
      var todo := segments.Keys;
      NothingListed(view, tenant, all, todo);
      while todo != {}
        invariant todo <= segments.Keys && View() == view
        invariant ListsAt(entries, at, Without(all, todo))
      {
        var s :| s in todo;
        entries, at := ListNext(s, tenant, all, todo, entries, at);
        todo := todo - {s};
      }
      AllListed(entries, at, all, todo);
    }

    /** One turn of the counting loop. */
    method CountNext(s: string, ghost todo: set<string>, counted: nat) returns (n: nat)
      requires WellFormed(View()) && s in segments && s in todo
      requires counted == |Without(Flat(View()), todo)|
      ensures n == |Without(Flat(View()), todo - {s})|
    {
      ghost var view := View();
      assert SegmentFits(s, view[s]);
      var more := segments[s].Count(s);
      CountOneMore(view, todo, s);
      n := counted + more;
    }

    method TotalCount() returns (n: nat)
      requires WellFormed(View())
      ensures n == |Flat(View())|
    {
      n := 0;
      ghost var view := View();
      var todo := segments.Keys;
      CountEnds(view, todo);
      while todo != {}
        invariant todo <= segments.Keys && View() == view
        invariant n == |Without(Flat(view), todo)|
      {
        var s :| s in todo;
        n := CountNext(s, todo, n);
        todo := todo - {s};
      }
      CountEnds(view, todo);
    }

    /** The clone-and-edit half of a write: a new library that shares every other segment. */
    method WithEntry(service: string, e: MockEntry) returns (next: SharedLibrary)
      ensures fresh(next) && next.View() == Publish(View(), service, e)
      ensures service in next.segments && fresh(next.segments[service])
      ensures forall s :: s in segments && s != service ==> s in next.segments && next.segments[s] == segments[s]
    {
      var services: Segment := if service in segments then segments[service].services else map[];
      var mocks := if service in services then services[service] else map[];
      var segment := new MockSegment(services[service := mocks[KeyOf(e) := e]]);
      next := new SharedLibrary(segments[service := segment]);
    }

    /** The clone-and-edit half of a reload: a segment put in, or taken out. */
    method WithSegment(service: string, segment: Option<MockSegment>) returns (next: SharedLibrary)
      ensures fresh(next)
      ensures next.View() == Swapped(View(), service, if segment.Some? then Some(segment.value.services) else None)
      ensures forall s :: s in segments && s != service ==> s in next.segments && next.segments[s] == segments[s]
    {
      if segment.Some? {
        next := new SharedLibrary(segments[service := segment.value]);
      } else {
        next := new SharedLibrary(segments - {service});
      }
    }
  }

  ghost predicate Views(segments: map<string, MockSegment>, library: Library)
    reads segments.Values
  {
    segments.Keys == library.Keys && forall s :: s in segments ==> segments[s].services == library[s]
  }

  lemma ViewsInserted(segments: map<string, MockSegment>, library: Library, service: string, segment: MockSegment)
    requires Views(segments, library)
    ensures Views(segments[service := segment], library[service := segment.services])
  {
  }

  lemma ViewsIsView(shared: SharedLibrary, library: Library)
    requires Views(shared.segments, library)
    ensures shared.View() == library
  {
  }

  /** The directory of logs. */
  class Disk {
    var files: Files

    constructor (files: Files)
      ensures this.files == files
    {
      this.files := files;
    }

    static method ReadMocks(lines: seq<Line>) returns (mocks: ServiceMocks)
      ensures mocks == MapOf(lines)
    {
      mocks := map[];
      for i := 0 to |lines|
        invariant mocks == MapOf(lines[..i])
      {
        assert lines[..i + 1][..i] == lines[..i];
        if lines[i].Entry? {
          var e := lines[i].entry;
          mocks := mocks[(e.request.httpMethod, e.request.uri, e.tenant) := e];
        }
      }
      assert lines[..|lines|] == lines;
    }

    /** Reads and compacts one file. */
    method LoadOneSegment(name: string, canWrite: bool) returns (segment: Option<MockSegment>)
      modifies this
      ensures segment.Some? ==> fresh(segment.value)
      ensures if !IsMockFile(name) then segment.None? && files == old(files)
        else
          && FileLoaded(old(files), files, name, canWrite)
          && SegmentOf(old(files), ServiceOf(name)) == if segment.Some? then Some(segment.value.services) else None
    {
      if !IsMockFile(name) { return None; }
      FileNames("", name);
      if name !in files { return None; }
      var mocks := ReadMocks(files[name]);
      if mocks == map[] { return None; }
      var compacted := Compact(mocks, KeyOf);
      if canWrite { files := files[name := compacted]; }
      var loaded := new MockSegment(map[ServiceOf(name) := mocks]);
      return Some(loaded);
    }

    /** One turn of the file loop: the segments loaded so far get one more. */
    method LoadNext(
      segments: map<string, MockSegment>, ghost disk: Files, order: seq<string>, n: nat, writable: set<string>)
      returns (more: map<string, MockSegment>)
      requires n < |order| && forall i, j :: 0 <= i < j < |order| ==> order[i] != order[j]
      requires LoadedFilesUpTo(disk, files, order, n, writable) && Views(segments, LoadedUpTo(disk, order, n))
      modifies this
      ensures LoadedFilesUpTo(disk, files, order, n + 1, writable) && Views(more, LoadedUpTo(disk, order, n + 1))
    {
      ghost var before := files;
      var segment := LoadOneSegment(order[n], order[n] in writable);
      OneMoreFile(disk, before, files, order, n, writable);
      more := segments;
      if segment.Some? {
        ViewsInserted(segments, LoadedUpTo(disk, order, n), ServiceOf(order[n]), segment.value);
        more := segments[ServiceOf(order[n]) := segment.value];
      }
    }

    /** Loads every file of the directory, whose entries come in any order. */
    method LoadAllServiceMocks(order: seq<string>, writable: set<string>) returns (library: SharedLibrary)
      requires IsFullListing(files, order)
      modifies this
      ensures fresh(library) && library.View() == LoadAll(old(files))
      ensures AllLoaded(old(files), files, writable)
    {
      var segments: map<string, MockSegment> := map[];
      ghost var disk := files;
      for n := 0 to |order|
        invariant LoadedFilesUpTo(disk, files, order, n, writable)
        invariant Views(segments, LoadedUpTo(disk, order, n))
      {
        segments := LoadNext(segments, disk, order, n, writable);
      }
      LoadedInAnyOrder(disk, order);
      AllFilesLoaded(disk, files, order, writable);
      library := new SharedLibrary(segments);
      ViewsIsView(library, LoadAll(disk));
    }

    /** One line, or nothing when the disk fails. */
    method AppendToMockLog(service: string, e: MockEntry, diskOk: bool)
      modifies this
      ensures files == if diskOk then Appended(old(files), service, e) else old(files)
    {
      if diskOk {
        var lines := if FileOf(service) in files then files[FileOf(service)] else [];
        files := files[FileOf(service) := lines + [Entry(e)]];
      }
    }
  }

  /** The pointer to the current library. */
  class MockStore {
    var current: SharedLibrary

    constructor (library: SharedLibrary)
      ensures current == library
    {
      current := library;
    }

    /** The atomic swap. */
    method Swap(library: SharedLibrary)
      modifies this
      ensures current == library && library.View() == old(library.View())
    {
      current := library;
    }

    /** Publishes a recorded response of a resolved service, and starts its append. */
    method LearnRecord(service: Option<string>, e: MockEntry) returns (task: (string, MockEntry))
      modifies this
      ensures fresh(current) && current.View() == Publish(old(current.View()), ServiceKey(service), e)
      ensures OnlyAdds(old(current.View()), current.View(), ServiceKey(service), e)
      ensures task == (ServiceKey(service), e)
    {
      PublishOnlyAdds(current.View(), ServiceKey(service), e);
      var next := current.WithEntry(ServiceKey(service), e);
      Swap(next);
      return (ServiceKey(service), e);
    }

    /** Publishes a mock injected over the admin interface, which names its service itself, and starts its append. */
    method HandleCreateMock(e: MockEntry) returns (task: (string, MockEntry))
      modifies this
      ensures var stored, service := AdminEntry(e), ServiceKey(e.serviceId);
        && stored.tenant != ""
        && fresh(current) && current.View() == Publish(old(current.View()), service, stored)
        && OnlyAdds(old(current.View()), current.View(), service, stored)
        && task == (service, stored)
    {
      var entry := e;
      if entry.tenant == "" { entry := entry.(tenant := GLOBAL_TENANT); }
      var service := ServiceKey(entry.serviceId);
      PublishOnlyAdds(current.View(), service, entry);
      var next := current.WithEntry(service, entry);
      Swap(next);
      return (service, entry);
    }

    method ReloadOneFile(disk: Disk, name: string, canWrite: bool)
      modifies this, disk
      ensures current.View() == Reloaded(old(current.View()), old(disk.files), name)
      ensures if IsMockFile(name) then FileLoaded(old(disk.files), disk.files, name, canWrite) else disk.files == old(disk.files)
    {
      if !IsMockFile(name) { return; }
      var segment := disk.LoadOneSegment(name, canWrite);
      var next := current.WithSegment(ServiceOf(name), segment);
      Swap(next);
    }

    method ReloadFull(disk: Disk, order: seq<string>, writable: set<string>)
      requires IsFullListing(disk.files, order)
      modifies this, disk
      ensures fresh(current) && current.View() == LoadAll(old(disk.files))
      ensures AllLoaded(old(disk.files), disk.files, writable)
    {
      var library := disk.LoadAllServiceMocks(order, writable);
      Swap(library);
    }
  }
}
