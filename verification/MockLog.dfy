/**
 * The serving log of recorded mocks: one append-only file per service, replayed
 * last-write-wins and rewritten with one line per key whenever it is loaded.
 */
module MockLog {
  import opened Options
  import opened Entries
  import opened Logs

  /** Method, URI and tenant. */
  type MockKey = (string, string, string)

  type ServiceMocks = map<MockKey, MockEntry>

  /** Service names to mocks; a file fills in one service. */
  type Segment = map<string, ServiceMocks>

  type Library = map<string, Segment>

  type Line = LogLine<MockEntry>

  type Files = Directory<MockEntry>

  function KeyOf(e: MockEntry): MockKey { (e.request.httpMethod, e.request.uri, e.tenant) }

  ghost predicate Keyed(mocks: ServiceMocks) { KeyedBy(KeyOf, mocks) }

  // ---------------------------------------------------------------- replay and compaction

  function MapOf(lines: seq<Line>): (mocks: ServiceMocks)
    ensures Keyed(mocks)
    ensures forall k :: k in mocks ==> Entry(mocks[k]) in lines
  {
    ReplayBy(lines, KeyOf)
  }

  function LinesOf(entries: seq<MockEntry>): (lines: seq<Line>)
    ensures |lines| == |entries| && forall i :: 0 <= i < |lines| ==> lines[i] == Entry(entries[i])
  {
    seq(|entries|, i requires 0 <= i < |entries| => Entry(entries[i]))
  }

  /** The values of the map, each once, in any order: what its compacted file would hold. */
  ghost predicate Lists(entries: seq<MockEntry>, mocks: ServiceMocks) {
    OneLinePerKey(LinesOf(entries), KeyOf, mocks)
  }

  /** The same in terms of the entries. */
  lemma ListsIff(entries: seq<MockEntry>, mocks: ServiceMocks)
    ensures Lists(entries, mocks) <==>
      && (forall i :: 0 <= i < |entries| ==> KeyOf(entries[i]) in mocks && mocks[KeyOf(entries[i])] == entries[i])
      && (forall i, j :: 0 <= i < j < |entries| ==> entries[i] != entries[j])
      && (forall k :: k in mocks ==> mocks[k] in entries)
  {
    var lines := LinesOf(entries);
    assert forall i :: 0 <= i < |entries| ==>
      (IsLineOf(lines[i], KeyOf, mocks) <==> KeyOf(entries[i]) in mocks && mocks[KeyOf(entries[i])] == entries[i]);
    forall k | k in mocks ensures mocks[k] in entries <==> Entry(mocks[k]) in lines {
      if mocks[k] in entries {
        var i :| 0 <= i < |entries| && entries[i] == mocks[k];
        assert lines[i] == Entry(mocks[k]);
      }
    }
  }

  /** What loading does to a file: unless it holds no mock or the write fails, it is rewritten. */
  ghost predicate LoadRewrites(before: seq<Line>, after: seq<Line>, writable: bool) {
    if MapOf(before) != map[] && writable then OneLinePerKey(after, KeyOf, MapOf(before)) else after == before
  }

  lemma LoadKeepsMap(before: seq<Line>, after: seq<Line>, writable: bool)
    requires LoadRewrites(before, after, writable)
    ensures MapOf(after) == MapOf(before)
  {
    if MapOf(before) != map[] && writable { ReplayCompacted(after, KeyOf, MapOf(before)); }
  }

  /** The mock at `i` is the last one of the file with this method, URI and tenant. */
  ghost predicate LastOf(lines: seq<Line>, httpMethod: string, uri: string, tenant: string, i: int) {
    && 0 <= i < |lines| && HasFields(lines[i], httpMethod, uri, tenant)
    && forall j :: i < j < |lines| ==> !HasFields(lines[j], httpMethod, uri, tenant)
  }

  ghost predicate HasFields(line: Line, httpMethod: string, uri: string, tenant: string) {
    && line.Entry? && line.entry.request.httpMethod == httpMethod && line.entry.request.uri == uri
    && line.entry.tenant == tenant
  }

  /** A file replays to the last mock of each method, URI and tenant. */
  lemma MapIsLast(lines: seq<Line>, httpMethod: string, uri: string, tenant: string)
    ensures var key := (httpMethod, uri, tenant);
      if key in MapOf(lines) then exists i :: LastOf(lines, httpMethod, uri, tenant, i) && MapOf(lines)[key] == lines[i].entry
      else forall i :: !LastOf(lines, httpMethod, uri, tenant, i)
  {
    var key := (httpMethod, uri, tenant);
    ReplayByIsLast(lines, KeyOf, key);
    forall i ensures LastEntry(lines, KeyOf, key, i) <==> LastOf(lines, httpMethod, uri, tenant, i) {
    }
  }

  // ---------------------------------------------------------------- file names

  const PREFIX := "mock_"

  const SUFFIX := ".jsonl"

  function FileOf(service: string): string { PREFIX + service + SUFFIX }

  predicate IsMockFile(name: string) {
    |name| >= 6 && name[..5] == PREFIX && name[|name| - 6..] == SUFFIX
  }

  /** Prefix and suffix cannot overlap. */
  lemma LongEnough(name: string)
    requires IsMockFile(name)
    ensures |name| >= 11
  {
    assert forall i :: 0 <= i < 5 ==> name[i] == PREFIX[i] && PREFIX[i] != '.';
    assert name[|name| - 6] == name[|name| - 6..][0] == '.';
  }

  function ServiceOf(name: string): (service: string)
    requires IsMockFile(name)
    ensures |service| + 11 == |name|
  {
    LongEnough(name);
    name[5..|name| - 6]
  }

  /** Services and mock files correspond one to one. */
  lemma FileNames(service: string, name: string)
    ensures IsMockFile(FileOf(service)) && ServiceOf(FileOf(service)) == service
    ensures IsMockFile(name) ==> FileOf(ServiceOf(name)) == name
  {
    var f := FileOf(service);
    assert f[..5] == PREFIX && f[|f| - 6..] == SUFFIX && f[5..|f| - 6] == service;
    if IsMockFile(name) {
      var s := ServiceOf(name);
      assert name == name[..5] + name[5..|name| - 6] + name[|name| - 6..];
    }
  }

  // ---------------------------------------------------------------- a directory

  function LogOf(files: Files, service: string): seq<Line> {
    Content(files, FileOf(service))
  }

  /** What loading a service's file gives: nothing when it is missing or holds no mock. */
  function SegmentOf(files: Files, service: string): Option<Segment> {
    var mocks := MapOf(LogOf(files, service));
    if mocks == map[] then None else Some(map[service := mocks])
  }

  function LoadedNames(files: Files): set<string> {
    set f | f in files && IsMockFile(f) && MapOf(files[f]) != map[] :: ServiceOf(f)
  }

  /** The library that a full load of the directory gives. */
  function LoadAll(files: Files): Library {
    map s | s in LoadedNames(files) :: map[s := MapOf(LogOf(files, s))]
  }

  function At(library: Library, name: string): Option<Segment> {
    if name in library then Some(library[name]) else None
  }

  /** A full load is the load of each file on its own. */
  lemma LoadAllAt(files: Files, service: string)
    ensures At(LoadAll(files), service) == SegmentOf(files, service)
  {
    FileNames(service, "");
    if service in LoadedNames(files) {
      var f :| f in files && IsMockFile(f) && MapOf(files[f]) != map[] && ServiceOf(f) == service;
      FileNames(service, f);
    } else if FileOf(service) in files {
      assert MapOf(files[FileOf(service)]) == map[];
    }
  }

  lemma SameAtEveryName(a: Library, b: Library)
    requires forall s :: At(a, s) == At(b, s)
    ensures a == b
  {
    forall s ensures (s in a <==> s in b) && (s in a ==> a[s] == b[s]) { assert At(a, s) == At(b, s); }
  }
}
