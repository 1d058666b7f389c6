/**
 * The append-only log of captured resources: last-write-wins replay, the
 * compaction that a load performs, and the names of the files.
 */
module ResourceLog {
  import opened Logs
  import opened Resources

  type Key = (string, string)

  type Bucket = map<Key, ResourceState>

  type Services = map<string, Bucket>

  type Line = LogLine<ResourceState>

  type Files = Directory<ResourceState>

  function KeyOf(rs: ResourceState): Key { (rs.collection, rs.id) }

  // ---------------------------------------------------------------- replay

  function Replay(lines: seq<Line>): (bucket: Bucket)
    ensures forall k :: k in bucket ==> KeyOf(bucket[k]) == k && Entry(bucket[k]) in lines
  {
    ReplayBy(lines, KeyOf)
  }

  /** The resource at `i` is the last of the file with this collection and id. */
  ghost predicate LastOf(lines: seq<Line>, collection: string, id: string, i: int) {
    && 0 <= i < |lines| && lines[i].Entry? && lines[i].entry.collection == collection && lines[i].entry.id == id
    && forall j :: i < j < |lines| && lines[j].Entry? ==> lines[j].entry.collection != collection || lines[j].entry.id != id
  }

  /** A file replays to the last resource of each collection and id; lines that hold none play no part. */
  lemma ReplayIsLast(lines: seq<Line>, collection: string, id: string)
    ensures (collection, id) in Replay(lines) ==>
      exists i :: LastOf(lines, collection, id, i) && Replay(lines)[(collection, id)] == lines[i].entry
    ensures (collection, id) !in Replay(lines) ==> forall i :: !LastOf(lines, collection, id, i)
  {
    ReplayByIsLast(lines, KeyOf, (collection, id));
    if i :| LastEntry(lines, KeyOf, (collection, id), i) { assert LastOf(lines, collection, id, i); }
    if i :| LastOf(lines, collection, id, i) { assert LastEntry(lines, KeyOf, (collection, id), i); }
  }

  /** The lines that are not blank. */
  function WithText(lines: seq<Line>): seq<Line> {
    if lines == [] then []
    else
      var n := |lines| - 1;
      WithText(lines[..n]) + if lines[n].Blank? then [] else [lines[n]]
  }

  /** Blank lines go, all others stay in their order. */
  lemma WithTextAppend(lines: seq<Line>, line: Line)
    ensures WithText([]) == []
    ensures WithText(lines + [line]) == if line == Blank then WithText(lines) else WithText(lines) + [line]
  {
    assert (lines + [line])[..|lines|] == lines;
  }

  // ---------------------------------------------------------------- compaction

  lemma {:induction false} FewerKeysThanLines(lines: seq<Line>)
    ensures |Replay(lines)| <= |WithText(lines)|
  {
    if lines != [] {
      var n := |lines| - 1;
      FewerKeysThanLines(lines[..n]);
      if lines[n].Entry? { SizeOfUpdate(Replay(lines[..n]), KeyOf(lines[n].entry), lines[n].entry); }
    }
  }

  lemma SizeOfUpdate<K, V>(m: map<K, V>, k: K, v: V)
    ensures |m[k := v]| == if k in m then |m| else |m| + 1
  {
    assert m[k := v].Keys == m.Keys + {k};
    if k in m { assert m.Keys + {k} == m.Keys; }
    assert |m| == |m.Keys| && |m[k := v]| == |m[k := v].Keys|;
  }

  /** When there are as many keys as lines with text, each such line is the only one of its key. */
  lemma {:induction false} SkippedIsExact(lines: seq<Line>)
    requires |Replay(lines)| >= |WithText(lines)|
    ensures OneLinePerKey(WithText(lines), KeyOf, Replay(lines))
  {
    if lines != [] {
      var n := |lines| - 1;
      var before := Replay(lines[..n]);
      FewerKeysThanLines(lines[..n]);
      match lines[n] {
        case Blank => SkippedIsExact(lines[..n]);
        case Junk => assert false;
        case Entry(rs) =>
          SizeOfUpdate(before, KeyOf(rs), rs);
          SkippedIsExact(lines[..n]);
          OneLineMore(WithText(lines[..n]), before, rs);
      }
    }
  }

  lemma OneLineMore(lines: seq<Line>, bucket: Bucket, rs: ResourceState)
    requires OneLinePerKey(lines, KeyOf, bucket) && KeyOf(rs) !in bucket
    ensures OneLinePerKey(lines + [Entry(rs)], KeyOf, bucket[KeyOf(rs) := rs])
  {
    var more, b := lines + [Entry(rs)], bucket[KeyOf(rs) := rs];
    forall k | k in b ensures Entry(b[k]) in more {
      if k == KeyOf(rs) { assert more[|lines|] == Entry(b[k]); }
    }
    assert forall i :: 0 <= i < |lines| ==> IsLineOf(lines[i], KeyOf, bucket);
  }

  lemma {:induction false} TextOfExact(lines: seq<Line>, bucket: Bucket)
    requires forall i :: 0 <= i < |lines| ==> IsLineOf(lines[i], KeyOf, bucket)
    ensures WithText(lines) == lines
  {
    if lines != [] {
      var n := |lines| - 1;
      forall i | 0 <= i < n ensures IsLineOf(lines[..n][i], KeyOf, bucket) { assert lines[..n][i] == lines[i]; }
      TextOfExact(lines[..n], bucket);
      assert IsLineOf(lines[n], KeyOf, bucket);
      assert lines == lines[..n] + [lines[n]];
    }
  }

  lemma OneLineLess(lines: seq<Line>, bucket: Bucket, k: Key)
    requires OneLinePerKey(lines, KeyOf, bucket) && lines != [] && forall x :: x in bucket ==> KeyOf(bucket[x]) == x
    requires lines[|lines| - 1].Entry? && KeyOf(lines[|lines| - 1].entry) == k
    ensures OneLinePerKey(lines[..|lines| - 1], KeyOf, bucket - {k})
  {
    var n := |lines| - 1;
    var front, rest := lines[..n], bucket - {k};
    assert IsLineOf(lines[n], KeyOf, bucket);
    forall i | 0 <= i < n ensures IsLineOf(front[i], KeyOf, rest) {
      assert IsLineOf(lines[i], KeyOf, bucket) && lines[i] != lines[n];
    }
    forall x | x in rest ensures Entry(rest[x]) in front {
      var j :| 0 <= j < |lines| && lines[j] == Entry(bucket[x]);
      assert j != n;
      assert front[j] == lines[j];
    }
  }

  lemma {:induction false} ExactCount(lines: seq<Line>, bucket: Bucket)
    requires OneLinePerKey(lines, KeyOf, bucket) && forall k :: k in bucket ==> KeyOf(bucket[k]) == k
    ensures |bucket| == |lines|
    decreases |lines|
  {
    if lines == [] {
      assert forall k :: k in bucket ==> Entry(bucket[k]) in lines;
      assert bucket == map[];
    } else {
      var last := lines[|lines| - 1];
      assert IsLineOf(last, KeyOf, bucket);
      var k := KeyOf(last.entry);
      OneLineLess(lines, bucket, k);
      ExactCount(lines[..|lines| - 1], bucket - {k});
      assert (bucket - {k})[k := last.entry] == bucket;
      SizeOfUpdate(bucket - {k}, k, last.entry);
    }
  }

  /**
   * What a load does to a file: it is rewritten when it holds a resource, has
   * more lines with text than keys, and the write succeeds.
   */
  ghost predicate LoadRewrites(before: seq<Line>, after: seq<Line>, writable: bool) {
    var bucket := Replay(before);
    if bucket != map[] && |bucket| < |WithText(before)| && writable then OneLinePerKey(after, KeyOf, bucket)
    else after == before
  }

  /** A load never changes what a file replays to. */
  lemma LoadKeepsReplay(before: seq<Line>, after: seq<Line>, writable: bool)
    requires LoadRewrites(before, after, writable)
    ensures Replay(after) == Replay(before)
  {
    if after != before { ReplayCompacted(after, KeyOf, Replay(before)); }
  }

  /**
   * After a load that could write, a file with at least one resource has
   * exactly one line with text per key, whether it was rewritten or skipped;
   * and the next load leaves it alone.
   */
  lemma LoadCompactsExactly(before: seq<Line>, after: seq<Line>, again: seq<Line>, writable: bool)
    requires LoadRewrites(before, after, true) && Replay(before) != map[]
    requires LoadRewrites(after, again, writable)
    ensures OneLinePerKey(WithText(after), KeyOf, Replay(before))
    ensures again == after
  {
    LoadKeepsReplay(before, after, true);
    FewerKeysThanLines(before);
    if |Replay(before)| < |WithText(before)| {
      TextOfExact(after, Replay(before));
    } else {
      SkippedIsExact(before);
    }
    ExactCount(WithText(after), Replay(before));
  }

  // ---------------------------------------------------------------- file names

  const SUFFIX := ".jsonl"

  predicate IsLog(name: string) { |name| >= 6 && name[|name| - 6..] == SUFFIX }

  function FileOf(service: string): string { service + SUFFIX }

  /** `trim_end_matches(".jsonl")`: the suffix is removed as often as it is there. */
  function ServiceOf(name: string): string
    decreases |name|
  {
    if IsLog(name) then ServiceOf(name[..|name| - 6]) else name
  }

  /** The suffix `n` times. */
  ghost function Suffixes(n: nat): string { if n == 0 then "" else Suffixes(n - 1) + SUFFIX }

  lemma OneMoreSuffix(name: string, base: string, n: nat)
    requires IsLog(name) && name[..|name| - 6] == base + Suffixes(n)
    ensures name == base + Suffixes(n + 1)
  {
    assert name == name[..|name| - 6] + SUFFIX;
    assert base + Suffixes(n) + SUFFIX == base + (Suffixes(n) + SUFFIX);
  }

  /** What is removed from the name is the suffix, some number of times, and none is left. */
  lemma {:induction false} ServiceIsTrimmed(name: string)
    ensures !IsLog(ServiceOf(name)) && exists n :: name == ServiceOf(name) + Suffixes(n)
    decreases |name|
  {
    if IsLog(name) {
      var shorter := name[..|name| - 6];
      ServiceIsTrimmed(shorter);
      var n: nat :| shorter == ServiceOf(shorter) + Suffixes(n);
      OneMoreSuffix(name, ServiceOf(shorter), n);
    } else {
      assert name == ServiceOf(name) + Suffixes(0);
    }
  }

  lemma FileIsLog(service: string)
    ensures IsLog(FileOf(service)) && FileOf(service)[..|FileOf(service)| - 6] == service
  {
  }

  lemma {:induction false} ServiceIsNoLog(name: string)
    ensures !IsLog(ServiceOf(name))
    decreases |name|
  {
    if IsLog(name) { ServiceIsNoLog(name[..|name| - 6]); }
  }

  /** A service finds its file again exactly when its id does not end in the suffix itself. */
  lemma ServiceOfFile(service: string)
    ensures ServiceOf(FileOf(service)) == service <==> !IsLog(service)
  {
    FileIsLog(service);
    ServiceIsNoLog(FileOf(service));
  }

  function LogOf(files: Files, service: string): seq<Line> {
    Content(files, FileOf(service))
  }

  // ---------------------------------------------------------------- loading a directory

  predicate Loads(files: Files, f: string)
    requires f in files
  {
    IsLog(f) && Replay(files[f]) != map[]
  }

  /** What `start` becomes when the first `n` files of a directory listing are loaded into it. */
  function LoadedInto(start: Services, files: Files, order: seq<string>, n: nat): Services
    requires n <= |order| && forall i :: 0 <= i < |order| ==> order[i] in files
  {
    if n == 0 then start
    else
      var before, f := LoadedInto(start, files, order, n - 1), order[n - 1];
      if Loads(files, f) then before[ServiceOf(f) := Replay(files[f])] else before
  }

  /** One of the first `n` files loads service `s`. */
  predicate LoadedBy(files: Files, order: seq<string>, n: nat, s: string)
    requires n <= |order| && forall i :: 0 <= i < |order| ==> order[i] in files
  {
    exists i :: 0 <= i < n && Loads(files, order[i]) && ServiceOf(order[i]) == s
  }

  /** A log file with at least one resource. */
  ghost predicate HoldsResource(files: Files, f: string)
    requires f in files
  {
    |f| >= 6 && f[|f| - 6..] == ".jsonl" && exists i :: 0 <= i < |files[f]| && files[f][i].Entry?
  }

  lemma LoadsIff(files: Files, f: string)
    requires f in files
    ensures Loads(files, f) <==> HoldsResource(files, f)
  {
    if i :| 0 <= i < |files[f]| && files[f][i].Entry? { ReplayHasKeys(files[f], KeyOf, i); }
    if k :| k in Replay(files[f]) {
      var i :| 0 <= i < |files[f]| && files[f][i] == Entry(Replay(files[f])[k]);
      assert files[f][i].Entry?;
    }
  }

  /** The `i`-th file is the last of the first `n` that holds resources of this service. */
  ghost predicate LastLoaded(files: Files, order: seq<string>, n: nat, service: string, i: int)
    requires n <= |order| && forall i :: 0 <= i < |order| ==> order[i] in files
  {
    && 0 <= i < n && HoldsResource(files, order[i]) && ServiceOf(order[i]) == service
    && forall j :: i < j < n && HoldsResource(files, order[j]) ==> ServiceOf(order[j]) != service
  }

  /** A service is loaded from the last such file; a service without one is as before the load. */
  lemma {:induction false} LoadedIsLast(start: Services, files: Files, order: seq<string>, n: nat, service: string)
    requires n <= |order| && forall i :: 0 <= i < |order| ==> order[i] in files
    ensures var loaded := LoadedInto(start, files, order, n);
      || (exists i :: LastLoaded(files, order, n, service, i)
                      && service in loaded && loaded[service] == Replay(files[order[i]]))
      || ((forall i :: !LastLoaded(files, order, n, service, i))
          && (service in loaded <==> service in start) && (service in start ==> loaded[service] == start[service]))
  {
    if n > 0 {
      var f := order[n - 1];
      LoadedIsLast(start, files, order, n - 1, service);
      LoadsIff(files, f);
      if HoldsResource(files, f) && ServiceOf(f) == service {
        assert LastLoaded(files, order, n, service, n - 1);
      } else {
        forall i ensures LastLoaded(files, order, n, service, i) <==> LastLoaded(files, order, n - 1, service, i) {
          LastLoadedEarlier(files, order, n, service, i);
        }
      }
    }
  }

  lemma LastLoadedEarlier(files: Files, order: seq<string>, n: nat, service: string, i: int)
    requires 0 < n <= |order| && forall i :: 0 <= i < |order| ==> order[i] in files
    requires !(HoldsResource(files, order[n - 1]) && ServiceOf(order[n - 1]) == service)
    ensures LastLoaded(files, order, n, service, i) <==> LastLoaded(files, order, n - 1, service, i)
  {
  }
}
