/**
 * Append-only logs of entries with keys: last-write-wins replay, files with one
 * line per key, and directories of such files.
 */
module Logs {

  /** A line of a file: white space only, not an entry, or an entry. */
  datatype LogLine<E> = Blank | Junk | Entry(entry: E)

  type Directory<E> = map<string, seq<LogLine<E>>>

  // ---------------------------------------------------------------- replay

  function ReplayBy<K(==), E(==)>(lines: seq<LogLine<E>>, keyOf: E -> K): (m: map<K, E>)
    ensures forall k :: k in m ==> keyOf(m[k]) == k && Entry(m[k]) in lines
  {
    if lines == [] then map[]
    else
      var n := |lines| - 1;
      var before := ReplayBy(lines[..n], keyOf);
      if lines[n].Entry? then before[keyOf(lines[n].entry) := lines[n].entry] else before
  }

  lemma ReplayAppend<K, E>(lines: seq<LogLine<E>>, keyOf: E -> K, e: E)
    ensures ReplayBy(lines + [Entry(e)], keyOf) == ReplayBy(lines, keyOf)[keyOf(e) := e]
  {
    assert (lines + [Entry(e)])[..|lines|] == lines;
  }

  lemma {:induction false} ReplayHasKeys<K, E>(lines: seq<LogLine<E>>, keyOf: E -> K, i: nat)
    requires i < |lines| && lines[i].Entry?
    ensures keyOf(lines[i].entry) in ReplayBy(lines, keyOf)
  {
    var n := |lines| - 1;
    if i < n { ReplayHasKeys(lines[..n], keyOf, i); }
  }

  /** The entry at `i` is the last one with this key. */
  ghost predicate LastEntry<K, E>(lines: seq<LogLine<E>>, keyOf: E -> K, key: K, i: int) {
    && 0 <= i < |lines| && lines[i].Entry? && keyOf(lines[i].entry) == key
    && forall j :: i < j < |lines| && lines[j].Entry? ==> keyOf(lines[j].entry) != key
  }

  lemma {:induction false} ReplayByIsLast<K, E>(lines: seq<LogLine<E>>, keyOf: E -> K, key: K)
    ensures key in ReplayBy(lines, keyOf) ==>
      exists i :: LastEntry(lines, keyOf, key, i) && ReplayBy(lines, keyOf)[key] == lines[i].entry
    ensures key !in ReplayBy(lines, keyOf) ==> forall i :: !LastEntry(lines, keyOf, key, i)
  {
    if lines != [] {
      var n := |lines| - 1;
      var before := lines[..n];
      ReplayByIsLast(before, keyOf, key);
      if lines[n].Entry? && keyOf(lines[n].entry) == key {
        assert LastEntry(lines, keyOf, key, n);
      } else {
        forall i ensures LastEntry(lines, keyOf, key, i) <==> LastEntry(before, keyOf, key, i) {
          LastEntryEarlier(lines, keyOf, key, i);
        }
      }
    }
  }

  lemma LastEntryEarlier<K, E>(lines: seq<LogLine<E>>, keyOf: E -> K, key: K, i: int)
    requires lines != [] && !(lines[|lines| - 1].Entry? && keyOf(lines[|lines| - 1].entry) == key)
    ensures LastEntry(lines, keyOf, key, i) <==> LastEntry(lines[..|lines| - 1], keyOf, key, i)
  {
    var n := |lines| - 1;
    assert forall j :: 0 <= j < n ==> lines[j] == lines[..n][j];
  }

  // ---------------------------------------------------------------- one line per key

  /** One entry line per key of the map, in any order, and nothing else. */
  ghost predicate OneLinePerKey<K, E>(lines: seq<LogLine<E>>, keyOf: E -> K, m: map<K, E>) {
    && (forall i :: 0 <= i < |lines| ==> IsLineOf(lines[i], keyOf, m))
    && (forall i, j :: 0 <= i < j < |lines| ==> lines[i] != lines[j])
    && (forall k :: k in m ==> Entry(m[k]) in lines)
  }

  predicate IsLineOf<K(==), E(==)>(line: LogLine<E>, keyOf: E -> K, m: map<K, E>) {
    line.Entry? && keyOf(line.entry) in m && m[keyOf(line.entry)] == line.entry
  }

  /** Entries are stored under their own keys. */
  ghost predicate KeyedBy<K, E>(keyOf: E -> K, m: map<K, E>) {
    forall k :: k in m ==> keyOf(m[k]) == k
  }

  /** Any file with one line per key replays to the map. */
  lemma ReplayCompacted<K, E>(lines: seq<LogLine<E>>, keyOf: E -> K, m: map<K, E>)
    requires OneLinePerKey(lines, keyOf, m) && KeyedBy(keyOf, m)
    ensures ReplayBy(lines, keyOf) == m
  {
    var r := ReplayBy(lines, keyOf);
    forall k | k in m ensures k in r {
      var i :| 0 <= i < |lines| && lines[i] == Entry(m[k]);
      ReplayHasKeys(lines, keyOf, i);
    }
    forall k | k in r ensures k in m && r[k] == m[k] {
      var i :| 0 <= i < |lines| && lines[i] == Entry(r[k]);
      assert IsLineOf(lines[i], keyOf, m);
    }
  }

  /** Writing out the values of a hash map, in any order. */
  method Compact<K(==), E(==)>(m: map<K, E>, ghost keyOf: E -> K) returns (lines: seq<LogLine<E>>)
    requires KeyedBy(keyOf, m)
    ensures OneLinePerKey(lines, keyOf, m)
  {
    lines := [];
    var todo := m.Keys;
    while todo != {}
      invariant todo <= m.Keys
      invariant forall i :: 0 <= i < |lines| ==> IsLineOf(lines[i], keyOf, m) && keyOf(lines[i].entry) !in todo
      invariant forall i, j :: 0 <= i < j < |lines| ==> lines[i] != lines[j]
      invariant forall k :: k in m && k !in todo ==> Entry(m[k]) in lines
    {
      var k :| k in todo;
      lines := lines + [Entry(m[k])];
      todo := todo - {k};
    }
  }

  // ---------------------------------------------------------------- directories

  function Content<E>(files: Directory<E>, name: string): seq<LogLine<E>> {
    if name in files then files[name] else []
  }

  /** One more line at the end of a file, which is created if it is missing. */
  function AppendedTo<E>(files: Directory<E>, name: string, e: E): Directory<E> {
    files[name := Content(files, name) + [Entry(e)]]
  }

  /** A directory listing: files that are there, each once. */
  ghost predicate IsListing<E>(files: Directory<E>, order: seq<string>) {
    && (forall i :: 0 <= i < |order| ==> order[i] in files)
    && forall i, j :: 0 <= i < j < |order| ==> order[i] != order[j]
  }

  /** A listing of the whole directory. */
  ghost predicate IsFullListing<E>(files: Directory<E>, order: seq<string>) {
    IsListing(files, order) && forall f :: f in files ==> f in order
  }
}
