/**
 * Smart swap: the last recorded request of the same shape is served with the
 * values that changed in the request also changed in the response.
 */
module SmartSwap {
  import opened Options
  import opened Text
  import opened UriCanonical
  import opened PathShape
  import opened WordBoundary
  import opened Entries
  import Json

  /** The JSON reader and printer and the Unicode tables, which are not modelled. */
  datatype Runtime = Runtime(
    parse: string -> Option<Json.Value>, render: Json.Value -> string, alphanumeric: char -> bool)

  /** A tree that was read can be printed and read again, also after strings in it were replaced. */
  ghost predicate ReadsBack(rt: Runtime) {
    forall text, subs :: rt.parse(text).Some? ==>
      var v := Json.Substitute(rt.parse(text).value, subs);
      rt.parse(rt.render(v)) == Some(v)
  }

  // ---------------------------------------------------------------- the recorded request

  predicate Similar(rt: Runtime, m: MockEntry, httpMethod: string, uri: string) {
    m.request.httpMethod == httpMethod && (m.request.uri == uri || PathsMatch(m.request.uri, uri, rt.alphanumeric))
  }

  /** The last similar entry. */
  function Recorded(rt: Runtime, mocks: seq<MockEntry>, httpMethod: string, uri: string): (found: Option<MockEntry>)
    ensures found.Some? ==> found.value in mocks && Similar(rt, found.value, httpMethod, uri)
    ensures found.None? ==> forall i :: 0 <= i < |mocks| ==> !Similar(rt, mocks[i], httpMethod, uri)
  {
    if mocks == [] then None
    else
      var n := |mocks| - 1;
      if Similar(rt, mocks[n], httpMethod, uri) then Some(mocks[n])
      else Recorded(rt, mocks[..n], httpMethod, uri)
  }

  /** The entry at `i` has the method, and the URI or the shape of the path; and no later one has. */
  ghost predicate LastSimilar(rt: Runtime, mocks: seq<MockEntry>, httpMethod: string, uri: string, i: int) {
    && 0 <= i < |mocks|
    && mocks[i].request.httpMethod == httpMethod
    && (mocks[i].request.uri == uri || PathsMatch(mocks[i].request.uri, uri, rt.alphanumeric))
    && forall j :: i < j < |mocks| ==>
         mocks[j].request.httpMethod != httpMethod
         || (mocks[j].request.uri != uri && !PathsMatch(mocks[j].request.uri, uri, rt.alphanumeric))
  }

  /** The entry found is the last similar one; nothing is found only when there is none. */
  lemma {:induction false} RecordedIsLast(rt: Runtime, mocks: seq<MockEntry>, httpMethod: string, uri: string)
    ensures var found := Recorded(rt, mocks, httpMethod, uri);
      if found.Some? then exists i :: LastSimilar(rt, mocks, httpMethod, uri, i) && mocks[i] == found.value
      else forall i :: !LastSimilar(rt, mocks, httpMethod, uri, i)
  {
    if mocks != [] {
      var n := |mocks| - 1;
      if Similar(rt, mocks[n], httpMethod, uri) {
        assert LastSimilar(rt, mocks, httpMethod, uri, n);
      } else {
        RecordedIsLast(rt, mocks[..n], httpMethod, uri);
        forall i ensures LastSimilar(rt, mocks, httpMethod, uri, i) <==> LastSimilar(rt, mocks[..n], httpMethod, uri, i) {
          LastEarlier(rt, mocks, httpMethod, uri, i);
        }
      }
    }
  }

  lemma LastEarlier(rt: Runtime, mocks: seq<MockEntry>, httpMethod: string, uri: string, i: int)
    requires mocks != [] && !Similar(rt, mocks[|mocks| - 1], httpMethod, uri)
    ensures LastSimilar(rt, mocks, httpMethod, uri, i) <==> LastSimilar(rt, mocks[..|mocks| - 1], httpMethod, uri, i)
  {
    var n := |mocks| - 1;
    assert forall j :: 0 <= j < n ==> mocks[j] == mocks[..n][j];
  }

  // ---------------------------------------------------------------- changed values

  /** `parse_query`: the last value of each key. */
  function QueryMap(query: string): map<string, string> {
    if query == "" then map[] else LastValues(ParseQuery(query))
  }

  function LastValues(ps: seq<Param>): map<string, string> {
    if ps == [] then map[] else var n := |ps| - 1; LastValues(ps[..n])[ps[n].key := ps[n].value]
  }

  /** The map holds for each key of the query the last of its values. */
  lemma {:induction false} LastValuesAre(ps: seq<Param>, key: string)
    ensures key in LastValues(ps) <==> ValuesFor(ps, key) != []
    ensures key in LastValues(ps) ==> LastValues(ps)[key] == ValuesFor(ps, key)[|ValuesFor(ps, key)| - 1]
  {
    if ps != [] {
      var n := |ps| - 1;
      LastValuesAre(ps[..n], key);
      ValuesForSnoc(ps[..n], ps[n], key);
      assert ps == ps[..n] + [ps[n]];
    }
  }

  lemma {:induction false} ValuesForSnoc(ps: seq<Param>, p: Param, key: string)
    ensures ValuesFor(ps + [p], key) == ValuesFor(ps, key) + if p.key == key then [p.value] else []
  {
    if ps == [] {
      assert ps + [p] == [p] && [p][1..] == [];
    } else {
      assert (ps + [p])[1..] == ps[1..] + [p];
      ValuesForSnoc(ps[1..], p, key);
    }
  }

  /** An empty query has no keys; any other has those of its pieces. */
  lemma QueryMapIs(query: string, key: string)
    ensures key in QueryMap(query) <==> query != "" && ValuesFor(ParseQuery(query), key) != []
    ensures key in QueryMap(query) ==>
      QueryMap(query)[key] == ValuesFor(ParseQuery(query), key)[|ValuesFor(ParseQuery(query), key)| - 1]
  {
    if query != "" { LastValuesAre(ParseQuery(query), key); }
  }

  function QueryPart(uri: string): string { if HasQuery(uri) then QueryOf(uri) else "" }

  ghost predicate PathChange(recorded: string, uri: string, from: string, to: string) {
    SegmentChange(PathSegments(recorded), PathSegments(uri), from, to)
  }

  ghost predicate SegmentChange(r: seq<string>, i: seq<string>, from: string, to: string) {
    exists k :: 0 <= k < |r| && k < |i| && r[k] == from && i[k] == to && from != to
  }

  ghost predicate QueryChange(recorded: string, uri: string, from: string, to: string) {
    var r, i := QueryMap(QueryPart(recorded)), QueryMap(QueryPart(uri));
    exists key :: key in r && key in i && r[key] == from && i[key] == to && from != to
  }

  /** The URI has a query that is not empty, and `value` is the last one it gives for the key. */
  ghost predicate LastGiven(uri: string, key: string, value: string) {
    && HasQuery(uri) && QueryOf(uri) != ""
    && var values := ValuesFor(ParseQuery(QueryOf(uri)), key);
    && values != [] && values[|values| - 1] == value
  }

  lemma LastGivenIff(uri: string, key: string, value: string)
    ensures LastGiven(uri, key, value) <==>
      key in QueryMap(QueryPart(uri)) && QueryMap(QueryPart(uri))[key] == value
  {
    QueryMapIs(QueryPart(uri), key);
  }

  /** A key of both queries whose last value changed. */
  lemma QueryChangeIff(recorded: string, uri: string, from: string, to: string)
    ensures QueryChange(recorded, uri, from, to) <==>
      from != to && exists key :: LastGiven(recorded, key, from) && LastGiven(uri, key, to)
  {
    forall key { LastGivenIff(recorded, key, from); }
    forall key { LastGivenIff(uri, key, to); }
  }

  /** The differences of the two bodies, when both are JSON and not equal as text. */
  function BodyDiff(rt: Runtime, recorded: string, body: string): seq<(string, string)> {
    if recorded == "" || body == "" || recorded == body then []
    else
      var r, i := rt.parse(recorded), rt.parse(body);
      if r.Some? && i.Some? then Json.Diff(r.value, i.value) else []
  }

  /** Both bodies are JSON, and one path leads to `from` in the recorded one and to `to` in the other. */
  lemma BodyDiffIff(rt: Runtime, recorded: string, body: string, from: string, to: string)
    requires rt.parse(recorded).Some? ==> Json.UniqueKeys(rt.parse(recorded).value)
    ensures (from, to) in BodyDiff(rt, recorded, body) <==>
      && from != to && recorded != "" && body != "" && rt.parse(recorded).Some? && rt.parse(body).Some?
      && exists path :: Json.MeetAt(rt.parse(recorded).value, rt.parse(body).value, path, (from, to))
  {
    if rt.parse(recorded).Some? && rt.parse(body).Some? {
      Json.DiffIff(rt.parse(recorded).value, rt.parse(body).value, (from, to));
    }
  }

  /** Somewhere in the request, `from` was recorded and `to` came in. */
  ghost predicate ChangedTo(rt: Runtime, m: MockRequest, uri: string, body: string, from: string, to: string) {
    PathChange(m.uri, uri, from, to) || QueryChange(m.uri, uri, from, to) || (from, to) in BodyDiff(rt, m.body, body)
  }

  /** Substitutions are changed values with evidence in the response, and all of those are there. */
  ghost predicate Evidenced(rt: Runtime, m: MockEntry, uri: string, body: string, subs: map<string, string>) {
    && (forall k :: k in subs ==> Contains(m.response.body, k) && ChangedTo(rt, m.request, uri, body, k, subs[k]))
    && (forall from, to :: ChangedTo(rt, m.request, uri, body, from, to) && Contains(m.response.body, from) ==> from in subs)
  }

  predicate StaticChange(r: string, i: string, alphanumeric: char -> bool) {
    r != i && !IsDynamicSegment(r, alphanumeric) && !IsDynamicSegment(i, alphanumeric)
  }

  /** No static segment differs. */
  ghost predicate NoStaticChange(r: seq<string>, i: seq<string>, alphanumeric: char -> bool)
    requires |r| == |i|
  {
    forall k :: 0 <= k < |r| ==> !StaticChange(r[k], i[k], alphanumeric)
  }

  /** The path loop; `safe` is false when a static segment changed. */
  method PathSubstitutions(rt: Runtime, r: seq<string>, i: seq<string>, response: string)
    returns (safe: bool, subs: map<string, string>)
    requires |r| == |i|
    ensures safe <==> NoStaticChange(r, i, rt.alphanumeric)
    ensures safe ==> forall k :: k in subs ==> Contains(response, k) && SegmentChange(r, i, k, subs[k])
    ensures safe ==> forall f, t :: SegmentChange(r, i, f, t) && Contains(response, f) ==> f in subs
  {
    subs := map[];
    for n := 0 to |r|
      invariant forall k :: 0 <= k < n ==> !StaticChange(r[k], i[k], rt.alphanumeric)
      invariant forall k :: k in subs ==> Contains(response, k) && SegmentChange(r, i, k, subs[k])
      invariant forall k :: 0 <= k < n && r[k] != i[k] && Contains(response, r[k]) ==> r[k] in subs
    {
      if r[n] != i[n] {
        if StaticChange(r[n], i[n], rt.alphanumeric) {
          return false, subs;
        }
        if Contains(response, r[n]) {
          subs := subs[r[n] := i[n]];
        }
      }
    }
    safe := true;
  }

  /** The query loop, over the keys of a hash map in any order. */
  method QuerySubstitutions(recorded: string, uri: string, response: string, before: map<string, string>)
    returns (subs: map<string, string>)
    ensures forall k :: k in subs ==>
      (k in before && subs[k] == before[k]) || (Contains(response, k) && QueryChange(recorded, uri, k, subs[k]))
    ensures forall k :: k in before ==> k in subs
    ensures forall f, t :: QueryChange(recorded, uri, f, t) && Contains(response, f) ==> f in subs
  {
    subs := before;
    var r, i := QueryMap(QueryPart(recorded)), QueryMap(QueryPart(uri));
    var todo := r.Keys;
    while todo != {}
      invariant todo <= r.Keys
      invariant forall k :: k in subs ==>
        (k in before && subs[k] == before[k]) || (Contains(response, k) && QueryChange(recorded, uri, k, subs[k]))
      invariant forall k :: k in before ==> k in subs
      invariant forall key :: key in r && key !in todo && key in i && r[key] != i[key] && Contains(response, r[key])
                  ==> r[key] in subs
    {
      var key :| key in todo;
      todo := todo - {key};
      if key in i && r[key] != i[key] && Contains(response, r[key]) {
        assert QueryChange(recorded, uri, r[key], i[key]);
        subs := subs[r[key] := i[key]];
      }
    }
  }

  method BodySubstitutions(rt: Runtime, recorded: string, body: string, response: string, before: map<string, string>)
    returns (subs: map<string, string>)
    ensures forall k :: k in subs ==>
      (k in before && subs[k] == before[k]) || (Contains(response, k) && (k, subs[k]) in BodyDiff(rt, recorded, body))
    ensures forall k :: k in before ==> k in subs
    ensures forall p :: p in BodyDiff(rt, recorded, body) && Contains(response, p.0) ==> p.0 in subs
  {
    subs := before;
    var diffs: seq<(string, string)> := [];
    if recorded != "" && body != "" && recorded != body {
      var r, i := rt.parse(recorded), rt.parse(body);
      if r.Some? && i.Some? {
        diffs := Json.CollectValueDiffs(r.value, i.value, []);
      }
    }
    assert diffs == BodyDiff(rt, recorded, body);
    for n := 0 to |diffs|
      invariant forall k :: k in subs ==>
        (k in before && subs[k] == before[k]) || (Contains(response, k) && (k, subs[k]) in diffs)
      invariant forall k :: k in before ==> k in subs
      invariant forall m :: 0 <= m < n && Contains(response, diffs[m].0) ==> diffs[m].0 in subs
    {
      if Contains(response, diffs[n].0) {
        assert diffs[n] in diffs;
        subs := subs[diffs[n].0 := diffs[n].1];
      }
    }
  }

  // ---------------------------------------------------------------- applying substitutions

  /** No key twice and none before a longer one. */
  ghost predicate Descending(order: seq<string>) {
    forall i, j :: 0 <= i < j < |order| ==> order[i] != order[j] && ByteLen(order[i]) >= ByteLen(order[j])
  }

  /** The pairs sorted by the length of the key in bytes, longest first. */
  ghost predicate SortedKeys(order: seq<string>, subs: map<string, string>) {
    (forall k :: k in order <==> k in subs) && Descending(order)
  }

  lemma {:induction false} LongestExists(keys: set<string>) returns (top: string)
    requires keys != {}
    ensures top in keys && forall k :: k in keys ==> ByteLen(k) <= ByteLen(top)
    decreases |keys|
  {
    var k :| k in keys;
    top := k;
    if keys != {k} {
      assert keys - {k} != {};
      var t := LongestExists(keys - {k});
      if ByteLen(k) < ByteLen(t) { top := t; }
    }
  }

  lemma DescendingAppend(order: seq<string>, k: string)
    requires Descending(order) && k !in order && forall x :: x in order ==> ByteLen(x) >= ByteLen(k)
    ensures Descending(order + [k])
  {
    assert forall i :: 0 <= i < |order| ==> order[i] in order;
  }

  /** Collecting a hash map in any order and sorting it; ties stay as they came. */
  method SortKeys(subs: map<string, string>) returns (order: seq<string>)
    ensures SortedKeys(order, subs)
  {
    order := [];
    var todo := subs.Keys;
    while todo != {}
      invariant todo <= subs.Keys
      invariant forall k :: k in order <==> k in subs && k !in todo
      invariant Descending(order)
      invariant forall x, k :: x in order && k in todo ==> ByteLen(k) <= ByteLen(x)
    {
      ghost var top := LongestExists(todo);
      var k :| k in todo && forall x :: x in todo ==> ByteLen(x) <= ByteLen(k);
      DescendingAppend(order, k);
      order := order + [k];
      todo := todo - {k};
    }
  }

  /** The served body, for one order of the sorted pairs. */
  function Applied(rt: Runtime, body: string, subs: map<string, string>, order: seq<string>): string
    requires forall k :: k in order ==> k in subs
  {
    if subs == map[] then body
    else
      var parsed := rt.parse(body);
      if parsed.Some? then rt.render(Json.Substitute(parsed.value, subs))
      else ReplacedInOrder(body, subs, order, 0)
  }

  method ApplySubstitutions(rt: Runtime, body: string, subs: map<string, string>) returns (result: string)
    ensures exists order :: SortedKeys(order, subs) && result == Applied(rt, body, subs, order)
  {
    var pairs := SortKeys(subs);
    var parsed := rt.parse(body);
    if subs == map[] {
      result := body;
    } else if parsed.Some? {
      result := rt.render(Json.Substitute(parsed.value, subs));
    } else {
      result := body;
      for i := 0 to |pairs|
        invariant ReplacedInOrder(result, subs, pairs, i) == ReplacedInOrder(body, subs, pairs, 0)
      {
        assert pairs[i] in pairs;
        result := ReplaceAtWordBoundary(result, pairs[i], subs[pairs[i]]);
      }
    }
    assert result == Applied(rt, body, subs, pairs);
  }

  // ---------------------------------------------------------------- the whole swap

  /** The recorded request is the incoming one. */
  predicate SameRequest(m: MockEntry, uri: string, body: string) {
    m.request.uri == uri && m.request.body == body
  }

  /** The checks on segment count and static segments cannot fail for a similar entry. */
  lemma BailOutsUnreachable(rt: Runtime, m: MockEntry, httpMethod: string, uri: string)
    requires Similar(rt, m, httpMethod, uri)
    ensures |PathSegments(m.request.uri)| == |PathSegments(uri)|
    ensures NoStaticChange(PathSegments(m.request.uri), PathSegments(uri), rt.alphanumeric)
  {
    var r, i := PathSegments(m.request.uri), PathSegments(uri);
    forall k | 0 <= k < |r| && k < |i| ensures !StaticChange(r[k], i[k], rt.alphanumeric) {
      if m.request.uri != uri { assert SegmentsMatch(r[k], i[k], rt.alphanumeric); }
    }
  }

  /** Everything but the response body is the recorded entry's. */
  function WithBody(m: MockEntry, body: string): MockEntry {
    m.(response := m.response.(body := body))
  }

  /** The three loops that fill the substitution map. */
  method Substitutions(rt: Runtime, m: MockEntry, uri: string, body: string)
    returns (safe: bool, subs: map<string, string>)
    requires |PathSegments(m.request.uri)| == |PathSegments(uri)|
    ensures safe <==> NoStaticChange(PathSegments(m.request.uri), PathSegments(uri), rt.alphanumeric)
    ensures safe ==> Evidenced(rt, m, uri, body, subs)
  {
    var response := m.response.body;
    safe, subs := PathSubstitutions(rt, PathSegments(m.request.uri), PathSegments(uri), response);
    subs := QuerySubstitutions(m.request.uri, uri, response, subs);
    subs := BodySubstitutions(rt, m.request.body, body, response, subs);
  }

  /**
   * The result for the recorded entry: nothing when nothing changed and the
   * request differs, else the entry with its body substituted.
   */
  ghost predicate IsSwap(
    rt: Runtime, m: MockEntry, uri: string, body: string, result: Option<MockEntry>,
    subs: map<string, string>, order: seq<string>)
  {
    && Evidenced(rt, m, uri, body, subs)
    && SortedKeys(order, subs)
    && result == if subs == map[] && !SameRequest(m, uri, body) then None
                 else Some(WithBody(m, Applied(rt, m.response.body, subs, order)))
  }

  /** Only the body differs; and between paths of plain words, without digits, the entry is one of the same path. */
  ghost predicate ServedFrom(m: MockEntry, uri: string, served: MockEntry) {
    && served == m.(response := m.response.(body := served.response.body))
    && (Plain(m.request.uri) && Plain(uri) ==> PathOf(m.request.uri) == PathOf(uri))
  }

  lemma PlainIsSame(rt: Runtime, m: MockEntry, httpMethod: string, uri: string)
    requires Similar(rt, m, httpMethod, uri)
    ensures Plain(m.request.uri) && Plain(uri) ==> PathOf(m.request.uri) == PathOf(uri)
  {
    if Plain(m.request.uri) && Plain(uri) { PlainPathsMatch(m.request.uri, uri, rt.alphanumeric); }
  }

  method FindSmartSwap(rt: Runtime, mocks: seq<MockEntry>, httpMethod: string, uri: string, body: string)
    returns (result: Option<MockEntry>)
    ensures var recorded := Recorded(rt, mocks, httpMethod, uri);
      if recorded.None? then result.None?
      else exists subs, order :: IsSwap(rt, recorded.value, uri, body, result, subs, order)
    ensures result.Some? ==> exists i :: LastSimilar(rt, mocks, httpMethod, uri, i) && ServedFrom(mocks[i], uri, result.value)
    ensures (forall i :: !LastSimilar(rt, mocks, httpMethod, uri, i)) ==> result.None?
  {
    RecordedIsLast(rt, mocks, httpMethod, uri);
    var recorded := Recorded(rt, mocks, httpMethod, uri);
    if recorded.None? { return None; }
    var m := recorded.value;
    BailOutsUnreachable(rt, m, httpMethod, uri);
    var safe, subs := Substitutions(rt, m, uri, body);
    var served := ApplySubstitutions(rt, m.response.body, subs);
    ghost var order :| SortedKeys(order, subs) && served == Applied(rt, m.response.body, subs, order);
    var nothing := subs == map[] && (m.request.uri != uri || m.request.body != body);
    result := if safe && !nothing then Some(WithBody(m, served)) else None;
    assert IsSwap(rt, m, uri, body, result, subs, order);
    if result.Some? {
      ghost var i :| LastSimilar(rt, mocks, httpMethod, uri, i) && mocks[i] == m;
      PlainIsSame(rt, m, httpMethod, uri);
      assert ServedFrom(mocks[i], uri, result.value);
    }
  }

  /** An identical request has nothing to swap. */
  lemma IdenticalHasNoChange(rt: Runtime, m: MockEntry, uri: string, body: string, subs: map<string, string>)
    requires SameRequest(m, uri, body) && Evidenced(rt, m, uri, body, subs)
    ensures subs == map[]
  {
    assert forall from, to :: !ChangedTo(rt, m.request, uri, body, from, to);
  }

  /** A changed value was really changed. */
  lemma {:induction false} DiffChanges(a: Json.Value, b: Json.Value)
    ensures forall p :: p in Json.Diff(a, b) ==> p.0 != p.1
    decreases a
  {
    match (a, b) {
      case (Arr(x), Arr(y)) => DiffItemsChanges(x, y);
      case (Obj(x), Obj(y)) => DiffFieldsChanges(x, y);
      case _ =>
    }
  }

  lemma {:induction false} DiffItemsChanges(a: Json.Items, b: Json.Items)
    ensures forall p :: p in Json.DiffItems(a, b) ==> p.0 != p.1
    decreases a
  {
    if a.Item? && b.Item? {
      DiffChanges(a.head, b.head);
      DiffItemsChanges(a.tail, b.tail);
    }
  }

  lemma {:induction false} DiffFieldsChanges(a: Json.Fields, b: Json.Fields)
    ensures forall p :: p in Json.DiffFields(a, b) ==> p.0 != p.1
    decreases a
  {
    if a.Field? {
      var other := Json.Get(b, a.key);
      if other.Some? { DiffChanges(a.value, other.value); }
      DiffFieldsChanges(a.rest, b);
    }
  }

  /**
   * Swapping is safe for JSON responses: the served body reads back as a tree
   * of the recorded shape; a leaf that differs was, as a whole, a value that
   * changed in the request, and became its incoming counterpart; a leaf that is
   * a key of the substitutions never stays; an identical request gets the
   * recorded text.
   */
  lemma SwapIsSafe(rt: Runtime, m: MockEntry, uri: string, body: string, subs: map<string, string>, order: seq<string>)
    requires ReadsBack(rt) && Evidenced(rt, m, uri, body, subs) && SortedKeys(order, subs)
    requires rt.parse(m.response.body).Some?
    ensures SameRequest(m, uri, body) ==> Applied(rt, m.response.body, subs, order) == m.response.body
    ensures var recorded, served := rt.parse(m.response.body).value, rt.parse(Applied(rt, m.response.body, subs, order));
      && served.Some? && Json.SameShape(recorded, served.value)
      && forall p :: p in Json.Leaves(recorded, served.value) ==>
           if p.0 in subs then ChangedTo(rt, m.request, uri, body, p.0, p.1) && p.0 != p.1 else p.0 == p.1
  {
    if SameRequest(m, uri, body) { IdenticalHasNoChange(rt, m, uri, body, subs); }
    var recorded := rt.parse(m.response.body).value;
    Json.SubstituteKeepsShape(recorded, subs);
    Json.SubstituteKeepsShape(recorded, map[]);
    SubstituteNothing(recorded);
    forall k | k in subs ensures ChangedTo(rt, m.request, uri, body, k, subs[k]) && k != subs[k] {
      var r, i := rt.parse(m.request.body), rt.parse(body);
      if r.Some? && i.Some? { DiffChanges(r.value, i.value); }
    }
  }

  lemma SubstituteNothing(v: Json.Value)
    ensures Json.Substitute(v, map[]) == v
  {
    Json.SubstituteKeepsShape(v, map[]);
    LeavesOfSelf(v);
    Json.SubstituteGives(v, v, map[]);
  }

  lemma {:induction false} LeavesOfSelf(v: Json.Value)
    ensures Json.SameShape(v, v) && forall p :: p in Json.Leaves(v, v) ==> p.0 == p.1
    decreases v
  {
    match v {
      case Arr(items) => ItemsOfSelf(items);
      case Obj(fields) => FieldsOfSelf(fields);
      case _ =>
    }
  }

  lemma {:induction false} ItemsOfSelf(items: Json.Items)
    ensures Json.SameItems(items, items) && forall p :: p in Json.LeavesItems(items, items) ==> p.0 == p.1
    decreases items
  {
    if items.Item? {
      LeavesOfSelf(items.head);
      ItemsOfSelf(items.tail);
    }
  }

  lemma {:induction false} FieldsOfSelf(fields: Json.Fields)
    ensures Json.SameFields(fields, fields) && forall p :: p in Json.LeavesFields(fields, fields) ==> p.0 == p.1
    decreases fields
  {
    if fields.Field? {
      LeavesOfSelf(fields.value);
      FieldsOfSelf(fields.rest);
    }
  }

  /**
   * Plain-text responses whose substitutions are identifiers: the served text
   * is the simultaneous token substitution, in whatever order ties came,
   * unless some value is a key no longer than the one it replaces.
   */
  lemma PlainTextSwap(rt: Runtime, body: string, subs: map<string, string>, order: seq<string>)
    requires rt.parse(body).None? && AllAscii(body) && WordSubs(subs) && SortedKeys(order, subs)
    requires !Interferes(subs)
    ensures Applied(rt, body, subs, order) == TokenSubst(body, subs)
  {
    forall k | k in subs ensures ByteLen(k) == |k| { WordIsAscii(k); }
    assert forall i :: 0 <= i < |order| ==> order[i] in order;
    assert LongestFirst(order, subs);
    SafeOrder(body, subs, order);
    if subs == map[] { TokenSubstNothing(body); }
  }

  lemma TokenSubstNothing(text: string)
    ensures TokenSubst(text, map[]) == text
  {
    TokeniseInverse(text);
    SubstNothing(Tokenise(text));
  }

  lemma {:induction false} SubstNothing(t: Tokens)
    ensures SubstTokens(t, map[]) == t
  {
    if t.More? { SubstNothing(t.rest); }
  }
}
