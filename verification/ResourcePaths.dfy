/**
 * Paths of resource requests: which collection a path creates in, which
 * resource a path names, which action it asks for; and what the request
 * handler does with the store.
 */
module ResourcePaths {
  import opened Options
  import opened Text
  import opened UriCanonical
  import opened PathShape
  import opened Resources
  import opened ResourceLog
  import opened ResourceStore
  import Statecharts
  import opened Defaults
  import Json

  const NON_ID_SEGMENTS := ["search", "batch", "_count", "bulk", "query"]

  const ACTION_VERBS := [
    "capture", "refund", "void", "cancel", "activate", "pause", "resume", "ship", "deliver", "return", "pay",
    "finalize", "suspend", "reactivate", "delete"]

  // ---------------------------------------------------------------- parsing

  function NonEmpty(parts: seq<string>): (kept: seq<string>)
    ensures forall s :: s in kept ==> s in parts && s != ""
  {
    if parts == [] then []
    else
      var n := |parts| - 1;
      NonEmpty(parts[..n]) + if parts[n] == "" then [] else [parts[n]]
  }

  /** The segments of the path, without the query and without empty ones. */
  function Segments(path: string): seq<string> { NonEmpty(Split(PathOf(path), '/')) }

  predicate IsVersion(s: string) { s != "" && s[0] == 'v' && |s| <= 3 && AllDigits(s[1..]) }

  function ParseCollectionAndId(path: string): Option<(string, string)> {
    var segments := Segments(path);
    var n := |segments|;
    if n < 2 || segments[n - 1] in NON_ID_SEGMENTS || IsVersion(segments[n - 1]) then None
    else Some((segments[n - 2], segments[n - 1]))
  }

  function ParseCollectionIdAction(path: string): Option<(string, string, string)> {
    var segments := Segments(path);
    var n := |segments|;
    if n < 3 then None else Some((segments[n - 3], segments[n - 2], segments[n - 1]))
  }

  function PathCollectionSegment(path: string): Option<string> {
    var segments := Segments(path);
    if segments == [] then None
    else
      var last := segments[|segments| - 1];
      if ('_' in last && exists i :: 0 <= i < |last| && IsDigit(last[i])) || last in ACTION_VERBS then None
      else Some(last)
  }

  // ---------------------------------------------------------------- extending a path

  /** Nothing, or a query. */
  predicate IsQuerySuffix(s: string) { s == "" || s[0] == '?' }

  /** The path of a request, without its query, with one more segment and a query of its own. */
  function Extended(path: string, segment: string, suffix: string): string {
    PathOf(path) + "/" + segment + suffix
  }

  predicate IsSegment(s: string) { s != "" && '/' !in s && '?' !in s }

  lemma {:induction false} NonEmptyConcat(a: seq<string>, b: seq<string>)
    ensures NonEmpty(a + b) == NonEmpty(a) + NonEmpty(b)
  {
    if b == [] {
      assert a + b == a;
    } else {
      var n := |b| - 1;
      NonEmptyConcat(a, b[..n]);
      assert (a + b)[..|a| + n] == a + b[..n];
    }
  }

  lemma PathOfSuffixed(path: string, suffix: string)
    requires '?' !in path && IsQuerySuffix(suffix)
    ensures PathOf(path + suffix) == path
  {
    assert (path + suffix)[..|path|] == path;
    FindUnique(path + suffix, '?', |path|);
  }

  lemma SingleSegment(s: string)
    requires IsSegment(s)
    ensures NonEmpty(Split(s, '/')) == [s]
  {
    SplitJoin([s], '/');
    assert NonEmpty([]) == [];
    assert [s][..0] == [];
  }

  /** A segment appended to a path, with or without a slash at its end, is one more segment. */
  lemma SegmentsExtended(path: string, segment: string, suffix: string)
    requires IsSegment(segment) && IsQuerySuffix(suffix)
    ensures Segments(Extended(path, segment, suffix)) == Segments(path) + [segment]
  {
    var base := PathOf(path);
    var longer := base + "/" + segment;
    PathOfSuffixed(longer, suffix);
    SplitConcat(base, segment, '/');
    NonEmptyConcat(Split(base, '/'), Split(segment, '/'));
    SingleSegment(segment);
  }

  lemma SegmentsAreSegments(path: string, i: nat)
    requires i < |Segments(path)|
    ensures IsSegment(Segments(path)[i])
  {
    var s := Segments(path)[i];
    assert s in Segments(path);
    var parts := Split(PathOf(path), '/');
    var k :| 0 <= k < |parts| && parts[k] == s;
    assert '/' !in s;
    PiecesOf(parts, '/', k);
  }

  lemma {:induction false} PiecesOf(parts: seq<string>, sep: char, k: nat)
    requires k < |parts|
    ensures forall c :: c in parts[k] ==> c in Join(parts, sep)
  {
    if k > 0 { PiecesOf(parts[1..], sep, k - 1); }
  }

  /** The pieces between slashes that are not empty: what a path is made of says which these are. */
  lemma SegmentsOfParts(path: string, segment: string, suffix: string)
    requires IsQuerySuffix(suffix)
    ensures Segments(suffix) == []
    ensures Segments(PathOf(path) + "/" + suffix) == Segments(path)
    ensures IsSegment(segment) ==> Segments(segment + suffix) == [segment]
    ensures IsSegment(segment) ==> Segments(PathOf(path) + "/" + segment + suffix) == Segments(path) + [segment]
  {
    var base := PathOf(path);
    EmptyHasNoSegments();
    assert "" + suffix == suffix;
    PathOfSuffixed("", suffix);
    PathOfSuffixed(base + "/", suffix);
    SplitConcat(base, "", '/');
    NonEmptyConcat(Split(base, '/'), Split("", '/'));
    assert base + ['/'] + "" == base + "/";
    if IsSegment(segment) {
      PathOfSuffixed(segment, suffix);
      SingleSegment(segment);
      SegmentsExtended(path, segment, suffix);
    }
  }

  lemma EmptyHasNoSegments()
    ensures Split("", '/') == [""] && NonEmpty([""]) == []
  {
    assert [""][..0] == [] && NonEmpty([]) == [];
  }

  /** `v` and at most two digits. */
  lemma VersionIff(s: string)
    ensures IsVersion(s) <==>
      s == "v"
      || (|s| == 2 && s[0] == 'v' && '0' <= s[1] <= '9')
      || (|s| == 3 && s[0] == 'v' && '0' <= s[1] <= '9' && '0' <= s[2] <= '9')
  {
    if |s| == 2 { assert s[1..][0] == s[1]; }
    if |s| == 3 { assert s[1..][0] == s[1] && s[1..][1] == s[2]; }
  }

  /** The last segment, unless it has an underscore and a digit or is an action. */
  lemma CollectionIff(path: string, collection: string)
    ensures PathCollectionSegment(path) == Some(collection) <==>
      && (exists front :: Segments(path) == front + [collection])
      && !('_' in collection && exists i :: 0 <= i < |collection| && '0' <= collection[i] <= '9')
      && collection !in {
           "capture", "refund", "void", "cancel", "activate", "pause", "resume", "ship", "deliver", "return", "pay",
           "finalize", "suspend", "reactivate", "delete"}
  {
    var segments := Segments(path);
    if segments != [] { assert segments == segments[..|segments| - 1] + [segments[|segments| - 1]]; }
    assert (exists i :: 0 <= i < |collection| && IsDigit(collection[i]))
      <==> exists i :: 0 <= i < |collection| && '0' <= collection[i] <= '9';
  }

  /** The last two segments, unless the last is one of five words or a version. */
  lemma ResourceIff(path: string, collection: string, id: string)
    ensures ParseCollectionAndId(path) == Some((collection, id)) <==>
      && (exists front :: Segments(path) == front + [collection, id])
      && id !in {"search", "batch", "_count", "bulk", "query"} && !IsVersion(id)
  {
    var segments, n := Segments(path), |Segments(path)|;
    if n >= 2 { assert segments == segments[..n - 2] + [segments[n - 2], segments[n - 1]]; }
  }

  /** The last three segments, whatever they are. */
  lemma ActionIff(path: string, collection: string, id: string, action: string)
    ensures ParseCollectionIdAction(path) == Some((collection, id, action)) <==>
      exists front :: Segments(path) == front + [collection, id, action]
  {
    var segments, n := Segments(path), |Segments(path)|;
    if n >= 3 { assert segments == segments[..n - 3] + [segments[n - 3], segments[n - 2], segments[n - 1]]; }
  }

  /** Ids that a path can carry. */
  predicate IsPathId(id: string) { IsSegment(id) && id !in NON_ID_SEGMENTS && !IsVersion(id) }

  /**
   * A path that creates in a collection, extended by an id, names that
   * collection and id exactly when the id is one that a path can carry.
   */
  lemma ExtendedNamesResource(path: string, id: string, suffix: string)
    requires PathCollectionSegment(path).Some? && IsQuerySuffix(suffix)
    ensures ParseCollectionAndId(Extended(path, id, suffix)) == Some((PathCollectionSegment(path).value, id)) <==>
            IsPathId(id)
  {
    var extended := Extended(path, id, suffix);
    var segments := Segments(extended);
    if IsSegment(id) {
      SegmentsExtended(path, id, suffix);
    } else if segments != [] {
      SegmentsAreSegments(extended, |segments| - 1);
    }
  }

  lemma ParsedActionIsSegments(path: string)
    ensures ParseCollectionIdAction(path).Some? ==>
      IsSegment(ParseCollectionIdAction(path).value.1) && IsSegment(ParseCollectionIdAction(path).value.2)
  {
    var n := |Segments(path)|;
    if n >= 3 {
      SegmentsAreSegments(path, n - 1);
      SegmentsAreSegments(path, n - 2);
    }
  }

  /** Extended further by an action, the path names the resource and the action exactly when both are segments. */
  lemma ExtendedNamesAction(path: string, id: string, action: string, suffix: string)
    requires PathCollectionSegment(path).Some? && IsQuerySuffix(suffix)
    ensures ParseCollectionIdAction(Extended(Extended(path, id, ""), action, suffix)) ==
            Some((PathCollectionSegment(path).value, id, action)) <==>
            IsSegment(id) && IsSegment(action)
  {
    if IsSegment(id) && IsSegment(action) {
      SegmentsExtended(path, id, "");
      SegmentsExtended(Extended(path, id, ""), action, suffix);
    } else {
      ParsedActionIsSegments(Extended(Extended(path, id, ""), action, suffix));
    }
  }

  // ---------------------------------------------------------------- the request handler

  /** What is sent back: a status, a content type and a JSON body. */
  datatype Response = Response(status: nat, contentType: string, body: Json.Value)

  function Served(rs: ResourceState): Response { Response(200, rs.contentType, rs.body) }

  function GetResponse(services: Services, service: Option<string>, path: string): Option<Response> {
    var target := ParseCollectionAndId(path);
    if target.None? then None
    else
      var rs := LookupIn(services, ServiceKey(service), target.value);
      if rs.Some? then Some(Served(rs.value)) else None
  }

  function BodyAction(body: Option<Json.Value>): Option<string> {
    if body.None? || !body.value.Obj? then None
    else
      var v := Json.Get(body.value.fields, "action");
      if v.Some? && v.value.Str? then Some(v.value.text) else None
  }

  /** The resource and action of a request: from the path of a POST, from path and body of a PATCH. */
  function TransitionTarget(verb: string, path: string, body: Option<Json.Value>): Option<(string, string, string)> {
    if verb == "POST" then ParseCollectionIdAction(path)
    else if verb == "PATCH" then
      var target := ParseCollectionAndId(path);
      var action := BodyAction(body);
      if target.Some? && action.Some? then Some((target.value.0, target.value.1, action.value)) else None
    else None
  }

  /** A GET is answered exactly when its path names a stored resource: with status 200, its content type and its body. */
  lemma GetIff(services: Services, service: Option<string>, path: string, response: Response)
    ensures GetResponse(services, service, path) == Some(response) <==>
      exists collection, id ::
        && ParseCollectionAndId(path) == Some((collection, id))
        && LookupIn(services, if service.Some? then service.value else "_global", (collection, id)).Some?
        && var rs := LookupIn(services, if service.Some? then service.value else "_global", (collection, id)).value;
        && response.status == 200 && response.contentType == rs.contentType && response.body == rs.body
  {
  }

  /** A POST names the action in its path, a PATCH as a text under `action` in its body, and no other request names one. */
  lemma TargetIff(verb: string, path: string, body: Option<Json.Value>, collection: string, id: string, action: string)
    ensures TransitionTarget(verb, path, body) == Some((collection, id, action)) <==>
      || (verb == "POST" && exists front :: Segments(path) == front + [collection, id, action])
      || (&& verb == "PATCH"
          && (exists front :: Segments(path) == front + [collection, id])
          && id !in {"search", "batch", "_count", "bulk", "query"} && !IsVersion(id)
          && body.Some? && body.value.Obj? && Json.Get(body.value.fields, "action") == Some(Json.Str(action)))
  {
    ActionIff(path, collection, id, action);
    ResourceIff(path, collection, id);
  }

  method ServeGet(store: Store, service: Option<string>, verb: string, path: string) returns (response: Option<Response>)
    ensures response == if verb == "GET" then GetResponse(store.byService, service, path) else None
  {
    if verb != "GET" { return None; }
    var target := ParseCollectionAndId(path);
    if target.None? { return None; }
    var rs := store.Lookup(ServiceKey(service), target.value.0, target.value.1);
    if rs.None? { return None; }
    return Some(Served(rs.value));
  }

  method ServeTransition(
    store: Store, service: Option<string>, verb: string, path: string, body: Option<Json.Value>, now: int, diskOk: bool)
    returns (response: Option<Response>)
    requires store.Valid()
    modifies store
    ensures store.Valid()
    ensures var target := TransitionTarget(verb, path, body);
      var next := if target.None? then None
        else TransitionIn(store.registry, old(store.byService), ServiceKey(service), (target.value.0, target.value.1), target.value.2, now);
      if next.None? then response.None? && store.byService == old(store.byService) && store.files == old(store.files)
      else
        && response == Some(Served(next.value))
        && store.byService == Inserted(old(store.byService), ServiceKey(service), next.value)
        && store.files == if store.persistent && diskOk then Appended(old(store.files), ServiceKey(service), next.value)
                          else old(store.files)
  {
    var target := TransitionTarget(verb, path, body);
    if target.None? { return None; }
    var (collection, id, action) := target.value;
    var state := store.ApplyTransition(ServiceKey(service), collection, id, action, now, diskOk);
    if state.None? { return None; }
    var rs := store.Lookup(ServiceKey(service), collection, id);
    if rs.None? { return None; }
    return Some(Served(rs.value));
  }

  /** What a learned response creates: a resource, when a POST or PUT to a collection succeeded with an id in its body. */
  function Learned(
    registry: Option<Statecharts.Registry>, verb: string, path: string, status: nat, body: Option<Json.Value>,
    contentType: Option<string>, now: int): Option<ResourceState>
  {
    var collection := PathCollectionSegment(path);
    if !(verb == "POST" || verb == "PUT") || !(200 <= status < 300) || collection.None? || body.None? then None
    else
      var id := ExtractId(body.value, collection.value, None);
      if id.None? then None
      else Some(NewResource(registry, collection.value, id.value, body.value, contentType, status, now))
  }

  /** It does so for these verbs and statuses and the id found first, and in no other case. */
  lemma LearnedIff(
    registry: Option<Statecharts.Registry>, verb: string, path: string, status: nat, body: Option<Json.Value>,
    contentType: Option<string>, now: int)
    ensures var rs, collection := Learned(registry, verb, path, status, body, contentType, now), PathCollectionSegment(path);
      if verb in {"POST", "PUT"} && 200 <= status <= 299 && collection.Some? && body.Some? then
        && IsExtracted(body.value, collection.value, None, if rs.Some? then Some(rs.value.id) else None)
        && (rs.Some? ==>
              IsCaptured(registry, rs.value, collection.value, rs.value.id, body.value, contentType, status, now))
      else rs.None?
  {
    var collection := PathCollectionSegment(path);
    if collection.Some? && body.Some? { ExtractedIsFirst(body.value, collection.value, None); }
  }

  method CaptureResponse(
    store: Store, service: Option<string>, verb: string, path: string, status: nat, body: Option<Json.Value>,
    contentType: Option<string>, now: int, diskOk: bool)
    requires store.Valid()
    modifies store
    ensures store.Valid()
    ensures var rs := Learned(store.registry, verb, path, status, body, contentType, now);
      if rs.None? then store.byService == old(store.byService) && store.files == old(store.files)
      else
        && store.byService == Inserted(old(store.byService), ServiceKey(service), rs.value)
        && store.files == if store.persistent && diskOk then Appended(old(store.files), ServiceKey(service), rs.value)
                          else old(store.files)
  {
    if (verb == "POST" || verb == "PUT") && 200 <= status < 300 {
      var collection := PathCollectionSegment(path);
      if collection.Some? && body.Some? {
        var captured := store.CaptureCreate(
          ServiceKey(service), collection.value, body.value, None, contentType, status, now, diskOk);
      }
    }
  }

  // ---------------------------------------------------------------- create, read, act

  /** After a capture, a GET of the path extended by the id answers 200 with the captured body. */
  lemma CapturedIsServed(
    services: Services, service: Option<string>, registry: Option<Statecharts.Registry>, verb: string, path: string,
    status: nat, body: Json.Value, contentType: Option<string>, now: int, suffix: string)
    requires Learned(registry, verb, path, status, Some(body), contentType, now).Some? && IsQuerySuffix(suffix)
    ensures var rs := Learned(registry, verb, path, status, Some(body), contentType, now).value;
      IsPathId(rs.id) ==>
        GetResponse(Inserted(services, ServiceKey(service), rs), service, Extended(path, rs.id, suffix)) ==
        Some(Response(200, contentType.GetOr("application/json"), body))
  {
    var rs := Learned(registry, verb, path, status, Some(body), contentType, now).value;
    ExtendedNamesResource(path, rs.id, suffix);
    LookupInserted(services, ServiceKey(service), rs, ServiceKey(service), (rs.collection, rs.id));
  }

  /** Both forms of an action on a resource ask for the same transition. */
  lemma BothFormsAct(path: string, id: string, action: string, body: Option<Json.Value>, patch: Json.Value, suffix: string)
    requires PathCollectionSegment(path).Some? && IsPathId(id) && IsSegment(action) && IsQuerySuffix(suffix)
    requires patch.Obj? && Json.Get(patch.fields, "action") == Some(Json.Str(action))
    ensures TransitionTarget("POST", Extended(Extended(path, id, ""), action, suffix), body) ==
            TransitionTarget("PATCH", Extended(path, id, suffix), Some(patch)) ==
            Some((PathCollectionSegment(path).value, id, action))
  {
    ExtendedNamesAction(path, id, action, suffix);
    ExtendedNamesResource(path, id, suffix);
  }

  /**
   * A resource created at a path and stored, in whatever state, is moved by a
   * POST to its path extended by an action, exactly when its chart allows the
   * action; the answer and every later GET of the resource carry the new body.
   */
  lemma ActionIsServed(
    services: Services, service: Option<string>, registry: Option<Statecharts.Registry>, path: string,
    rs: ResourceState, action: string, body: Option<Json.Value>, now: int, suffix: string)
    requires PathCollectionSegment(path) == Some(rs.collection) && IsPathId(rs.id) && IsSegment(action)
    requires LookupIn(services, ServiceKey(service), KeyOf(rs)) == Some(rs) && IsQuerySuffix(suffix)
    ensures var target := TransitionTarget("POST", Extended(Extended(path, rs.id, ""), action, suffix), body);
      && target.Some?
      && var next := TransitionIn(
           registry, services, ServiceKey(service), (target.value.0, target.value.1), target.value.2, now);
      && next == Transition(registry, rs, action, now)
      && (next.Some? ==>
           GetResponse(Inserted(services, ServiceKey(service), next.value), service, Extended(path, rs.id, suffix)) ==
           Some(Served(next.value)))
  {
    ExtendedNamesAction(path, rs.id, action, suffix);
    ExtendedNamesResource(path, rs.id, suffix);
    var next := Transition(registry, rs, action, now);
    if next.Some? {
      LookupInserted(services, ServiceKey(service), next.value, ServiceKey(service), KeyOf(rs));
    }
  }
}
