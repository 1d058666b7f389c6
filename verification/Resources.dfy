/**
 * Captured resources: the id found in a response body, the statechart bound to
 * the collection, and what a transition does to a resource.
 */
module Resources {
  import opened Options
  import opened Statecharts
  import Json

  datatype ResourceState = ResourceState(
    collection: string, id: string, body: Json.Value,
    statechart: Option<string>, currentState: Option<string>,
    createdAt: int, updatedAt: int, status: nat, contentType: string)

  // ---------------------------------------------------------------- extracting the id

  const MAX_ID_DEPTH := 3

  function StringifyId(v: Json.Value): Option<string> {
    match v
    case Str(text) => if text != "" then Some(text) else None
    case Num(text) => Some(text)
    case _ => None
  }

  function IdAmong(fields: Json.Fields, candidates: seq<string>): Option<string> {
    if candidates == [] then None
    else
      var v := Json.Get(fields, candidates[0]);
      var id := if v.Some? then StringifyId(v.value) else None;
      if id.Some? then id else IdAmong(fields, candidates[1..])
  }

  function WalkForId(v: Json.Value, candidates: seq<string>, depth: nat): Option<string>
    decreases v
  {
    if depth > MAX_ID_DEPTH then None
    else
      match v
      case Obj(fields) =>
        var here := IdAmong(fields, candidates);
        if here.Some? then here else WalkFields(fields, candidates, depth + 1)
      case Arr(items) => WalkItems(items, candidates, depth + 1)
      case _ => None
  }

  function WalkFields(fields: Json.Fields, candidates: seq<string>, depth: nat): Option<string>
    decreases fields
  {
    if fields.End? then None
    else
      var found := WalkForId(fields.value, candidates, depth);
      if found.Some? then found else WalkFields(fields.rest, candidates, depth)
  }

  function WalkItems(items: Json.Items, candidates: seq<string>, depth: nat): Option<string>
    decreases items
  {
    if items.Done? then None
    else
      var found := WalkForId(items.head, candidates, depth);
      if found.Some? then found else WalkItems(items.tail, candidates, depth)
  }

  function Singular(collection: string): string {
    if collection != "" && collection[|collection| - 1] == 's' then collection[..|collection| - 1] else collection
  }

  function Candidates(collection: string, hint: Option<string>): seq<string> {
    (if hint.Some? then [hint.value] else []) + ["id", "_id", Singular(collection) + "_id"]
  }

  function ExtractId(body: Json.Value, collection: string, hint: Option<string>): Option<string> {
    WalkForId(body, Candidates(collection, hint), 0)
  }

  // ---------------------------------------------------------------- which id is found

  /** Where an id may be: child indices that lead to an object, and the index of a candidate field of it. */
  datatype Place = Place(path: seq<nat>, candidate: nat)

  /** A text that is not empty, or a number. */
  ghost predicate ReadsAs(v: Json.Value, id: string) {
    (v == Json.Str(id) && id != "") || v == Json.Num(id)
  }

  ghost predicate FieldReads(fields: Json.Fields, key: string, id: string) {
    Json.Get(fields, key).Some? && ReadsAs(Json.Get(fields, key).value, id)
  }

  /** At this place, not nested deeper than 3, the value holds `id`. */
  ghost predicate HoldsId(v: Json.Value, candidates: seq<string>, depth: nat, p: Place, id: string) {
    && depth + |p.path| <= 3 && p.candidate < |candidates|
    && var at := Json.At(v, p.path);
       at.Some? && at.value.Obj? && FieldReads(at.value.fields, candidates[p.candidate], id)
  }

  /** An object comes before what it holds, siblings are in order, candidates of one object are in list order. */
  ghost predicate Before(p: Place, q: Place)
    decreases |p.path|
  {
    if p.path == [] then q.path != [] || p.candidate < q.candidate
    else
      && q.path != []
      && (|| p.path[0] < q.path[0]
          || (p.path[0] == q.path[0] && Before(Place(p.path[1..], p.candidate), Place(q.path[1..], q.candidate))))
  }

  /** The first place of all that hold an id holds this one. */
  ghost predicate FirstPlace(v: Json.Value, candidates: seq<string>, depth: nat, p: Place, id: string) {
    HoldsId(v, candidates, depth, p, id)
    && forall q, other :: HoldsId(v, candidates, depth, q, other) ==> q == p || Before(p, q)
  }

  /** The first candidate that reads as an id. */
  ghost predicate FirstCandidate(fields: Json.Fields, candidates: seq<string>, c: nat, id: string) {
    && c < |candidates| && FieldReads(fields, candidates[c], id)
    && forall d, other :: 0 <= d < c ==> !FieldReads(fields, candidates[d], other)
  }

  lemma {:induction false} IdAmongIsFirst(fields: Json.Fields, candidates: seq<string>)
    ensures var found := IdAmong(fields, candidates);
      if found.Some? then exists c :: FirstCandidate(fields, candidates, c, found.value)
      else forall c, id :: 0 <= c < |candidates| ==> !FieldReads(fields, candidates[c], id)
  {
    if candidates != [] {
      var v := Json.Get(fields, candidates[0]);
      var id := if v.Some? then StringifyId(v.value) else None;
      if id.Some? {
        assert FirstCandidate(fields, candidates, 0, id.value);
      } else {
        var rest := candidates[1..];
        assert forall other :: !FieldReads(fields, candidates[0], other);
        IdAmongIsFirst(fields, rest);
        var found := IdAmong(fields, rest);
        if found.Some? {
          var c: nat :| FirstCandidate(fields, rest, c, found.value);
          assert forall d :: 0 < d <= c ==> candidates[d] == rest[d - 1];
          assert FirstCandidate(fields, candidates, c + 1, found.value);
        } else {
          assert forall d :: 0 < d < |candidates| ==> candidates[d] == rest[d - 1];
        }
      }
    }
  }

  /** The walk answers for the `i`-th of these values, and for none before. */
  ghost predicate FirstWalk(held: seq<Json.Value>, candidates: seq<string>, depth: nat, i: nat, id: string) {
    && i < |held| && WalkForId(held[i], candidates, depth) == Some(id)
    && forall j :: 0 <= j < i ==> WalkForId(held[j], candidates, depth).None?
  }

  ghost predicate WalksFirst(found: Option<string>, held: seq<Json.Value>, candidates: seq<string>, depth: nat) {
    if found.Some? then exists i :: FirstWalk(held, candidates, depth, i, found.value)
    else forall j :: 0 <= j < |held| ==> WalkForId(held[j], candidates, depth).None?
  }

  lemma WalksLater(first: Json.Value, rest: seq<Json.Value>, candidates: seq<string>, depth: nat, found: Option<string>)
    requires WalkForId(first, candidates, depth).None? && WalksFirst(found, rest, candidates, depth)
    ensures WalksFirst(found, [first] + rest, candidates, depth)
  {
    var held := [first] + rest;
    assert forall j :: 0 < j < |held| ==> held[j] == rest[j - 1];
    if found.Some? {
      var i: nat :| FirstWalk(rest, candidates, depth, i, found.value);
      assert FirstWalk(held, candidates, depth, i + 1, found.value);
    }
  }

  lemma WalksNow(first: Json.Value, rest: seq<Json.Value>, candidates: seq<string>, depth: nat)
    requires WalkForId(first, candidates, depth).Some?
    ensures WalksFirst(WalkForId(first, candidates, depth), [first] + rest, candidates, depth)
  {
    assert FirstWalk([first] + rest, candidates, depth, 0, WalkForId(first, candidates, depth).value);
  }

  lemma {:induction false} WalkFieldsIsFirst(fields: Json.Fields, candidates: seq<string>, depth: nat)
    ensures WalksFirst(WalkFields(fields, candidates, depth), Json.Children(Json.Obj(fields)), candidates, depth)
    decreases fields
  {
    if fields.Field? {
      var rest := Json.Children(Json.Obj(fields.rest));
      assert Json.Children(Json.Obj(fields)) == [fields.value] + rest;
      WalkFieldsIsFirst(fields.rest, candidates, depth);
      if WalkForId(fields.value, candidates, depth).Some? { WalksNow(fields.value, rest, candidates, depth); }
      else { WalksLater(fields.value, rest, candidates, depth, WalkFields(fields.rest, candidates, depth)); }
    }
  }

  lemma {:induction false} WalkItemsIsFirst(items: Json.Items, candidates: seq<string>, depth: nat)
    ensures WalksFirst(WalkItems(items, candidates, depth), Json.Elements(items), candidates, depth)
    decreases items
  {
    if items.Item? {
      var rest := Json.Elements(items.tail);
      WalkItemsIsFirst(items.tail, candidates, depth);
      if WalkForId(items.head, candidates, depth).Some? { WalksNow(items.head, rest, candidates, depth); }
      else { WalksLater(items.head, rest, candidates, depth, WalkItems(items.tail, candidates, depth)); }
    }
  }

  /** A place inside a child is a place inside the value. */
  lemma ChildPlace(v: Json.Value, candidates: seq<string>, depth: nat, p: Place, id: string)
    requires p.path != []
    ensures HoldsId(v, candidates, depth, p, id) <==>
      p.path[0] < |Json.Children(v)|
      && HoldsId(Json.Children(v)[p.path[0]], candidates, depth + 1, Place(p.path[1..], p.candidate), id)
  {
  }

  /** What the walk finds: the id at the first place that holds one. */
  ghost predicate IsWalk(v: Json.Value, candidates: seq<string>, depth: nat, found: Option<string>) {
    if found.Some? then exists p :: FirstPlace(v, candidates, depth, p, found.value)
    else forall q, other :: !HoldsId(v, candidates, depth, q, other)
  }

  lemma WalkHere(fields: Json.Fields, candidates: seq<string>, depth: nat)
    requires depth <= 3 && IdAmong(fields, candidates).Some?
    ensures IsWalk(Json.Obj(fields), candidates, depth, IdAmong(fields, candidates))
  {
    var v, id := Json.Obj(fields), IdAmong(fields, candidates).value;
    IdAmongIsFirst(fields, candidates);
    var c: nat :| FirstCandidate(fields, candidates, c, id);
    var p := Place([], c);
    forall q, other | HoldsId(v, candidates, depth, q, other) ensures q == p || Before(p, q) {
    }
    assert FirstPlace(v, candidates, depth, p, id);
  }

  /** Without an id of its own a value gets that of the first child that has one. */
  lemma WalkBelow(v: Json.Value, candidates: seq<string>, depth: nat, found: Option<string>)
    requires depth <= 3 && WalksFirst(found, Json.Children(v), candidates, depth + 1)
    requires forall q: Place, id :: q.path == [] ==> !HoldsId(v, candidates, depth, q, id)
    requires forall i :: 0 <= i < |Json.Children(v)| ==>
      IsWalk(Json.Children(v)[i], candidates, depth + 1, WalkForId(Json.Children(v)[i], candidates, depth + 1))
    ensures IsWalk(v, candidates, depth, found)
  {
    var held := Json.Children(v);
    forall q, other | HoldsId(v, candidates, depth, q, other)
      ensures q.path != [] && q.path[0] < |held|
      ensures HoldsId(held[q.path[0]], candidates, depth + 1, Place(q.path[1..], q.candidate), other)
    {
      ChildPlace(v, candidates, depth, q, other);
    }
    if found.Some? {
      var i: nat :| FirstWalk(held, candidates, depth + 1, i, found.value);
      var p :| FirstPlace(held[i], candidates, depth + 1, p, found.value);
      var mine := Place([i] + p.path, p.candidate);
      assert mine.path[1..] == p.path && Place(mine.path[1..], mine.candidate) == p;
      ChildPlace(v, candidates, depth, mine, found.value);
      forall q, other | HoldsId(v, candidates, depth, q, other) ensures q == mine || Before(mine, q) {
        var below := Place(q.path[1..], q.candidate);
        assert HoldsId(held[q.path[0]], candidates, depth + 1, below, other);
        if q.path[0] == i && below == p { assert q.path == [i] + q.path[1..]; }
      }
      assert FirstPlace(v, candidates, depth, mine, found.value);
    }
  }

  /** The walk finds the id at the first place that holds one, and nothing only when there is no such place. */
  lemma {:induction false} WalkFindsId(v: Json.Value, candidates: seq<string>, depth: nat)
    ensures var found := WalkForId(v, candidates, depth);
      if found.Some? then exists p :: FirstPlace(v, candidates, depth, p, found.value)
      else forall q, other :: !HoldsId(v, candidates, depth, q, other)
    decreases MAX_ID_DEPTH + 1 - depth
  {
    if depth <= MAX_ID_DEPTH {
      forall i | 0 <= i < |Json.Children(v)|
        ensures IsWalk(Json.Children(v)[i], candidates, depth + 1, WalkForId(Json.Children(v)[i], candidates, depth + 1))
      {
        WalkFindsId(Json.Children(v)[i], candidates, depth + 1);
      }
      WalkOneLevel(v, candidates, depth);
    }
  }

  lemma WalkOneLevel(v: Json.Value, candidates: seq<string>, depth: nat)
    requires depth <= MAX_ID_DEPTH
    requires forall i :: 0 <= i < |Json.Children(v)| ==>
      IsWalk(Json.Children(v)[i], candidates, depth + 1, WalkForId(Json.Children(v)[i], candidates, depth + 1))
    ensures IsWalk(v, candidates, depth, WalkForId(v, candidates, depth))
  {
    match v {
      case Obj(fields) =>
        if IdAmong(fields, candidates).Some? {
          WalkHere(fields, candidates, depth);
        } else {
          IdAmongIsFirst(fields, candidates);
          WalkFieldsIsFirst(fields, candidates, depth + 1);
          WalkBelow(v, candidates, depth, WalkFields(fields, candidates, depth + 1));
        }
      case Arr(items) =>
        WalkItemsIsFirst(items, candidates, depth + 1);
        WalkBelow(v, candidates, depth, WalkItems(items, candidates, depth + 1));
      case _ =>
    }
  }

  /** The id found in a body: the one at the first place that holds one, in this order of candidates. */
  ghost predicate IsExtracted(body: Json.Value, collection: string, hint: Option<string>, found: Option<string>) {
    IsWalk(body, Candidates(collection, hint), 0, found)
  }

  lemma ExtractedIsFirst(body: Json.Value, collection: string, hint: Option<string>)
    ensures IsExtracted(body, collection, hint, ExtractId(body, collection, hint))
  {
    WalkFindsId(body, Candidates(collection, hint), 0);
  }

  /** No id can be read from this field. */
  ghost predicate Unread(fields: Json.Fields, key: string) { forall id :: !FieldReads(fields, key, id) }

  /** An object's own candidate field wins, whatever is nested in it. */
  lemma OwnCandidateWins(fields: Json.Fields, candidates: seq<string>, depth: nat, c: nat, id: string)
    requires depth <= 3 && FirstCandidate(fields, candidates, c, id)
    ensures WalkForId(Json.Obj(fields), candidates, depth) == Some(id)
  {
    IdAmongIsFirst(fields, candidates);
    var found := IdAmong(fields, candidates);
    var d: nat :| FirstCandidate(fields, candidates, d, found.value);
    assert c == d;
  }

  /** `stem` is the collection without one `s` at its end. */
  ghost predicate IsStem(stem: string, collection: string) {
    collection == stem + "s" || (collection == stem && (stem == "" || stem[|stem| - 1] != 's'))
  }

  /** The hint, else `id`, else `_id`, else the singular's own id field. */
  lemma OwnId(fields: Json.Fields, collection: string, stem: string, hint: Option<string>, id: string)
    requires IsStem(stem, collection)
    ensures var found := ExtractId(Json.Obj(fields), collection, hint);
      && (hint.Some? && FieldReads(fields, hint.value, id) ==> found == Some(id))
      && ((hint.Some? ==> Unread(fields, hint.value)) ==>
           && (FieldReads(fields, "id", id) ==> found == Some(id))
           && (Unread(fields, "id") && FieldReads(fields, "_id", id) ==> found == Some(id))
           && (Unread(fields, "id") && Unread(fields, "_id") && FieldReads(fields, stem + "_id", id) ==> found == Some(id)))
  {
    var candidates := Candidates(collection, hint);
    var h := if hint.Some? then 1 else 0;
    assert hint.Some? ==> candidates[0] == hint.value;
    assert candidates[h] == "id" && candidates[h + 1] == "_id";
    SingularIs(stem, collection);
    assert candidates[h + 2] == stem + "_id";
    forall c: nat | c < |candidates| && FirstCandidate(fields, candidates, c, id) {
      OwnCandidateWins(fields, candidates, 0, c, id);
    }
    if hint.Some? && FieldReads(fields, hint.value, id) { assert FirstCandidate(fields, candidates, 0, id); }
    if hint.Some? ==> Unread(fields, hint.value) {
      if FieldReads(fields, "id", id) { assert FirstCandidate(fields, candidates, h, id); }
      if Unread(fields, "id") && FieldReads(fields, "_id", id) { assert FirstCandidate(fields, candidates, h + 1, id); }
      if Unread(fields, "id") && Unread(fields, "_id") && FieldReads(fields, stem + "_id", id) {
        assert FirstCandidate(fields, candidates, h + 2, id);
      }
    }
  }

  lemma SingularIs(stem: string, collection: string)
    requires IsStem(stem, collection)
    ensures Singular(collection) == stem
  {
    if collection == stem + "s" { assert collection[..|collection| - 1] == stem; }
  }

  /** For instance a charge that embeds its customer is stored under its own id. */
  lemma ChargeWithCustomer()
    ensures var customer := Json.Obj(Json.Field("id", Json.Str("cus_9"), Json.End));
      var charge := Json.Obj(Json.Field("customer", customer, Json.Field("id", Json.Str("ch_1"), Json.End)));
      ExtractId(charge, "charges", None) == Some("ch_1")
  {
    var customer := Json.Obj(Json.Field("id", Json.Str("cus_9"), Json.End));
    var fields := Json.Field("customer", customer, Json.Field("id", Json.Str("ch_1"), Json.End));
    assert Json.Get(fields, "id") == Json.Get(fields.rest, "id") == Some(Json.Str("ch_1"));
    assert "charges" == "charge" + "s";
    OwnId(fields, "charges", "charge", None, "ch_1");
  }

  // ---------------------------------------------------------------- capturing

  /** The machine named like the collection, or like its singular. */
  function ChartFor(registry: Option<Registry>, collection: string): Option<string> {
    if registry.None? then None
    else if collection in registry.value then Some(collection)
    else if Singular(collection) in registry.value then Some(Singular(collection))
    else None
  }

  function NewResource(
    registry: Option<Registry>, collection: string, id: string, body: Json.Value,
    contentType: Option<string>, status: nat, now: int): ResourceState
  {
    var chart := ChartFor(registry, collection);
    var state := if chart.Some? then Some(registry.value[chart.value].initial) else None;
    ResourceState(collection, id, body, chart, state, now, now, status, contentType.GetOr("application/json"))
  }

  /** A resource is bound to the chart of its collection's name, else of the singular, else to none. */
  lemma ChartIs(registry: Registry, collection: string, stem: string)
    requires IsStem(stem, collection)
    ensures ChartFor(None, collection) == None
    ensures collection in registry ==> ChartFor(Some(registry), collection) == Some(collection)
    ensures collection !in registry && stem in registry ==> ChartFor(Some(registry), collection) == Some(stem)
    ensures collection !in registry && stem !in registry ==> ChartFor(Some(registry), collection) == None
  {
    SingularIs(stem, collection);
  }

  /** What a resource, bound to a chart or not, starts as. */
  ghost predicate IsCaptured(
    registry: Option<Registry>, rs: ResourceState, collection: string, id: string, body: Json.Value,
    contentType: Option<string>, status: nat, now: int)
  {
    && rs.collection == collection && rs.id == id && rs.body == body && rs.status == status
    && rs.createdAt == now && rs.updatedAt == now
    && rs.contentType == (if contentType.Some? then contentType.value else "application/json")
    && rs.statechart == ChartFor(registry, collection)
    && rs.currentState == if rs.statechart.Some? then Some(registry.value[rs.statechart.value].initial) else None
  }

  // ---------------------------------------------------------------- transitions

  /** Writes `state` into the status field when that field is a string already. */
  function WriteStatus(body: Json.Value, field: string, state: string): Json.Value {
    if body.Obj? && Json.Get(body.fields, field).Some? && Json.Get(body.fields, field).value.Str? then
      Json.Obj(Json.Set(body.fields, field, Json.Str(state)))
    else body
  }

  /** The resource after an action, or nothing when the action is not allowed now. */
  function Transition(registry: Option<Registry>, rs: ResourceState, action: string, now: int): Option<ResourceState> {
    if registry.None? || rs.statechart.None? || rs.currentState.None? then None
    else
      var next := NextIn(registry.value, rs.statechart.value, rs.currentState.value, action);
      if next.None? then None
      else
        var field := registry.value[rs.statechart.value].statusField;
        Some(rs.(currentState := next, updatedAt := now, body := WriteStatus(rs.body, field, next.value)))
  }

  /** The action is one of the current state's, and the resource moves where the chart says. */
  ghost predicate Allowed(registry: Registry, rs: ResourceState, action: string, to: string) {
    && rs.statechart.Some? && rs.currentState.Some? && rs.statechart.value in registry
    && var states := registry[rs.statechart.value].states;
    && rs.currentState.value in states
    && action in states[rs.currentState.value] && states[rs.currentState.value][action] == to
  }

  /** A resource moves exactly where its chart allows; its times, state and status field change and nothing else. */
  lemma TransitionIff(registry: Registry, rs: ResourceState, action: string, now: int, next: ResourceState)
    ensures Transition(None, rs, action, now) == None
    ensures Transition(Some(registry), rs, action, now) == Some(next) <==>
      exists to :: Allowed(registry, rs, action, to)
        && next == rs.(currentState := Some(to), updatedAt := now,
                       body := WriteStatus(rs.body, registry[rs.statechart.value].statusField, to))
  {
    var got := Transition(Some(registry), rs, action, now);
    if got.Some? { assert Allowed(registry, rs, action, got.value.currentState.value); }
  }

  // ---------------------------------------------------------------- life of a resource

  /** An action and when it was applied. */
  type ActionAt = (string, int)

  function Actions(steps: seq<ActionAt>): (actions: seq<string>)
    ensures |actions| == |steps|
  {
    seq(|steps|, i requires 0 <= i < |steps| => steps[i].0)
  }

  /** The captured resource after successful actions. */
  function After(registry: Option<Registry>, captured: ResourceState, steps: seq<ActionAt>): Option<ResourceState> {
    if steps == [] then Some(captured)
    else
      var n := |steps| - 1;
      var before := After(registry, captured, steps[..n]);
      if before.None? then None else Transition(registry, before.value, steps[n].0, steps[n].1)
  }

  ghost predicate IsCapture(registry: Option<Registry>, rs: ResourceState) {
    exists hint, contentType ::
      && ExtractId(rs.body, rs.collection, hint) == Some(rs.id)
      && rs == NewResource(registry, rs.collection, rs.id, rs.body, contentType, rs.status, rs.createdAt)
  }

  lemma {:induction false} GetAfterSet(fields: Json.Fields, field: string, v: Json.Value, key: string)
    requires Json.Get(fields, field).Some?
    ensures Json.Get(Json.Set(fields, field, v), key) == if key == field then Some(v) else Json.Get(fields, key)
    ensures Json.Keys(Json.Set(fields, field, v)) == Json.Keys(fields)
  {
    if fields.key != field { GetAfterSet(fields.rest, field, v, key); }
  }

  lemma {:induction false} SetTwice(fields: Json.Fields, field: string, v: Json.Value, w: Json.Value)
    ensures Json.Set(Json.Set(fields, field, v), field, w) == Json.Set(fields, field, w)
  {
    if fields.Field? { SetTwice(fields.rest, field, v, w); }
  }

  lemma WriteStatusTwice(body: Json.Value, field: string, a: string, b: string)
    ensures WriteStatus(WriteStatus(body, field, a), field, b) == WriteStatus(body, field, b)
  {
    if body.Obj? && Json.Get(body.fields, field).Some? && Json.Get(body.fields, field).value.Str? {
      GetAfterSet(body.fields, field, Json.Str(a), field);
      SetTwice(body.fields, field, Json.Str(a), Json.Str(b));
    }
  }

  /** Writing the status changes that one field, from a string to the state, and nothing else. */
  lemma WriteStatusFrame(body: Json.Value, field: string, state: string)
    ensures !body.Obj? ==> WriteStatus(body, field, state) == body
    ensures body.Obj? ==> WriteStatus(body, field, state).Obj?
    ensures body.Obj? ==>
      var fields := WriteStatus(body, field, state).fields;
      && Json.Keys(fields) == Json.Keys(body.fields)
      && forall key :: Json.Get(fields, key) ==
           var was := Json.Get(body.fields, key);
           if key == field && was.Some? && was.value.Str? then Some(Json.Str(state)) else was
  {
    if body.Obj? && Json.Get(body.fields, field).Some? && Json.Get(body.fields, field).value.Str? {
      forall key { GetAfterSet(body.fields, field, Json.Str(state), key); }
      GetAfterSet(body.fields, field, Json.Str(state), field);
    }
  }

  /**
   * A chart-bound resource is in the state its successful actions lead to from
   * the one it started in, and its body is the one it started with, with that
   * state written into the status field once any action succeeded.
   */
  lemma {:induction false} AfterIsRun(registry: Registry, base: ResourceState, steps: seq<ActionAt>)
    requires base.statechart.Some? && base.statechart.value in registry && base.currentState.Some?
    requires After(Some(registry), base, steps).Some?
    ensures var m, rs := registry[base.statechart.value], After(Some(registry), base, steps).value;
      && rs.currentState.Some?
      && RunFrom(m, base.currentState.value, Actions(steps)) == rs.currentState
      && rs == base.(currentState := rs.currentState, updatedAt := rs.updatedAt, body := rs.body)
      && rs.body == if steps == [] then base.body
                    else WriteStatus(base.body, m.statusField, rs.currentState.value)
  {
    if steps != [] {
      var n := |steps| - 1;
      AfterIsRun(registry, base, steps[..n]);
      assert Actions(steps)[..n] == Actions(steps[..n]);
      var m, before := registry[base.statechart.value], After(Some(registry), base, steps[..n]).value;
      var state := After(Some(registry), base, steps).value.currentState.value;
      if n > 0 { WriteStatusTwice(base.body, m.statusField, before.currentState.value, state); }
    }
  }

  /** A resource without a chart never moves. */
  lemma {:induction false} NoChartNoSteps(registry: Option<Registry>, captured: ResourceState, steps: seq<ActionAt>)
    requires captured.statechart.None? && After(registry, captured, steps).Some?
    ensures steps == []
  {
    if steps != [] {
      NoChartNoSteps(registry, captured, steps[..|steps| - 1]);
    }
  }

  lemma CaptureStartsInitial(registry: Registry, rs: ResourceState)
    requires IsCapture(Some(registry), rs) && rs.statechart.Some?
    ensures rs.statechart.value in registry
    ensures rs.currentState == Some(registry[rs.statechart.value].initial)
  {
  }

  /** With the bundled charts a charge, an invoice and an order take at most 2, 4 and 5 actions per capture. */
  lemma StepsPerCapture(registry: Registry, captured: ResourceState, steps: seq<ActionAt>)
    requires IsCapture(Some(registry), captured) && After(Some(registry), captured, steps).Some?
    requires captured.statechart.Some?
    ensures registry[captured.statechart.value] == CHARGE ==> |steps| <= 2
    ensures registry[captured.statechart.value] == INVOICE ==> |steps| <= 4
    ensures registry[captured.statechart.value] == ORDER ==> |steps| <= 5
  {
    CaptureStartsInitial(registry, captured);
    AfterIsRun(registry, captured, steps);
    var m := registry[captured.statechart.value];
    if m == CHARGE { ChargeBound(Actions(steps)); }
    else if m == INVOICE { InvoiceBound(Actions(steps)); }
    else if m == ORDER { OrderBound(Actions(steps)); }
  }
}
