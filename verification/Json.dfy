/**
 * JSON values as trees, the difference of two trees and substitution in a tree.
 * Object fields are a list in key order, the order in which the proxy's
 * ordered map is walked.
 */
module Json {
  import opened Options

  datatype Value =
    | Null
    | Bool(b: bool)
    | Num(text: string)
    | Str(text: string)
    | Arr(items: Items)
    | Obj(fields: Fields)

  datatype Items = Done | Item(head: Value, tail: Items)

  datatype Fields = End | Field(key: string, value: Value, rest: Fields)

  function Get(fields: Fields, key: string): Option<Value> {
    match fields
    case End => None
    case Field(k, v, rest) => if k == key then Some(v) else Get(rest, key)
  }

  /** `map.insert` for a key that is present. */
  function Set(fields: Fields, key: string, value: Value): Fields {
    match fields
    case End => End
    case Field(k, v, rest) => if k == key then Field(k, value, rest) else Field(k, v, Set(rest, key, value))
  }

  function Keys(fields: Fields): set<string> {
    match fields
    case End => {}
    case Field(k, _, rest) => {k} + Keys(rest)
  }

  /** No object has a key twice. */
  predicate UniqueKeys(v: Value) {
    match v
    case Arr(items) => UniqueItems(items)
    case Obj(fields) => UniqueFields(fields)
    case _ => true
  }

  predicate UniqueItems(items: Items) {
    items.Item? ==> UniqueKeys(items.head) && UniqueItems(items.tail)
  }

  predicate UniqueFields(fields: Fields) {
    fields.Field? ==> fields.key !in Keys(fields.rest) && UniqueKeys(fields.value) && UniqueFields(fields.rest)
  }

  lemma {:induction false} GetIffKey(fields: Fields, key: string)
    ensures Get(fields, key).Some? <==> key in Keys(fields)
  {
    if fields.Field? { GetIffKey(fields.rest, key); }
  }

  // ---------------------------------------------------------------- places in a tree

  function Pairs(fields: Fields): seq<(string, Value)> {
    match fields
    case End => []
    case Field(k, v, rest) => [(k, v)] + Pairs(rest)
  }

  function Elements(items: Items): seq<Value> {
    match items
    case Done => []
    case Item(head, tail) => [head] + Elements(tail)
  }

  /** What a value holds: the values of an object in key order, the items of an array. */
  function Children(v: Value): (held: seq<Value>) {
    match v
    case Obj(fields) => seq(|Pairs(fields)|, i requires 0 <= i < |Pairs(fields)| => Pairs(fields)[i].1)
    case Arr(items) => Elements(items)
    case _ => []
  }

  /** The value that the child indices lead to. */
  function At(v: Value, path: seq<nat>): Option<Value>
    decreases |path|
  {
    if path == [] then Some(v)
    else if path[0] < |Children(v)| then At(Children(v)[path[0]], path[1..])
    else None
  }

  ghost predicate FirstPair(ps: seq<(string, Value)>, key: string, v: Value, i: int) {
    0 <= i < |ps| && ps[i] == (key, v) && forall j :: 0 <= j < i ==> ps[j].0 != key
  }

  /** The value of a key is that of the first field of that name. */
  lemma {:induction false} GetIsFirst(fields: Fields, key: string)
    ensures Get(fields, key).Some? ==> exists i :: FirstPair(Pairs(fields), key, Get(fields, key).value, i)
    ensures Get(fields, key).None? ==> forall i :: 0 <= i < |Pairs(fields)| ==> Pairs(fields)[i].0 != key
  {
    match fields
    case End =>
    case Field(k, v, rest) =>
      var ps, later := Pairs(fields), Pairs(rest);
      assert ps == [(k, v)] + later;
      if k == key {
        assert FirstPair(ps, key, v, 0);
      } else {
        GetIsFirst(rest, key);
        if i :| Get(rest, key).Some? && FirstPair(later, key, Get(rest, key).value, i) {
          assert FirstPair(ps, key, Get(rest, key).value, i + 1);
        }
      }
  }

  // ---------------------------------------------------------------- difference

  /** Every changed string: what it was in `recorded` and what it is in `incoming`. */
  function Diff(recorded: Value, incoming: Value): seq<(string, string)> {
    match (recorded, incoming)
    case (Str(r), Str(i)) => if r != i then [(r, i)] else []
    case (Obj(r), Obj(i)) => DiffFields(r, i)
    case (Arr(r), Arr(i)) => DiffItems(r, i)
    case _ => []
  }

  function DiffFields(recorded: Fields, incoming: Fields): seq<(string, string)> {
    match recorded
    case End => []
    case Field(key, value, rest) =>
      var other := Get(incoming, key);
      (if other.Some? then Diff(value, other.value) else []) + DiffFields(rest, incoming)
  }

  function DiffItems(recorded: Items, incoming: Items): seq<(string, string)> {
    if recorded.Item? && incoming.Item? then
      Diff(recorded.head, incoming.head) + DiffItems(recorded.tail, incoming.tail)
    else []
  }

  // ---------------------------------------------------------------- what the difference lists

  /** Into the value of a key, or into an item. */
  datatype Step = Key(key: string) | Index(i: nat)

  function Go(v: Value, step: Step): Option<Value> {
    match step
    case Key(key) => if v.Obj? then Get(v.fields, key) else None
    case Index(i) => if v.Arr? && i < |Elements(v.items)| then Some(Elements(v.items)[i]) else None
  }

  function Reached(v: Value, path: seq<Step>): Option<Value>
    decreases |path|
  {
    if path == [] then Some(v)
    else
      var next := Go(v, path[0]);
      if next.None? then None else Reached(next.value, path[1..])
  }

  /** One path leads to the one text in `a` and to the other in `b`. */
  ghost predicate MeetAt(a: Value, b: Value, path: seq<Step>, p: (string, string)) {
    Reached(a, path) == Some(Str(p.0)) && Reached(b, path) == Some(Str(p.1))
  }

  ghost predicate Meet(a: Value, b: Value, p: (string, string)) {
    exists path :: MeetAt(a, b, path, p)
  }

  ghost predicate MeetIn(a: Value, b: Value, step: Step, p: (string, string)) {
    Go(a, step).Some? && Go(b, step).Some? && Meet(Go(a, step).value, Go(b, step).value, p)
  }

  lemma MeetIff(a: Value, b: Value, p: (string, string))
    ensures Meet(a, b, p) <==> (a == Str(p.0) && b == Str(p.1)) || exists step :: MeetIn(a, b, step, p)
  {
    if path :| MeetAt(a, b, path, p) && path != [] {
      assert MeetAt(Go(a, path[0]).value, Go(b, path[0]).value, path[1..], p);
      assert MeetIn(a, b, path[0], p);
    }
    if a == Str(p.0) && b == Str(p.1) { assert MeetAt(a, b, [], p); }
    if step :| MeetIn(a, b, step, p) {
      var path :| MeetAt(Go(a, step).value, Go(b, step).value, path, p);
      assert ([step] + path)[1..] == path;
      assert MeetAt(a, b, [step] + path, p);
    }
  }

  /** The difference lists exactly the different texts that one path leads to in both trees. */
  lemma {:induction false} DiffIff(a: Value, b: Value, p: (string, string))
    requires UniqueKeys(a)
    ensures p in Diff(a, b) <==> p.0 != p.1 && Meet(a, b, p)
    decreases a
  {
    MeetIff(a, b, p);
    match (a, b) {
      case (Arr(x), Arr(y)) =>
        DiffItemsIff(x, y, p);
        forall i: nat ensures MeetIn(a, b, Index(i), p) <==> ItemsMeet(x, y, i, p) {}
      case (Obj(x), Obj(y)) =>
        DiffFieldsIff(x, y, p);
        forall key ensures MeetIn(a, b, Key(key), p) <==> FieldsMeet(x, y, key, p) {}
      case _ =>
    }
  }

  ghost predicate ItemsMeet(a: Items, b: Items, i: nat, p: (string, string)) {
    i < |Elements(a)| && i < |Elements(b)| && Meet(Elements(a)[i], Elements(b)[i], p)
  }

  ghost predicate FieldsMeet(a: Fields, b: Fields, key: string, p: (string, string)) {
    Get(a, key).Some? && Get(b, key).Some? && Meet(Get(a, key).value, Get(b, key).value, p)
  }

  lemma {:induction false} DiffItemsIff(a: Items, b: Items, p: (string, string))
    requires UniqueItems(a)
    ensures p in DiffItems(a, b) <==> p.0 != p.1 && exists i :: ItemsMeet(a, b, i, p)
    decreases a
  {
    if a.Item? && b.Item? {
      DiffIff(a.head, b.head, p);
      DiffItemsIff(a.tail, b.tail, p);
      assert ItemsMeet(a, b, 0, p) <==> Meet(a.head, b.head, p);
      forall i: nat ensures ItemsMeet(a, b, i + 1, p) <==> ItemsMeet(a.tail, b.tail, i, p) {}
      if i: nat :| ItemsMeet(a, b, i, p) && i > 0 { assert ItemsMeet(a.tail, b.tail, i - 1, p); }
      if i: nat :| ItemsMeet(a.tail, b.tail, i, p) { assert ItemsMeet(a, b, i + 1, p); }
    }
  }

  lemma {:induction false} DiffFieldsIff(a: Fields, b: Fields, p: (string, string))
    requires UniqueFields(a)
    ensures p in DiffFields(a, b) <==> p.0 != p.1 && exists key :: FieldsMeet(a, b, key, p)
    decreases a
  {
    if a.Field? {
      var other := Get(b, a.key);
      if other.Some? { DiffIff(a.value, other.value, p); }
      DiffFieldsIff(a.rest, b, p);
      GetIffKey(a.rest, a.key);
      forall key ensures FieldsMeet(a, b, key, p) <==>
        (if key == a.key then other.Some? && Meet(a.value, other.value, p) else FieldsMeet(a.rest, b, key, p)) {}
      if key :| FieldsMeet(a.rest, b, key, p) { assert FieldsMeet(a, b, key, p); }
      if other.Some? && Meet(a.value, other.value, p) { assert FieldsMeet(a, b, a.key, p); }
    }
  }

  /** The recursive walk that appends to `diffs`. */
  method CollectValueDiffs(recorded: Value, incoming: Value, diffs: seq<(string, string)>)
    returns (more: seq<(string, string)>)
    ensures more == diffs + Diff(recorded, incoming)
    decreases recorded
  {
    match (recorded, incoming) {
      case (Str(r), Str(i)) => more := if r != i then diffs + [(r, i)] else diffs;
      case (Obj(r), Obj(i)) => more := CollectFieldDiffs(r, i, diffs);
      case (Arr(r), Arr(i)) => more := CollectItemDiffs(r, i, diffs);
      case _ => more := diffs;
    }
  }

  method CollectFieldDiffs(recorded: Fields, incoming: Fields, diffs: seq<(string, string)>)
    returns (more: seq<(string, string)>)
    ensures more == diffs + DiffFields(recorded, incoming)
    decreases recorded
  {
    more := diffs;
    var todo := recorded;
    ghost var goal := diffs + DiffFields(recorded, incoming);
    while todo.Field?
      invariant todo == recorded || todo < recorded
      invariant more + DiffFields(todo, incoming) == goal
      decreases todo
    {
      var other := Get(incoming, todo.key);
      if other.Some? {
        Grouping(more, Diff(todo.value, other.value), DiffFields(todo.rest, incoming));
        more := CollectValueDiffs(todo.value, other.value, more);
      } else {
        Grouping(more, [], DiffFields(todo.rest, incoming));
      }
      todo := todo.rest;
    }
  }

  method CollectItemDiffs(recorded: Items, incoming: Items, diffs: seq<(string, string)>)
    returns (more: seq<(string, string)>)
    ensures more == diffs + DiffItems(recorded, incoming)
    decreases recorded
  {
    more := diffs;
    var a, b := recorded, incoming;
    ghost var goal := diffs + DiffItems(recorded, incoming);
    while a.Item? && b.Item?
      invariant a == recorded || a < recorded
      invariant more + DiffItems(a, b) == goal
      decreases a
    {
      Grouping(more, Diff(a.head, b.head), DiffItems(a.tail, b.tail));
      more := CollectValueDiffs(a.head, b.head, more);
      a, b := a.tail, b.tail;
    }
  }

  lemma Grouping<T>(a: seq<T>, b: seq<T>, c: seq<T>)
    ensures a + (b + c) == a + b + c && a + [] == a
  {
  }

  // ---------------------------------------------------------------- substitution

  function SubstituteText(text: string, subs: map<string, string>): string {
    if text in subs then subs[text] else text
  }

  function Substitute(v: Value, subs: map<string, string>): Value {
    match v
    case Str(text) => Str(SubstituteText(text, subs))
    case Arr(items) => Arr(SubstituteItems(items, subs))
    case Obj(fields) => Obj(SubstituteFields(fields, subs))
    case _ => v
  }

  function SubstituteItems(items: Items, subs: map<string, string>): Items {
    match items
    case Done => Done
    case Item(head, tail) => Item(Substitute(head, subs), SubstituteItems(tail, subs))
  }

  function SubstituteFields(fields: Fields, subs: map<string, string>): Fields {
    match fields
    case End => End
    case Field(key, value, rest) => Field(key, Substitute(value, subs), SubstituteFields(rest, subs))
  }

  // ---------------------------------------------------------------- shape and leaves

  /** The two values differ in string leaves only: same keys, lengths and other leaves. */
  predicate SameShape(a: Value, b: Value) {
    match (a, b)
    case (Str(_), Str(_)) => true
    case (Arr(x), Arr(y)) => SameItems(x, y)
    case (Obj(x), Obj(y)) => SameFields(x, y)
    case _ => a == b
  }

  predicate SameItems(a: Items, b: Items) {
    match (a, b)
    case (Done, Done) => true
    case (Item(h, t), Item(i, u)) => SameShape(h, i) && SameItems(t, u)
    case _ => false
  }

  predicate SameFields(a: Fields, b: Fields) {
    match (a, b)
    case (End, End) => true
    case (Field(k, v, r), Field(l, w, s)) => k == l && SameShape(v, w) && SameFields(r, s)
    case _ => false
  }

  /** Corresponding string leaves. */
  function Leaves(a: Value, b: Value): seq<(string, string)> {
    match (a, b)
    case (Str(x), Str(y)) => [(x, y)]
    case (Arr(x), Arr(y)) => LeavesItems(x, y)
    case (Obj(x), Obj(y)) => LeavesFields(x, y)
    case _ => []
  }

  function LeavesItems(a: Items, b: Items): seq<(string, string)> {
    if a.Item? && b.Item? then Leaves(a.head, b.head) + LeavesItems(a.tail, b.tail) else []
  }

  function LeavesFields(a: Fields, b: Fields): seq<(string, string)> {
    if a.Field? && b.Field? then Leaves(a.value, b.value) + LeavesFields(a.rest, b.rest) else []
  }

  function Changed(pairs: seq<(string, string)>): (r: seq<(string, string)>)
    ensures forall p :: p in r <==> p in pairs && p.0 != p.1
  {
    if pairs == [] then []
    else (if pairs[0].0 != pairs[0].1 then [pairs[0]] else []) + Changed(pairs[1..])
  }

  lemma {:induction false} ChangedConcat(a: seq<(string, string)>, b: seq<(string, string)>)
    ensures Changed(a + b) == Changed(a) + Changed(b)
  {
    if a == [] {
      assert a + b == b;
    } else {
      assert (a + b)[1..] == a[1..] + b;
      ChangedConcat(a[1..], b);
    }
  }

  /** For trees of one shape the difference lists the changed leaves, in order. */
  lemma {:induction false} DiffIsChangedLeaves(a: Value, b: Value)
    requires SameShape(a, b) && UniqueKeys(b)
    ensures Diff(a, b) == Changed(Leaves(a, b))
    decreases a
  {
    match (a, b) {
      case (Arr(x), Arr(y)) => DiffItemsIsChanged(x, y);
      case (Obj(x), Obj(y)) => DiffFieldsIsChanged(x, y, y);
      case _ =>
    }
  }

  lemma {:induction false} DiffItemsIsChanged(a: Items, b: Items)
    requires SameItems(a, b) && UniqueItems(b)
    ensures DiffItems(a, b) == Changed(LeavesItems(a, b))
    decreases a
  {
    if a.Item? {
      DiffIsChangedLeaves(a.head, b.head);
      DiffItemsIsChanged(a.tail, b.tail);
      ChangedConcat(Leaves(a.head, b.head), LeavesItems(a.tail, b.tail));
    }
  }

  /** `b` is the part of the incoming object `whole` that corresponds to `a`. */
  lemma {:induction false} DiffFieldsIsChanged(a: Fields, b: Fields, whole: Fields)
    requires SameFields(a, b) && UniqueFields(b)
    requires forall key :: key in Keys(b) ==> Get(whole, key) == Get(b, key)
    ensures DiffFields(a, whole) == Changed(LeavesFields(a, b))
    decreases a
  {
    if a.Field? {
      assert b.key in Keys(b);
      DiffIsChangedLeaves(a.value, b.value);
      DiffFieldsIsChanged(a.rest, b.rest, whole);
      ChangedConcat(Leaves(a.value, b.value), LeavesFields(a.rest, b.rest));
    }
  }

  /** Each leaf of `a` becomes the corresponding leaf of `b`. */
  ghost predicate Maps(pairs: seq<(string, string)>, subs: map<string, string>) {
    forall p :: p in pairs ==> SubstituteText(p.0, subs) == p.1
  }

  lemma {:induction false} SubstituteGives(a: Value, b: Value, subs: map<string, string>)
    requires SameShape(a, b)
    ensures Substitute(a, subs) == b <==> Maps(Leaves(a, b), subs)
    decreases a
  {
    match (a, b) {
      case (Str(x), Str(y)) => assert (x, y) in Leaves(a, b);
      case (Arr(x), Arr(y)) => SubstituteItemsGives(x, y, subs);
      case (Obj(x), Obj(y)) => SubstituteFieldsGives(x, y, subs);
      case _ =>
    }
  }

  lemma {:induction false} SubstituteItemsGives(a: Items, b: Items, subs: map<string, string>)
    requires SameItems(a, b)
    ensures SubstituteItems(a, subs) == b <==> Maps(LeavesItems(a, b), subs)
    decreases a
  {
    if a.Item? {
      SubstituteGives(a.head, b.head, subs);
      SubstituteItemsGives(a.tail, b.tail, subs);
    }
  }

  lemma {:induction false} SubstituteFieldsGives(a: Fields, b: Fields, subs: map<string, string>)
    requires SameFields(a, b)
    ensures SubstituteFields(a, subs) == b <==> Maps(LeavesFields(a, b), subs)
    decreases a
  {
    if a.Field? {
      SubstituteGives(a.value, b.value, subs);
      SubstituteFieldsGives(a.rest, b.rest, subs);
    }
  }

  /** Substitution changes string leaves only, each by the map. */
  lemma {:induction false} SubstituteKeepsShape(v: Value, subs: map<string, string>)
    ensures SameShape(v, Substitute(v, subs))
    ensures forall p :: p in Leaves(v, Substitute(v, subs)) ==> p.1 == SubstituteText(p.0, subs)
    decreases v
  {
    match v {
      case Arr(items) => SubstituteItemsKeepsShape(items, subs);
      case Obj(fields) => SubstituteFieldsKeepsShape(fields, subs);
      case _ =>
    }
  }

  lemma {:induction false} SubstituteItemsKeepsShape(items: Items, subs: map<string, string>)
    ensures SameItems(items, SubstituteItems(items, subs))
    ensures forall p :: p in LeavesItems(items, SubstituteItems(items, subs)) ==> p.1 == SubstituteText(p.0, subs)
    decreases items
  {
    if items.Item? {
      SubstituteKeepsShape(items.head, subs);
      SubstituteItemsKeepsShape(items.tail, subs);
    }
  }

  lemma {:induction false} SubstituteFieldsKeepsShape(fields: Fields, subs: map<string, string>)
    ensures SameFields(fields, SubstituteFields(fields, subs))
    ensures forall p :: p in LeavesFields(fields, SubstituteFields(fields, subs)) ==> p.1 == SubstituteText(p.0, subs)
    decreases fields
  {
    if fields.Field? {
      SubstituteKeepsShape(fields.value, subs);
      SubstituteFieldsKeepsShape(fields.rest, subs);
    }
  }

  // ---------------------------------------------------------------- reconstruction

  /** The pairs inserted one after the other: the last one for a key stays. */
  function SubsOf(pairs: seq<(string, string)>): (subs: map<string, string>)
    ensures forall p :: p in pairs ==> p.0 in subs
    ensures forall k :: k in subs ==> (k, subs[k]) in pairs
  {
    if pairs == [] then map[]
    else
      var n := |pairs| - 1;
      assert pairs == pairs[..n] + [pairs[n]];
      SubsOf(pairs[..n])[pairs[n].0 := pairs[n].1]
  }

  /** Equal recorded strings stand for equal incoming strings. */
  ghost predicate Consistent(pairs: seq<(string, string)>) {
    forall p, q :: p in pairs && q in pairs && p.0 == q.0 ==> p.1 == q.1
  }

  lemma ChangesMapIffConsistent(pairs: seq<(string, string)>)
    ensures Maps(pairs, SubsOf(Changed(pairs))) <==> Consistent(pairs)
  {
    var subs := SubsOf(Changed(pairs));
    if Consistent(pairs) {
      forall p | p in pairs ensures SubstituteText(p.0, subs) == p.1 {
        if p.0 in subs { assert (p.0, subs[p.0]) in Changed(pairs); }
      }
    }
  }

  /**
   * Substituting the collected differences into the recorded tree gives the
   * incoming tree if and only if equal recorded strings, changed or not, stand
   * for equal incoming strings.
   */
  lemma DiffThenSubstitute(recorded: Value, incoming: Value)
    requires SameShape(recorded, incoming) && UniqueKeys(incoming)
    ensures Substitute(recorded, SubsOf(Diff(recorded, incoming))) == incoming
       <==> Consistent(Leaves(recorded, incoming))
  {
    DiffIsChangedLeaves(recorded, incoming);
    ChangesMapIffConsistent(Leaves(recorded, incoming));
    SubstituteGives(recorded, incoming, SubsOf(Diff(recorded, incoming)));
  }
}
