/**
 * The canonical form of a request URI (`normalize_uri`): the path is kept and
 * the query's `key=value` pairs are sorted by key, the sort being stable.
 */
module UriCanonical {
  import opened Text

  datatype Param = Param(key: string, value: string)

  // ---------------------------------------------------------------- splitting

  predicate HasQuery(uri: string) { Find(uri, '?') < |uri| }

  function PathOf(uri: string): string { uri[..Find(uri, '?')] }

  function QueryOf(uri: string): string
    requires HasQuery(uri)
  {
    uri[Find(uri, '?') + 1..]
  }

  function WithQuery(path: string, query: string): string { path + "?" + query }

  lemma SplitWithQuery(path: string, query: string)
    requires '?' !in path
    ensures var u := WithQuery(path, query); HasQuery(u) && PathOf(u) == path && QueryOf(u) == query
  {
    var u := WithQuery(path, query);
    assert u[..|path|] == path;
    FindUnique(u, '?', |path|);
  }

  // ---------------------------------------------------------------- parameters

  /** `kv.splitn(2, '=')`: the text before the first `=`, and what follows it or nothing. */
  function ParseParam(kv: string): Param {
    var i := Find(kv, '=');
    Param(kv[..i], if i < |kv| then kv[i + 1..] else "")
  }

  /** The key is what stands before the first `=`; without one the whole piece is the key and the value is empty. */
  lemma ParamIs(kv: string, key: string, value: string)
    ensures ParseParam(kv) == Param(key, value) <==>
      '=' !in key && (kv == key + "=" + value || (kv == key && value == ""))
  {
    var i := Find(kv, '=');
    if kv == key + "=" + value && '=' !in key {
      ParsePrintParam(Param(key, value));
    } else if kv == key && '=' !in key {
      assert kv[..|kv|] == kv;
      FindUnique(kv, '=', |kv|);
    }
    if i < |kv| { assert kv == kv[..i] + "=" + kv[i + 1..]; }
  }

  function PrintParam(p: Param): string { p.key + "=" + p.value }

  function ParseParams(kvs: seq<string>): (ps: seq<Param>)
    ensures |ps| == |kvs|
    ensures forall i :: 0 <= i < |ps| ==> ps[i] == ParseParam(kvs[i])
  {
    if kvs == [] then [] else [ParseParam(kvs[0])] + ParseParams(kvs[1..])
  }

  function PrintParams(ps: seq<Param>): (kvs: seq<string>)
    ensures |kvs| == |ps|
    ensures forall i :: 0 <= i < |ps| ==> kvs[i] == PrintParam(ps[i])
  {
    if ps == [] then [] else [PrintParam(ps[0])] + PrintParams(ps[1..])
  }

  function ParseQuery(query: string): seq<Param> { ParseParams(Split(query, '&')) }

  function PrintQuery(ps: seq<Param>): string { Join(PrintParams(ps), '&') }

  /** What every parsed parameter satisfies: no `&` at all, no `=` in the key. */
  ghost predicate Printable(ps: seq<Param>) {
    forall p :: p in ps ==> '=' !in p.key && '&' !in p.key && '&' !in p.value
  }

  lemma ParsedIsPrintable(query: string)
    ensures Printable(ParseQuery(query))
  {
    var kvs := Split(query, '&');
    var ps := ParseQuery(query);
    forall p | p in ps
      ensures '=' !in p.key && '&' !in p.key && '&' !in p.value
    {
      var i :| 0 <= i < |ps| && ps[i] == p;
      assert '&' !in kvs[i];
    }
  }

  lemma ParsePrintParam(p: Param)
    requires '=' !in p.key
    ensures ParseParam(PrintParam(p)) == p
  {
    var kv := PrintParam(p);
    assert kv[..|p.key|] == p.key;
    FindUnique(kv, '=', |p.key|);
  }

  /** Printing and parsing back gives the parameters that were printed. */
  lemma ParsePrint(ps: seq<Param>)
    requires ps != [] && Printable(ps)
    ensures Split(PrintQuery(ps), '&') == PrintParams(ps)
    ensures ParseQuery(PrintQuery(ps)) == ps
  {
    var kvs := PrintParams(ps);
    forall kv | kv in kvs
      ensures '&' !in kv
    {
      var i :| 0 <= i < |kvs| && kvs[i] == kv;
      assert ps[i] in ps;
    }
    SplitJoin(kvs, '&');
    forall i | 0 <= i < |ps|
      ensures ParseParam(kvs[i]) == ps[i]
    {
      assert ps[i] in ps;
      ParsePrintParam(ps[i]);
    }
    assert ParseParams(kvs) == ps;
  }

  // ---------------------------------------------------------------- stable sort

  /** All values given for `key`, in order. */
  function ValuesFor(ps: seq<Param>, key: string): seq<string> {
    if ps == [] then []
    else (if ps[0].key == key then [ps[0].value] else []) + ValuesFor(ps[1..], key)
  }

  ghost predicate Sorted(ps: seq<Param>) {
    forall i, j :: 0 <= i < j < |ps| ==> LexLe(ps[i].key, ps[j].key)
  }

  /** Puts `p` before the first parameter whose key is not smaller. */
  function Insert(p: Param, ps: seq<Param>): (r: seq<Param>)
    ensures |r| == |ps| + 1
    ensures multiset(r) == multiset([p]) + multiset(ps)
  {
    if ps == [] || LexLe(p.key, ps[0].key) then [p] + ps
    else
      assert ps == [ps[0]] + ps[1..];
      [ps[0]] + Insert(p, ps[1..])
  }

  /** `sort_by_key` on the key: any stable sort computes this. */
  function StableSort(ps: seq<Param>): (r: seq<Param>)
    ensures |r| == |ps|
    ensures multiset(r) == multiset(ps)
  {
    if ps == [] then []
    else
      assert ps == [ps[0]] + ps[1..];
      Insert(ps[0], StableSort(ps[1..]))
  }

  lemma {:induction false} InsertSorted(p: Param, ps: seq<Param>)
    requires Sorted(ps)
    ensures Sorted(Insert(p, ps))
  {
    if ps == [] {
    } else if LexLe(p.key, ps[0].key) {
      forall j | 0 <= j < |ps| ensures LexLe(p.key, ps[j].key) {
        if j > 0 { LexTransitive(p.key, ps[0].key, ps[j].key); }
      }
    } else {
      LexTotal(p.key, ps[0].key);
      InsertSorted(p, ps[1..]);
      var rest := Insert(p, ps[1..]);
      forall x | x in rest ensures LexLe(ps[0].key, x.key) {
        assert x in multiset(rest);
        if x != p {
          assert x in ps[1..];
        }
      }
      forall j | 0 <= j < |rest| ensures LexLe(ps[0].key, rest[j].key) {
        assert rest[j] in rest;
      }
    }
  }

  lemma ValuesForCons(p: Param, ps: seq<Param>, key: string)
    ensures ValuesFor([p] + ps, key) == (if p.key == key then [p.value] else []) + ValuesFor(ps, key)
  {
    assert ([p] + ps)[1..] == ps;
  }

  lemma {:induction false} InsertValues(p: Param, ps: seq<Param>, key: string)
    ensures ValuesFor(Insert(p, ps), key) == ValuesFor([p] + ps, key)
  {
    if ps != [] && !LexLe(p.key, ps[0].key) {
      InsertValues(p, ps[1..], key);
      ValuesForCons(ps[0], Insert(p, ps[1..]), key);
      ValuesForCons(p, ps[1..], key);
      ValuesForCons(p, ps, key);
      LexAntisymmetricIfEqual(p.key, ps[0].key);
    }
  }

  lemma {:induction false} LexReflexive(a: string)
    ensures LexLe(a, a)
  {
    LexTotal(a, a);
  }

  lemma LexAntisymmetricIfEqual(a: string, b: string)
    requires !LexLe(a, b)
    ensures a != b
  {
    LexReflexive(a);
  }

  lemma {:induction false} SortIsSorted(ps: seq<Param>)
    ensures Sorted(StableSort(ps))
  {
    if ps != [] {
      SortIsSorted(ps[1..]);
      InsertSorted(ps[0], StableSort(ps[1..]));
    }
  }

  /** Stability: sorting keeps the order of the values of each key. */
  lemma {:induction false} SortIsStable(ps: seq<Param>, key: string)
    ensures ValuesFor(StableSort(ps), key) == ValuesFor(ps, key)
  {
    if ps != [] {
      var rest := StableSort(ps[1..]);
      InsertValues(ps[0], rest, key);
      assert ([ps[0]] + rest)[1..] == rest;
      SortIsStable(ps[1..], key);
    }
  }

  lemma {:induction false} ValuesForMember(ps: seq<Param>, key: string)
    ensures ValuesFor(ps, key) != [] <==> exists i :: 0 <= i < |ps| && ps[i].key == key
  {
    if ps != [] {
      ValuesForMember(ps[1..], key);
      if i :| 0 <= i < |ps[1..]| && ps[1..][i].key == key { assert ps[i + 1].key == key; }
      if i :| 0 <= i < |ps| && ps[i].key == key && i > 0 { assert ps[1..][i - 1].key == key; }
    }
  }

  lemma HeadKeyIsLeast(a: seq<Param>, b: seq<Param>)
    requires a != [] && b != [] && Sorted(b)
    requires ValuesFor(a, a[0].key) == ValuesFor(b, a[0].key)
    ensures LexLe(b[0].key, a[0].key)
  {
    ValuesForMember(a, a[0].key);
    ValuesForMember(b, a[0].key);
    var j :| 0 <= j < |b| && b[j].key == a[0].key;
    LexReflexive(b[0].key);
  }

  lemma SameHeadSameTail(a: seq<Param>, b: seq<Param>, key: string)
    requires a != [] && b != [] && a[0].key == b[0].key
    requires ValuesFor(a, a[0].key) == ValuesFor(b, a[0].key)
    requires ValuesFor(a, key) == ValuesFor(b, key)
    ensures a[0].value == b[0].value
    ensures ValuesFor(a[1..], key) == ValuesFor(b[1..], key)
  {
    assert ValuesFor(a, a[0].key)[0] == a[0].value;
    assert ValuesFor(b, a[0].key)[0] == b[0].value;
    if key == a[0].key {
      assert ValuesFor(a, key)[1..] == ValuesFor(a[1..], key);
      assert ValuesFor(b, key)[1..] == ValuesFor(b[1..], key);
    } else {
      assert ValuesFor(a, key) == ValuesFor(a[1..], key);
      assert ValuesFor(b, key) == ValuesFor(b[1..], key);
    }
  }

  /** Sorted parameter lists are determined by the values of each key. */
  lemma {:induction false} SortedUnique(a: seq<Param>, b: seq<Param>)
    requires Sorted(a) && Sorted(b)
    requires forall k :: ValuesFor(a, k) == ValuesFor(b, k)
    ensures a == b
    decreases |a|
  {
    if a == [] {
      if b != [] {
        ValuesForMember(b, b[0].key);
        assert false;
      }
    } else {
      ValuesForMember(a, a[0].key);
      ValuesForMember(b, a[0].key);
      HeadKeyIsLeast(a, b);
      HeadKeyIsLeast(b, a);
      LexAntisymmetric(a[0].key, b[0].key);
      forall k ensures a[0].value == b[0].value && ValuesFor(a[1..], k) == ValuesFor(b[1..], k) {
        SameHeadSameTail(a, b, k);
      }
      SortedUnique(a[1..], b[1..]);
      assert a == [a[0]] + a[1..] && b == [b[0]] + b[1..];
    }
  }

  // ---------------------------------------------------------------- the canonical form

  function NormalizeUri(uri: string): string {
    if !HasQuery(uri) then uri
    else WithQuery(PathOf(uri), PrintQuery(StableSort(ParseQuery(QueryOf(uri)))))
  }

  /** Same path, both with or both without a query, and per key the same sequence of values. */
  ghost predicate SameResource(u: string, v: string) {
    && PathOf(u) == PathOf(v)
    && (HasQuery(u) <==> HasQuery(v))
    && (HasQuery(u) ==>
          forall k :: ValuesFor(ParseQuery(QueryOf(u)), k) == ValuesFor(ParseQuery(QueryOf(v)), k))
  }

  lemma SortKeepsPrintable(ps: seq<Param>)
    requires Printable(ps)
    ensures Printable(StableSort(ps))
  {
    forall p | p in StableSort(ps) ensures p in ps {
      assert p in multiset(StableSort(ps));
    }
  }

  /** Parsing a normalised URI gives back its path and its stably sorted parameters. */
  lemma ParseNormalized(uri: string)
    requires HasQuery(uri)
    ensures HasQuery(NormalizeUri(uri))
    ensures PathOf(NormalizeUri(uri)) == PathOf(uri)
    ensures ParseQuery(QueryOf(NormalizeUri(uri))) == StableSort(ParseQuery(QueryOf(uri)))
  {
    var ps := ParseQuery(QueryOf(uri));
    ParsedIsPrintable(QueryOf(uri));
    SortKeepsPrintable(ps);
    SplitWithQuery(PathOf(uri), PrintQuery(StableSort(ps)));
    ParsePrint(StableSort(ps));
  }

  lemma NormalizeKeepsResource(uri: string)
    ensures SameResource(NormalizeUri(uri), uri)
  {
    if HasQuery(uri) {
      ParseNormalized(uri);
      forall k { SortIsStable(ParseQuery(QueryOf(uri)), k); }
    }
  }

  /** The exact canonical form: equal normal forms are precisely equal resources. */
  lemma CanonicalForm(u: string, v: string)
    ensures NormalizeUri(u) == NormalizeUri(v) <==> SameResource(u, v)
  {
    NormalizeKeepsResource(u);
    NormalizeKeepsResource(v);
    if SameResource(u, v) {
      if HasQuery(u) {
        var a, b := ParseQuery(QueryOf(u)), ParseQuery(QueryOf(v));
        forall k ensures ValuesFor(StableSort(a), k) == ValuesFor(StableSort(b), k) {
          SortIsStable(a, k);
          SortIsStable(b, k);
        }
        SortIsSorted(a);
        SortIsSorted(b);
        SortedUnique(StableSort(a), StableSort(b));
      } else {
        assert u == PathOf(u) && v == PathOf(v);
      }
    }
  }

  lemma NormalizeIdempotent(uri: string)
    ensures NormalizeUri(NormalizeUri(uri)) == NormalizeUri(uri)
  {
    NormalizeKeepsResource(uri);
    CanonicalForm(NormalizeUri(uri), uri);
  }
}
