/**
 * Which tenant a request belongs to, and the library key its URI is looked up
 * under: the `_tenant` parameter is removed first, then the URI is normalised.
 */
module Tenancy {
  import opened Defaults
  import opened Options
  import opened Text
  import opened UriCanonical
  import opened WordBoundary

  const TENANT_KEY := "_tenant"
  const MAX_TENANT_LEN := 128

  // ---------------------------------------------------------------- removing the parameter

  function KeyOf(kv: string): string { kv[..Find(kv, '=')] }

  function WithoutTenant(kvs: seq<string>): (kept: seq<string>)
    ensures forall kv :: kv in kept ==> kv in kvs
  {
    if kvs == [] then []
    else (if KeyOf(kvs[0]) != TENANT_KEY then [kvs[0]] else []) + WithoutTenant(kvs[1..])
  }

  function StripTenantParam(uri: string): string {
    if !HasQuery(uri) then uri
    else
      var kept := WithoutTenant(Split(QueryOf(uri), '&'));
      if kept == [] then PathOf(uri) else WithQuery(PathOf(uri), Join(kept, '&'))
  }

  function LookupKey(uri: string): string { NormalizeUri(StripTenantParam(uri)) }

  // ---------------------------------------------------------------- stripping commutes with normalising

  function OtherParams(ps: seq<Param>): (r: seq<Param>)
    ensures forall p :: p in r ==> p in ps
  {
    if ps == [] then []
    else (if ps[0].key != TENANT_KEY then [ps[0]] else []) + OtherParams(ps[1..])
  }

  lemma {:induction false} ParseWithoutTenant(kvs: seq<string>)
    ensures ParseParams(WithoutTenant(kvs)) == OtherParams(ParseParams(kvs))
  {
    if kvs != [] {
      var ps, rest := ParseParams(kvs), WithoutTenant(kvs[1..]);
      ParseWithoutTenant(kvs[1..]);
      assert ps[1..] == ParseParams(kvs[1..]);
      assert ([kvs[0]] + rest)[1..] == rest;
    }
  }

  lemma {:induction false} PrintOtherParams(ps: seq<Param>)
    requires Printable(ps)
    ensures WithoutTenant(PrintParams(ps)) == PrintParams(OtherParams(ps))
  {
    if ps != [] {
      var kvs, rest := PrintParams(ps), OtherParams(ps[1..]);
      assert ps[0] in ps;
      ParsePrintParam(ps[0]);
      assert KeyOf(kvs[0]) == ps[0].key;
      assert kvs[1..] == PrintParams(ps[1..]);
      PrintOtherParams(ps[1..]);
      assert ([ps[0]] + rest)[1..] == rest;
    }
  }

  lemma {:induction false} OtherParamsValues(ps: seq<Param>, key: string)
    ensures ValuesFor(OtherParams(ps), key) == if key == TENANT_KEY then [] else ValuesFor(ps, key)
  {
    if ps != [] {
      var rest := OtherParams(ps[1..]);
      OtherParamsValues(ps[1..], key);
      if ps[0].key == TENANT_KEY {
        assert OtherParams(ps) == rest;
      } else {
        assert ([ps[0]] + rest)[1..] == rest;
      }
    }
  }

  lemma {:induction false} OtherParamsSorted(ps: seq<Param>)
    requires Sorted(ps)
    ensures Sorted(OtherParams(ps))
  {
    if ps != [] {
      OtherParamsSorted(ps[1..]);
      forall p | p in OtherParams(ps[1..]) ensures LexLe(ps[0].key, p.key) {
        assert p in ps[1..];
      }
    }
  }

  lemma OtherParamsOfSort(ps: seq<Param>)
    ensures OtherParams(StableSort(ps)) == StableSort(OtherParams(ps))
  {
    SortIsSorted(ps);
    OtherParamsSorted(StableSort(ps));
    SortIsSorted(OtherParams(ps));
    forall k
      ensures ValuesFor(OtherParams(StableSort(ps)), k) == ValuesFor(StableSort(OtherParams(ps)), k)
    {
      OtherParamsValues(StableSort(ps), k);
      SortIsStable(ps, k);
      SortIsStable(OtherParams(ps), k);
      OtherParamsValues(ps, k);
    }
    SortedUnique(OtherParams(StableSort(ps)), StableSort(OtherParams(ps)));
  }

  lemma PathHasNoQuery(uri: string)
    ensures !HasQuery(PathOf(uri))
  {
    FindUnique(PathOf(uri), '?', |PathOf(uri)|);
  }

  /** The two halves below meet in `Print(OtherParams(Sort(Parse(query))))`. */
  lemma StripOfNormalized(uri: string)
    requires HasQuery(uri)
    ensures var others := OtherParams(StableSort(ParseQuery(QueryOf(uri))));
      StripTenantParam(NormalizeUri(uri)) ==
      if others == [] then PathOf(uri) else WithQuery(PathOf(uri), PrintQuery(others))
  {
    var ps := StableSort(ParseQuery(QueryOf(uri)));
    ParsedIsPrintable(QueryOf(uri));
    SortKeepsPrintable(ParseQuery(QueryOf(uri)));
    SplitWithQuery(PathOf(uri), PrintQuery(ps));
    ParsePrint(ps);
    PrintOtherParams(ps);
  }

  lemma NormalizedOfStrip(uri: string)
    requires HasQuery(uri)
    ensures var others := StableSort(OtherParams(ParseQuery(QueryOf(uri))));
      NormalizeUri(StripTenantParam(uri)) ==
      if others == [] then PathOf(uri) else WithQuery(PathOf(uri), PrintQuery(others))
  {
    var kvs := Split(QueryOf(uri), '&');
    var kept := WithoutTenant(kvs);
    ParseWithoutTenant(kvs);
    PathHasNoQuery(uri);
    if kept != [] {
      SplitWithQuery(PathOf(uri), Join(kept, '&'));
      SplitJoin(kept, '&');
    }
  }

  lemma StripCommutesWithNormalize(uri: string)
    ensures StripTenantParam(NormalizeUri(uri)) == NormalizeUri(StripTenantParam(uri))
  {
    if HasQuery(uri) {
      StripOfNormalized(uri);
      NormalizedOfStrip(uri);
      OtherParamsOfSort(ParseQuery(QueryOf(uri)));
    }
  }

  /** The values that a URI gives for a parameter. */
  function Given(uri: string, key: string): seq<string> {
    if HasQuery(uri) then ValuesFor(ParseQuery(QueryOf(uri)), key) else []
  }

  lemma GivenAfterStrip(uri: string, key: string)
    ensures PathOf(StripTenantParam(uri)) == PathOf(uri)
    ensures Given(StripTenantParam(uri), key) == if key == TENANT_KEY then [] else Given(uri, key)
  {
    PathHasNoQuery(uri);
    if HasQuery(uri) {
      var kvs := Split(QueryOf(uri), '&');
      var kept := WithoutTenant(kvs);
      ParseWithoutTenant(kvs);
      OtherParamsValues(ParseParams(kvs), key);
      if kept != [] {
        SplitWithQuery(PathOf(uri), Join(kept, '&'));
        SplitJoin(kept, '&');
      } else {
        assert PathOf(PathOf(uri)) == PathOf(uri);
      }
    }
  }

  /** A query has at least one parameter. */
  lemma SomeGiven(uri: string)
    ensures HasQuery(uri) <==> exists key :: Given(uri, key) != []
  {
    if HasQuery(uri) {
      var ps := ParseQuery(QueryOf(uri));
      ValuesForMember(ps, ps[0].key);
      assert Given(uri, ps[0].key) != [];
    }
  }

  /** Two URIs are looked up alike exactly when they have the path and, but for `_tenant`, the values of each parameter. */
  lemma LookupKeyIff(u: string, v: string)
    ensures LookupKey(u) == LookupKey(v) <==>
      PathOf(u) == PathOf(v) && forall key :: key != "_tenant" ==> Given(u, key) == Given(v, key)
  {
    var a, b := StripTenantParam(u), StripTenantParam(v);
    CanonicalForm(a, b);
    SomeGiven(a);
    SomeGiven(b);
    forall key
      ensures Given(a, key) == Given(b, key) <==> key == "_tenant" || Given(u, key) == Given(v, key)
    {
      GivenAfterStrip(u, key);
      GivenAfterStrip(v, key);
    }
    GivenAfterStrip(u, "");
    GivenAfterStrip(v, "");
    SameGiven(a, b);
  }

  lemma SameGiven(u: string, v: string)
    ensures SameResource(u, v) <==> PathOf(u) == PathOf(v) && forall key :: Given(u, key) == Given(v, key)
  {
    SomeGiven(u);
    SomeGiven(v);
    if SameResource(u, v) {
      forall key ensures Given(u, key) == Given(v, key) {}
    }
    if PathOf(u) == PathOf(v) && forall key :: Given(u, key) == Given(v, key) {
      if HasQuery(u) {
        forall k ensures ValuesFor(ParseQuery(QueryOf(u)), k) == ValuesFor(ParseQuery(QueryOf(v)), k) {
          assert Given(u, k) == Given(v, k);
        }
      }
    }
  }

  // ---------------------------------------------------------------- resolving the tenant

  /** White space of any script. */
  predicate IsSpace(c: char) {
    var n := c as int;
    || c == ' ' || '\t' <= c <= '\r' || n == 0x85 || n == 0xA0 || n == 0x1680 || 0x2000 <= n <= 0x200A
    || n == 0x2028 || n == 0x2029 || n == 0x202F || n == 0x205F || n == 0x3000
  }

  function TrimStart(s: string): (r: string)
    ensures |r| <= |s| && (r != [] ==> !IsSpace(r[0]))
  {
    if s == [] || !IsSpace(s[0]) then s else TrimStart(s[1..])
  }

  function TrimEnd(s: string): (r: string)
    ensures |r| <= |s| && r == s[..|r|] && (r != [] ==> !IsSpace(r[|r| - 1]))
  {
    if s == [] || !IsSpace(s[|s| - 1]) then s else TrimEnd(s[..|s| - 1])
  }

  function Trim(s: string): string { TrimEnd(TrimStart(s)) }

  ghost predicate AllSpace(s: string) { forall i :: 0 <= i < |s| ==> IsSpace(s[i]) }

  lemma {:induction false} TrimStartIs(s: string)
    ensures exists a :: AllSpace(a) && s == a + TrimStart(s)
  {
    if s != [] && IsSpace(s[0]) {
      TrimStartIs(s[1..]);
      var a :| AllSpace(a) && s[1..] == a + TrimStart(s[1..]);
      assert AllSpace([s[0]] + a) && s == ([s[0]] + a) + TrimStart(s);
    } else {
      assert AllSpace("") && s == "" + TrimStart(s);
    }
  }

  lemma {:induction false} TrimEndIs(s: string)
    ensures exists b :: AllSpace(b) && s == TrimEnd(s) + b
  {
    var n := |s| - 1;
    if s != [] && IsSpace(s[n]) {
      TrimEndIs(s[..n]);
      var b :| AllSpace(b) && s[..n] == TrimEnd(s[..n]) + b;
      assert AllSpace(b + [s[n]]) && s == TrimEnd(s) + (b + [s[n]]);
    } else {
      assert AllSpace("") && s == TrimEnd(s) + "";
    }
  }

  /** Trimming takes white space from both ends, and all of it. */
  lemma TrimIs(s: string)
    ensures exists a, b :: AllSpace(a) && AllSpace(b) && s == a + Trim(s) + b
    ensures Trim(s) != "" ==> !IsSpace(Trim(s)[0]) && !IsSpace(Trim(s)[|Trim(s)| - 1])
  {
    var rest := TrimStart(s);
    TrimStartIs(s);
    TrimEndIs(rest);
    var a :| AllSpace(a) && s == a + rest;
    var b :| AllSpace(b) && rest == TrimEnd(rest) + b;
    Between(s, a, rest, TrimEnd(rest), b);
    TrimmedEnds(s);
  }

  lemma Between(s: string, a: string, rest: string, middle: string, b: string)
    requires AllSpace(a) && AllSpace(b) && s == a + rest && rest == middle + b
    ensures exists x, y :: AllSpace(x) && AllSpace(y) && s == x + middle + y
  {
    assert s == a + middle + b;
  }

  /** Text of visible ASCII characters names itself, if it is not too long; spaces and tabs around it do not count. */
  lemma VisibleNamesItself(s: string, before: string, after: string)
    requires 0 < |s| <= 128 && forall i :: 0 <= i < |s| ==> '!' <= s[i] <= '~'
    requires forall c :: c in before || c in after ==> c == ' ' || c == '\t'
    ensures ClampTenant(before + s + after) == Some(s)
  {
    var raw := before + s + after;
    TrimSpaces(before, s, after);
    assert AllAscii(s);
  }

  lemma TrimSpaces(before: string, s: string, after: string)
    requires s != "" && !IsSpace(s[0]) && !IsSpace(s[|s| - 1])
    requires forall c :: c in before || c in after ==> IsSpace(c)
    ensures Trim(before + s + after) == s
  {
    TrimStartSpaces(before, s + after);
    assert before + s + after == before + (s + after);
    TrimEndSpaces(s, after);
  }

  lemma {:induction false} TrimStartSpaces(before: string, s: string)
    requires s != "" && !IsSpace(s[0]) && forall c :: c in before ==> IsSpace(c)
    ensures TrimStart(before + s) == s
  {
    if before == "" {
      assert before + s == s;
    } else {
      assert (before + s)[1..] == before[1..] + s;
      TrimStartSpaces(before[1..], s);
    }
  }

  lemma {:induction false} TrimEndSpaces(s: string, after: string)
    requires s != "" && !IsSpace(s[|s| - 1]) && forall c :: c in after ==> IsSpace(c)
    ensures TrimEnd(s + after) == s
  {
    if after == "" {
      assert s + after == s;
    } else {
      var n := |after| - 1;
      assert (s + after)[..|s| + n] == s + after[..n];
      TrimEndSpaces(s, after[..n]);
    }
  }

  /** How many characters the first `n` bytes of a text are, unless they end inside a character. */
  function CharsOf(s: string, n: nat): Option<nat> {
    if n == 0 then Some(0)
    else if s == "" || |Utf8(s[0])| > n then None
    else
      var rest := CharsOf(s[1..], n - |Utf8(s[0])|);
      if rest.None? then None else Some(rest.value + 1)
  }

  /** The tenant, or nothing when the cut at 128 bytes falls inside a character. */
  function ClampTenant(raw: string): Option<string> {
    var trimmed := Trim(raw);
    if trimmed == "" then Some(GLOBAL_TENANT)
    else if ByteLen(trimmed) > MAX_TENANT_LEN then
      var k := CharsOf(trimmed, MAX_TENANT_LEN);
      if k.Some? && k.value <= |trimmed| then Some(trimmed[..k.value]) else None
    else Some(trimmed)
  }

  lemma BytesOfPrefix(s: string, k: nat)
    requires 0 < k <= |s|
    ensures ByteLen(s[..k]) == |Utf8(s[0])| + ByteLen(s[1..][..k - 1])
  {
    var prefix := s[..k];
    assert prefix[0] == s[0] && prefix[1..] == s[1..][..k - 1];
  }

  /** They are `k` characters exactly when the prefix of `k` characters has `n` bytes. */
  lemma {:induction false} CharsOfIff(s: string, n: nat, k: nat)
    requires k <= |s|
    ensures CharsOf(s, n) == Some(k) <==> ByteLen(s[..k]) == n
    decreases |s|
  {
    if k == 0 {
      assert s[..0] == "";
      CharsOfPositive(s, n);
    } else {
      BytesOfPrefix(s, k);
      if |Utf8(s[0])| <= n { CharsOfIff(s[1..], n - |Utf8(s[0])|, k - 1); }
    }
  }

  lemma CharsOfPositive(s: string, n: nat)
    ensures CharsOf(s, n) == Some(0) <==> n == 0
  {
  }

  lemma {:induction false} CharsOfShort(s: string, n: nat)
    ensures CharsOf(s, n).Some? ==> CharsOf(s, n).value <= |s|
  {
    if n > 0 && s != "" && |Utf8(s[0])| <= n { CharsOfShort(s[1..], n - |Utf8(s[0])|); }
  }

  /**
   * A text names a tenant unless it is longer than 128 bytes and these end
   * inside a character; the tenant is then the trimmed text, or its first 128
   * bytes if it is longer, or the default if it is empty.
   */
  lemma TenantIsClamped(raw: string)
    ensures ClampTenant(raw).None? <==>
      ByteLen(Trim(raw)) > 128 && forall k :: 0 <= k <= |Trim(raw)| ==> ByteLen(Trim(raw)[..k]) != 128
    ensures ClampTenant(raw).Some? ==>
      var t := ClampTenant(raw).value;
      && t != "" && ByteLen(t) <= 128
      && if Trim(raw) == "" then t == "_global"
         else if ByteLen(Trim(raw)) <= 128 then t == Trim(raw)
         else t <= Trim(raw) && ByteLen(t) == 128
  {
    var trimmed := Trim(raw);
    GlobalIsShort();
    if ByteLen(trimmed) > MAX_TENANT_LEN {
      CharsOfShort(trimmed, MAX_TENANT_LEN);
      forall k | 0 <= k <= |trimmed|
        ensures CharsOf(trimmed, MAX_TENANT_LEN) == Some(k) <==> ByteLen(trimmed[..k]) == MAX_TENANT_LEN
      {
        CharsOfIff(trimmed, MAX_TENANT_LEN, k);
      }
      assert trimmed[..0] == "";
    }
  }

  /** The shape of a tenant that was named. */
  lemma ClampedIs(raw: string, t: string)
    requires ClampTenant(raw) == Some(t)
    ensures t != "" && ByteLen(t) <= 128
    ensures t == "_global" || t == Trim(raw) || (t <= Trim(raw) && ByteLen(t) < ByteLen(Trim(raw)) && ByteLen(Trim(raw)) > 128)
  {
    TenantIsClamped(raw);
  }

  lemma GlobalIsShort()
    ensures ByteLen(GLOBAL_TENANT) == 7
  {
    assert AllAscii(GLOBAL_TENANT);
  }

  /** An ASCII text always does. */
  lemma AsciiNamesTenant(raw: string)
    requires AllAscii(raw)
    ensures ClampTenant(raw).Some?
  {
    TenantIsClamped(raw);
    TrimIsAscii(raw);
    var trimmed := Trim(raw);
    if ByteLen(trimmed) > MAX_TENANT_LEN {
      assert AllAscii(trimmed[..MAX_TENANT_LEN]);
    }
  }

  lemma {:induction false} TrimStartIsAscii(s: string)
    requires AllAscii(s)
    ensures AllAscii(TrimStart(s))
  {
    if s != [] && IsSpace(s[0]) { TrimStartIsAscii(s[1..]); }
  }

  lemma TrimIsAscii(s: string)
    requires AllAscii(s)
    ensures AllAscii(Trim(s))
  {
    TrimStartIsAscii(s);
  }

  lemma TrimFixed(s: string)
    requires s != "" ==> !IsSpace(s[0]) && !IsSpace(s[|s| - 1])
    ensures Trim(s) == s
  {
  }

  /** Clamping twice is clamping once, unless the cut leaves white space at the end. */
  lemma ClampTwice(raw: string, c: string)
    requires ClampTenant(raw) == Some(c)
    ensures c != "" && (ClampTenant(c) == Some(c) <==> !IsSpace(c[|c| - 1]))
    ensures IsSpace(c[|c| - 1]) ==> ByteLen(Trim(raw)) > 128
  {
    ClampedText(raw, c);
    ClampAgain(c);
  }

  lemma ClampedText(raw: string, c: string)
    requires ClampTenant(raw) == Some(c)
    ensures c != "" && ByteLen(c) <= 128 && !IsSpace(c[0]) && (IsSpace(c[|c| - 1]) ==> ByteLen(Trim(raw)) > 128)
  {
    ClampedIs(raw, c);
    TrimmedEnds(raw);
  }

  lemma ClampAgain(c: string)
    requires c != "" && ByteLen(c) <= 128 && !IsSpace(c[0])
    ensures ClampTenant(c) == Some(c) <==> !IsSpace(c[|c| - 1])
  {
    if IsSpace(c[|c| - 1]) {
      TrimEndKeepsFirst(c);
      TrimNotLonger(c);
    } else {
      TrimFixed(c);
    }
  }

  lemma TrimmedEnds(raw: string)
    ensures Trim(raw) != "" ==> !IsSpace(Trim(raw)[0]) && !IsSpace(Trim(raw)[|Trim(raw)| - 1])
  {
  }

  lemma TrimNotLonger(s: string)
    requires TrimStart(s) == s
    ensures ByteLen(Trim(s)) <= ByteLen(s)
    ensures s != "" && IsSpace(s[|s| - 1]) ==> |Trim(s)| < |s|
  {
    var t := Trim(s);
    BytesConcat(t, s[|t|..]);
    assert s == t + s[|t|..];
  }

  lemma {:induction false} TrimEndKeepsFirst(s: string)
    requires s != "" && !IsSpace(s[0])
    ensures TrimEnd(s) != ""
  {
    if IsSpace(s[|s| - 1]) { TrimEndKeepsFirst(s[..|s| - 1]); }
  }

  predicate NamesTenant(kv: string) {
    KeyOf(kv) == TENANT_KEY && |KeyOf(kv)| < |kv|
  }

  function TenantValue(kv: string): string
    requires NamesTenant(kv)
  {
    kv[|KeyOf(kv)| + 1..]
  }

  /** The value of the first `_tenant=value` piece. */
  function FirstTenant(kvs: seq<string>): Option<string> {
    if kvs == [] then None
    else if NamesTenant(kvs[0]) then Some(TenantValue(kvs[0]))
    else FirstTenant(kvs[1..])
  }

  function TenantOf(header: Option<string>, query: Option<string>): Option<string> {
    if header.Some? then ClampTenant(header.value)
    else if query.None? then Some(GLOBAL_TENANT)
    else
      var named := FirstTenant(Split(query.value, '&'));
      if named.Some? then ClampTenant(named.value) else Some(GLOBAL_TENANT)
  }

  /** The piece at `i` begins with `_tenant=`, and no earlier one does. */
  ghost predicate NamedFirst(kvs: seq<string>, i: int) {
    0 <= i < |kvs| && "_tenant=" <= kvs[i] && forall j :: 0 <= j < i ==> !("_tenant=" <= kvs[j])
  }

  ghost predicate NoneNamed(kvs: seq<string>) {
    forall i :: 0 <= i < |kvs| ==> !("_tenant=" <= kvs[i])
  }

  lemma NamesTenantIff(kv: string)
    ensures NamesTenant(kv) <==> "_tenant=" <= kv
    ensures NamesTenant(kv) ==> TenantValue(kv) == kv[8..]
  {
    if "_tenant=" <= kv {
      assert kv[..8] == "_tenant=";
      assert kv[..7] == kv[..8][..7] == TENANT_KEY && kv[7] == kv[..8][7];
      FindUnique(kv, '=', 7);
    }
    if NamesTenant(kv) { assert kv[..8] == kv[..7] + [kv[7]]; }
  }

  /** In terms of the pieces' text: none names a tenant, or the first that does is used. */
  lemma {:induction false} FirstTenantIs(kvs: seq<string>)
    ensures NoneNamed(kvs) ==> FirstTenant(kvs) == None
    ensures forall i :: NamedFirst(kvs, i) ==> FirstTenant(kvs) == Some(kvs[i][8..])
  {
    if kvs != [] {
      NamesTenantIff(kvs[0]);
      if !("_tenant=" <= kvs[0]) {
        var rest := kvs[1..];
        FirstTenantIs(rest);
        assert forall j :: 0 < j < |kvs| ==> kvs[j] == rest[j - 1];
        forall i | NamedFirst(kvs, i) ensures NamedFirst(rest, i - 1) && rest[i - 1] == kvs[i] {
          assert forall j :: 0 <= j < i - 1 ==> rest[j] == kvs[j + 1];
        }
      }
    }
  }

  /** The header's tenant; without one the default, unless a piece names one: then the first such piece's. */
  ghost predicate IsTenant(header: Option<string>, query: Option<string>, tenant: Option<string>) {
    if header.Some? then tenant == ClampTenant(header.value)
    else if query.None? then tenant == Some("_global")
    else
      var kvs := Split(query.value, '&');
      && (NoneNamed(kvs) ==> tenant == Some("_global"))
      && forall i :: NamedFirst(kvs, i) ==> tenant == ClampTenant(kvs[i][8..])
  }

  lemma TenantIs(header: Option<string>, query: Option<string>)
    ensures IsTenant(header, query, TenantOf(header, query))
  {
    if query.Some? { FirstTenantIs(Split(query.value, '&')); }
  }

  /** The loop over the pieces of the query. */
  method NamedTenant(kvs: seq<string>) returns (named: Option<string>)
    ensures named == FirstTenant(kvs)
  {
    for i := 0 to |kvs|
      invariant FirstTenant(kvs) == FirstTenant(kvs[i..])
    {
      if NamesTenant(kvs[i]) { return Some(TenantValue(kvs[i])); }
    }
    return None;
  }

  /** `header` is `None` when the header is missing or is not readable text. */
  method ResolveTenant(header: Option<string>, query: Option<string>) returns (tenant: Option<string>)
    ensures tenant == TenantOf(header, query)
    ensures IsTenant(header, query, tenant)
  {
    TenantIs(header, query);
    if header.Some? { return ClampTenant(header.value); }
    if query.Some? {
      var named := NamedTenant(Split(query.value, '&'));
      if named.Some? { return ClampTenant(named.value); }
    }
    return Some(GLOBAL_TENANT);
  }

  /** What a request is looked up under. */
  function RequestKey(header: Option<string>, uri: string): (string, Option<string>) {
    (LookupKey(uri), TenantOf(header, if HasQuery(uri) then Some(QueryOf(uri)) else None))
  }

  // ---------------------------------------------------------------- naming the tenant in the query

  function TenantPiece(t: string): string { TENANT_KEY + "=" + t }

  /** `_tenant=t` added as the `i`-th piece of the query. */
  function InsertTenant(uri: string, i: nat, t: string): string
    requires HasQuery(uri) ==> i <= |Split(QueryOf(uri), '&')|
  {
    if !HasQuery(uri) then WithQuery(uri, TenantPiece(t))
    else
      var kvs := Split(QueryOf(uri), '&');
      WithQuery(PathOf(uri), Join(kvs[..i] + [TenantPiece(t)] + kvs[i..], '&'))
  }

  lemma TenantPieceNames(t: string)
    ensures NamesTenant(TenantPiece(t)) && TenantValue(TenantPiece(t)) == t
  {
    var kv := TenantPiece(t);
    assert kv[..7] == TENANT_KEY;
    FindUnique(kv, '=', 7);
  }

  /** The pieces of a URI that had `_tenant=t` added. */
  lemma InsertedPieces(uri: string, i: nat, t: string)
    requires HasQuery(uri) ==> i <= |Split(QueryOf(uri), '&')|
    requires '&' !in t
    ensures var u := InsertTenant(uri, i, t);
      && HasQuery(u) && PathOf(u) == PathOf(uri)
      && Split(QueryOf(u), '&') ==
         if HasQuery(uri) then
           var kvs := Split(QueryOf(uri), '&'); kvs[..i] + [TenantPiece(t)] + kvs[i..]
         else [TenantPiece(t)]
  {
    if HasQuery(uri) {
      var kvs := Split(QueryOf(uri), '&');
      var more := kvs[..i] + [TenantPiece(t)] + kvs[i..];
      forall p | p in more ensures '&' !in p {
        assert p in kvs || p == TenantPiece(t);
      }
      SplitJoin(more, '&');
      SplitWithQuery(PathOf(uri), Join(more, '&'));
    } else {
      assert uri == PathOf(uri);
      SplitWithQuery(uri, TenantPiece(t));
      SplitJoin([TenantPiece(t)], '&');
    }
  }

  lemma {:induction false} WithoutTenantConcat(a: seq<string>, b: seq<string>)
    ensures WithoutTenant(a + b) == WithoutTenant(a) + WithoutTenant(b)
  {
    if a == [] {
      assert a + b == b;
    } else {
      assert (a + b)[1..] == a[1..] + b;
      WithoutTenantConcat(a[1..], b);
    }
  }

  lemma {:induction false} FirstTenantConcat(a: seq<string>, b: seq<string>)
    ensures FirstTenant(a + b) == if FirstTenant(a).Some? then FirstTenant(a) else FirstTenant(b)
  {
    if a == [] {
      assert a + b == b;
    } else {
      assert (a + b)[1..] == a[1..] + b;
      FirstTenantConcat(a[1..], b);
    }
  }

  lemma WithoutInserted(a: seq<string>, piece: string, b: seq<string>)
    requires KeyOf(piece) == TENANT_KEY
    ensures WithoutTenant(a + [piece] + b) == WithoutTenant(a + b)
  {
    WithoutTenantConcat(a + [piece], b);
    WithoutTenantConcat(a, [piece]);
    WithoutTenantConcat(a, b);
    assert [piece][1..] == [];
  }

  lemma StripInserted(uri: string, i: nat, t: string)
    requires HasQuery(uri) ==> i <= |Split(QueryOf(uri), '&')|
    requires '&' !in t
    ensures StripTenantParam(InsertTenant(uri, i, t)) == StripTenantParam(uri)
  {
    InsertedPieces(uri, i, t);
    var piece := TenantPiece(t);
    TenantPieceNames(t);
    if HasQuery(uri) {
      var kvs := Split(QueryOf(uri), '&');
      WithoutInserted(kvs[..i], piece, kvs[i..]);
      assert kvs[..i] + kvs[i..] == kvs;
    } else {
      WithoutInserted([], piece, []);
      assert [] + [piece] + [] == [piece] && WithoutTenant([]) == [];
      assert uri == PathOf(uri);
    }
  }

  /** Naming the tenant anywhere in the query does not change the library key. */
  lemma InsertKeepsLookupKey(uri: string, i: nat, t: string)
    requires HasQuery(uri) ==> i <= |Split(QueryOf(uri), '&')|
    requires '&' !in t
    ensures LookupKey(InsertTenant(uri, i, t)) == LookupKey(uri)
  {
    StripInserted(uri, i, t);
  }

  /** Without the header, the tenant is the inserted one, unless an earlier piece names one: then it is that. */
  lemma InsertedTenantIsResolved(uri: string, i: nat, t: string)
    requires HasQuery(uri) ==> i <= |Split(QueryOf(uri), '&')|
    requires '&' !in t
    ensures (HasQuery(uri) ==> NoneNamed(Split(QueryOf(uri), '&')[..i])) ==>
      RequestKey(None, InsertTenant(uri, i, t)).1 == ClampTenant(t)
    ensures HasQuery(uri) ==> forall j :: j < i && NamedFirst(Split(QueryOf(uri), '&'), j) ==>
      RequestKey(None, InsertTenant(uri, i, t)).1 == ClampTenant(Split(QueryOf(uri), '&')[j][8..])
  {
    InsertedPieces(uri, i, t);
    var u := InsertTenant(uri, i, t);
    TenantIs(None, Some(QueryOf(u)));
    if HasQuery(uri) {
      InsertedIsNamed(Split(QueryOf(uri), '&'), i, t);
    } else {
      assert NamedFirst([TenantPiece(t)], 0) && TenantPiece(t)[8..] == t;
    }
  }

  lemma InsertedIsNamed(kvs: seq<string>, i: nat, t: string)
    requires i <= |kvs|
    ensures var more := kvs[..i] + [TenantPiece(t)] + kvs[i..];
      && more[i][8..] == t
      && (NoneNamed(kvs[..i]) ==> NamedFirst(more, i))
      && forall j :: 0 <= j < i ==> more[j] == kvs[j] && (NamedFirst(kvs, j) ==> NamedFirst(more, j))
  {
    var more := kvs[..i] + [TenantPiece(t)] + kvs[i..];
    assert more[i] == TenantPiece(t);
    assert forall j :: 0 <= j < i ==> more[j] == kvs[j] && more[j] == kvs[..i][j];
  }

  /** Naming the tenant in the query or in the header is the same, for the first name given. */
  lemma QueryNamesLikeHeader(uri: string, i: nat, t: string)
    requires HasQuery(uri) ==> i <= |Split(QueryOf(uri), '&')| && NoneNamed(Split(QueryOf(uri), '&')[..i])
    requires '&' !in t
    ensures RequestKey(None, InsertTenant(uri, i, t)) == RequestKey(Some(t), uri)
  {
    InsertKeepsLookupKey(uri, i, t);
    InsertedTenantIsResolved(uri, i, t);
  }

  // ---------------------------------------------------------------- what is stripped

  /** `_tenant` with or without a value. */
  ghost predicate IsTenantPiece(kv: string) { kv == "_tenant" || "_tenant=" <= kv }

  lemma TenantPieceIff(kv: string)
    ensures KeyOf(kv) == TENANT_KEY <==> IsTenantPiece(kv)
  {
    NamesTenantIff(kv);
    if kv == "_tenant" { FindUnique(kv, '=', 7); }
    if KeyOf(kv) == TENANT_KEY && |KeyOf(kv)| == |kv| { assert kv == KeyOf(kv); }
  }

  lemma {:induction false} NothingToRemove(kvs: seq<string>)
    requires forall kv :: kv in kvs ==> !IsTenantPiece(kv)
    ensures WithoutTenant(kvs) == kvs
  {
    if kvs != [] {
      TenantPieceIff(kvs[0]);
      NothingToRemove(kvs[1..]);
      assert kvs == [kvs[0]] + kvs[1..];
    }
  }

  lemma PartsOfUri(uri: string)
    requires HasQuery(uri)
    ensures WithQuery(PathOf(uri), QueryOf(uri)) == uri
  {
  }

  /** A URI without such a piece is left as it is. */
  lemma StripKeepsOthers(uri: string)
    requires HasQuery(uri) ==> forall kv :: kv in Split(QueryOf(uri), '&') ==> !IsTenantPiece(kv)
    ensures StripTenantParam(uri) == uri
  {
    if HasQuery(uri) {
      NothingToRemove(Split(QueryOf(uri), '&'));
      PartsOfUri(uri);
    }
  }

  /** Such a piece does not matter, wherever it stands: the URI is stripped as the one without it. */
  lemma StripRemovesPiece(path: string, before: seq<string>, piece: string, after: seq<string>)
    requires '?' !in path && IsTenantPiece(piece)
    requires forall kv :: kv in before || kv == piece || kv in after ==> '&' !in kv
    ensures StripTenantParam(WithQuery(path, Join(before + [piece] + after, '&'))) ==
      if before + after == [] then path else StripTenantParam(WithQuery(path, Join(before + after, '&')))
  {
    var more, fewer := before + [piece] + after, before + after;
    TenantPieceIff(piece);
    WithoutInserted(before, piece, after);
    SplitWithQuery(path, Join(more, '&'));
    SplitJoin(more, '&');
    if fewer != [] {
      SplitWithQuery(path, Join(fewer, '&'));
      SplitJoin(fewer, '&');
    }
  }
}
