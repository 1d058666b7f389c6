/**
 * When two paths have the same shape: segment by segment they are equal or one
 * of them looks like an identifier. `alphanumeric` is the Unicode classification.
 */
module PathShape {
  import opened Text
  import opened UriCanonical

  predicate IsDigit(c: char) { '0' <= c <= '9' }

  predicate IsHexDigit(c: char) { IsDigit(c) || 'a' <= c <= 'f' || 'A' <= c <= 'F' }

  predicate IsAsciiLetter(c: char) { 'a' <= c <= 'z' || 'A' <= c <= 'Z' }

  predicate AllDigits(s: string) { forall i :: 0 <= i < |s| ==> IsDigit(s[i]) }

  predicate AllHexDigits(s: string) { forall i :: 0 <= i < |s| ==> IsHexDigit(s[i]) }

  predicate FiveHexParts(parts: seq<string>) {
    |parts| == 5 && forall i :: 0 <= i < 5 ==> AllHexDigits(parts[i])
  }

  predicate IsDynamicSegment(s: string, alphanumeric: char -> bool) {
    if s == "" then false
    else if AllDigits(s) then true
    else
      if FiveHexParts(Split(s, '-')) then true
      else
        && (exists i :: 0 <= i < |s| && IsDigit(s[i]))
        && (exists i :: 0 <= i < |s| && IsAsciiLetter(s[i]))
        && (forall i :: 0 <= i < |s| ==> alphanumeric(s[i]) || s[i] == '-' || s[i] == '_')
  }

  function PathSegments(uri: string): seq<string> { Split(PathOf(uri), '/') }

  predicate SegmentsMatch(a: string, b: string, alphanumeric: char -> bool) {
    a == b || IsDynamicSegment(a, alphanumeric) || IsDynamicSegment(b, alphanumeric)
  }

  predicate PathsMatch(recorded: string, incoming: string, alphanumeric: char -> bool) {
    var r, i := PathSegments(recorded), PathSegments(incoming);
    |r| == |i| && forall k :: 0 <= k < |r| ==> SegmentsMatch(r[k], i[k], alphanumeric)
  }

  // ---------------------------------------------------------------- what looks like an identifier

  /** Five groups of hexadecimal digits, some perhaps empty, with a hyphen between neighbours. */
  ghost predicate HexGroups(s: string) {
    exists a, b, c, d, e :: AreHex(a, b, c, d, e) && s == a + "-" + b + "-" + c + "-" + d + "-" + e
  }

  predicate AreHex(a: string, b: string, c: string, d: string, e: string) {
    AllHexDigits(a) && AllHexDigits(b) && AllHexDigits(c) && AllHexDigits(d) && AllHexDigits(e)
  }

  /** Letters and digits, both of them, and otherwise hyphens and underscores only. */
  ghost predicate MixedWord(s: string, alphanumeric: char -> bool) {
    && (exists i :: 0 <= i < |s| && '0' <= s[i] <= '9')
    && (exists i :: 0 <= i < |s| && ('a' <= s[i] <= 'z' || 'A' <= s[i] <= 'Z'))
    && (forall i :: 0 <= i < |s| ==> alphanumeric(s[i]) || s[i] == '-' || s[i] == '_')
  }

  ghost predicate Number(s: string) {
    s != "" && forall i :: 0 <= i < |s| ==> '0' <= s[i] <= '9'
  }

  ghost predicate NoDigit(s: string) {
    forall i :: 0 <= i < |s| ==> !('0' <= s[i] <= '9')
  }

  lemma JoinFive(a: string, b: string, c: string, d: string, e: string)
    ensures Join([a, b, c, d, e], '-') == a + "-" + b + "-" + c + "-" + d + "-" + e
  {
    var parts := [a, b, c, d, e];
    assert parts[1..] == [b, c, d, e] && [b, c, d, e][1..] == [c, d, e] && [c, d, e][1..] == [d, e] && [d, e][1..] == [e];
    assert Join([d, e], '-') == d + "-" + e;
    assert Join([c, d, e], '-') == c + "-" + (d + "-" + e);
    assert Join([b, c, d, e], '-') == b + "-" + (c + "-" + (d + "-" + e));
  }

  lemma NoHyphen(a: string)
    requires AllHexDigits(a)
    ensures '-' !in a
  {
  }

  lemma SplitFive(a: string, b: string, c: string, d: string, e: string)
    requires AreHex(a, b, c, d, e)
    ensures Split(a + "-" + b + "-" + c + "-" + d + "-" + e, '-') == [a, b, c, d, e]
  {
    JoinFive(a, b, c, d, e);
    NoHyphen(a);
    NoHyphen(b);
    NoHyphen(c);
    NoHyphen(d);
    NoHyphen(e);
    SplitJoin([a, b, c, d, e], '-');
  }

  lemma FivePieces(s: string)
    requires |Split(s, '-')| == 5
    ensures var p := Split(s, '-'); s == p[0] + "-" + p[1] + "-" + p[2] + "-" + p[3] + "-" + p[4]
  {
    var p := Split(s, '-');
    JoinFive(p[0], p[1], p[2], p[3], p[4]);
    assert p == [p[0], p[1], p[2], p[3], p[4]];
  }

  lemma HexGroupsIff(s: string)
    ensures HexGroups(s) <==> FiveHexParts(Split(s, '-'))
  {
    var p := Split(s, '-');
    if FiveHexParts(p) {
      FivePieces(s);
      assert AreHex(p[0], p[1], p[2], p[3], p[4]);
    }
    if a, b, c, d, e :| AreHex(a, b, c, d, e) && s == a + "-" + b + "-" + c + "-" + d + "-" + e {
      SplitFive(a, b, c, d, e);
    }
  }

  /** Two segments match exactly when they are equal or one is a number, five hexadecimal groups or a mixed word. */
  lemma SegmentsMatchIff(a: string, b: string, alphanumeric: char -> bool)
    ensures SegmentsMatch(a, b, alphanumeric) <==>
      || a == b
      || Number(a) || HexGroups(a) || MixedWord(a, alphanumeric)
      || Number(b) || HexGroups(b) || MixedWord(b, alphanumeric)
  {
    DynamicIff(a, alphanumeric);
    DynamicIff(b, alphanumeric);
  }

  lemma DynamicIff(s: string, alphanumeric: char -> bool)
    ensures IsDynamicSegment(s, alphanumeric) <==> Number(s) || HexGroups(s) || MixedWord(s, alphanumeric)
  {
    HexGroupsIff(s);
    if s == "" { SplitEmpty(); }
  }

  lemma SplitEmpty()
    ensures Split("", '-') == [""] && !FiveHexParts(Split("", '-'))
  {
  }

  // ---------------------------------------------------------------- which paths match

  /** No segment has a digit, and none has exactly four hyphens. */
  ghost predicate Plain(uri: string) {
    forall s :: s in PathSegments(uri) ==> NoDigit(s) && |Split(s, '-')| != 5
  }

  lemma PlainSegment(s: string, alphanumeric: char -> bool)
    requires NoDigit(s) && |Split(s, '-')| != 5
    ensures !IsDynamicSegment(s, alphanumeric)
  {
    DynamicIff(s, alphanumeric);
    HexGroupsIff(s);
  }

  /** Paths of plain words match only when they are equal. */
  lemma PlainPathsMatch(u: string, v: string, alphanumeric: char -> bool)
    requires Plain(u) && Plain(v)
    ensures PathsMatch(u, v, alphanumeric) <==> PathOf(u) == PathOf(v)
  {
    var r, i := PathSegments(u), PathSegments(v);
    if PathsMatch(u, v, alphanumeric) {
      forall k | 0 <= k < |r| ensures r[k] == i[k] {
        assert r[k] in r && i[k] in i;
        PlainSegment(r[k], alphanumeric);
        PlainSegment(i[k], alphanumeric);
        assert SegmentsMatch(r[k], i[k], alphanumeric);
      }
      assert r == i;
      assert Join(r, '/') == PathOf(u) && Join(i, '/') == PathOf(v);
    }
  }

  /** Two paths match exactly when they have the same number of segments and each pair does. */
  lemma PathsMatchIff(u: string, v: string, alphanumeric: char -> bool)
    ensures PathsMatch(u, v, alphanumeric) <==>
      var r, i := Split(PathOf(u), '/'), Split(PathOf(v), '/');
      && |r| == |i|
      && forall k :: 0 <= k < |r| ==>
           || r[k] == i[k]
           || Number(r[k]) || HexGroups(r[k]) || MixedWord(r[k], alphanumeric)
           || Number(i[k]) || HexGroups(i[k]) || MixedWord(i[k], alphanumeric)
  {
    var r, i := PathSegments(u), PathSegments(v);
    forall k | 0 <= k < |r| && k < |i|
      ensures SegmentsMatch(r[k], i[k], alphanumeric) <==>
        || r[k] == i[k]
        || Number(r[k]) || HexGroups(r[k]) || MixedWord(r[k], alphanumeric)
        || Number(i[k]) || HexGroups(i[k]) || MixedWord(i[k], alphanumeric)
    {
      SegmentsMatchIff(r[k], i[k], alphanumeric);
    }
  }

  /** A segment with another character than letters, digits, `-` and `_` is matched by its equal or an identifier only. */
  lemma OddSegmentMatches(a: string, k: nat, b: string, alphanumeric: char -> bool)
    requires k < |a| && !alphanumeric(a[k]) && a[k] != '-' && a[k] != '_' && !IsHexDigit(a[k])
    ensures SegmentsMatch(a, b, alphanumeric) <==> a == b || Number(b) || HexGroups(b) || MixedWord(b, alphanumeric)
  {
    SegmentsMatchIff(a, b, alphanumeric);
    OddIsNoHex(a, k);
  }

  lemma OddIsNoHex(s: string, k: nat)
    requires k < |s| && s[k] != '-' && !IsHexDigit(s[k])
    ensures !HexGroups(s)
  {
    if a, b, c, d, e :| AreHex(a, b, c, d, e) && s == a + "-" + b + "-" + c + "-" + d + "-" + e {
      HexConcat(a, b);
      HexConcat(a + "-" + b, c);
      HexConcat(a + "-" + b + "-" + c, d);
      HexConcat(a + "-" + b + "-" + c + "-" + d, e);
      assert false;
    }
  }

  /** Hexadecimal digits and hyphens only. */
  predicate HexOrHyphen(s: string) { forall i :: 0 <= i < |s| ==> s[i] == '-' || IsHexDigit(s[i]) }

  lemma HexConcat(s: string, t: string)
    requires HexOrHyphen(s) && AllHexDigits(t)
    ensures HexOrHyphen(s + "-" + t)
  {
  }
}
