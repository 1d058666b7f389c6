/**
 * Endpoint patterns: `*` stands for one path segment and `**` for any number.
 * The backtracking matcher is compared with the language the patterns denote.
 */
module Glob {
  import opened Options
  import opened Text
  import opened UriCanonical

  // ---------------------------------------------------------------- the matcher

  predicate GlobMatchSegs(pattern: seq<string>, path: seq<string>)
    decreases |pattern|
  {
    if pattern == [] then path == []
    else if path == [] then pattern[0] == "**" && |pattern| == 1
    else if pattern[0] == "**" then
      |pattern| == 1 || exists split :: 0 <= split <= |path| && GlobMatchSegs(pattern[1..], path[split..])
    else if pattern[0] == "*" || pattern[0] == path[0] then GlobMatchSegs(pattern[1..], path[1..])
    else false
  }

  function TrimSlashes(s: string): string {
    if s != [] && s[0] == '/' then TrimSlashes(s[1..])
    else if s != [] && s[|s| - 1] == '/' then TrimSlashes(s[..|s| - 1])
    else s
  }

  ghost predicate Slashes(s: string) { forall i :: 0 <= i < |s| ==> s[i] == '/' }

  /** Slashes, this text, and slashes again. */
  ghost predicate Between(s: string, t: string) {
    exists a, b :: Slashes(a) && Slashes(b) && s == a + t + b
  }

  lemma SlashBefore(s: string, t: string)
    requires s != "" && s[0] == '/' && Between(s[1..], t)
    ensures Between(s, t)
  {
    var a, b :| Slashes(a) && Slashes(b) && s[1..] == a + t + b;
    assert Slashes("/" + a) && s == ("/" + a) + t + b;
  }

  lemma SlashAfter(s: string, t: string)
    requires s != "" && s[|s| - 1] == '/' && Between(s[..|s| - 1], t)
    ensures Between(s, t)
  {
    var a, b :| Slashes(a) && Slashes(b) && s[..|s| - 1] == a + t + b;
    assert Slashes(b + "/") && s == a + t + (b + "/");
  }

  /** Slashes are taken from both ends, and all of them. */
  lemma {:induction false} TrimSlashesIs(s: string)
    ensures Between(s, TrimSlashes(s))
    ensures TrimSlashes(s) != "" ==> TrimSlashes(s)[0] != '/' && TrimSlashes(s)[|TrimSlashes(s)| - 1] != '/'
    decreases |s|
  {
    var n := |s| - 1;
    if s != [] && s[0] == '/' {
      TrimSlashesIs(s[1..]);
      SlashBefore(s, TrimSlashes(s));
    } else if s != [] && s[n] == '/' {
      TrimSlashesIs(s[..n]);
      SlashAfter(s, TrimSlashes(s));
    } else {
      assert Slashes("") && s == "" + s + "";
    }
  }

  function Segments(path: string): seq<string> { Split(TrimSlashes(path), '/') }

  predicate GlobMatch(pattern: string, path: string) {
    GlobMatchSegs(Segments(pattern), Segments(path))
  }

  // ---------------------------------------------------------------- the language

  predicate Fits(p: string, chunk: seq<string>) {
    if p == "**" then true else if p == "*" then |chunk| == 1 else chunk == [p]
  }

  function Flatten(chunks: seq<seq<string>>): seq<string> {
    if chunks == [] then [] else chunks[0] + Flatten(chunks[1..])
  }

  ghost predicate Decomposes(pattern: seq<string>, path: seq<string>, chunks: seq<seq<string>>) {
    && |chunks| == |pattern|
    && (forall i :: 0 <= i < |pattern| ==> Fits(pattern[i], chunks[i]))
    && Flatten(chunks) == path
  }

  /** The path is cut into one chunk per pattern segment, each chunk fitting its segment. */
  ghost predicate InLanguage(pattern: seq<string>, path: seq<string>) {
    exists chunks :: Decomposes(pattern, path, chunks)
  }

  /** `cut` says how many path segments the first pattern segment takes. */
  ghost predicate Cut(pattern: seq<string>, path: seq<string>, cut: int)
    requires pattern != []
  {
    0 <= cut <= |path| && Fits(pattern[0], path[..cut]) && InLanguage(pattern[1..], path[cut..])
  }

  lemma LanguageNil(path: seq<string>)
    ensures InLanguage([], path) <==> path == []
  {
    assert Decomposes([], [], []);
  }

  lemma LanguageCons(pattern: seq<string>, path: seq<string>)
    requires pattern != []
    ensures InLanguage(pattern, path) <==> exists cut :: Cut(pattern, path, cut)
  {
    if InLanguage(pattern, path) {
      var chunks :| Decomposes(pattern, path, chunks);
      assert path[..|chunks[0]|] == chunks[0];
      assert Decomposes(pattern[1..], path[|chunks[0]|..], chunks[1..]);
      assert Cut(pattern, path, |chunks[0]|);
    }
    if cut :| Cut(pattern, path, cut) {
      var rest :| Decomposes(pattern[1..], path[cut..], rest);
      var chunks := [path[..cut]] + rest;
      assert chunks[1..] == rest;
      assert Decomposes(pattern, path, chunks);
    }
  }

  /** By the first segment of the pattern: any number of segments for `**`, one for `*`, else an equal one. */
  lemma LanguageIs(p: string, rest: seq<string>, path: seq<string>)
    ensures InLanguage([], path) <==> path == []
    ensures p == "**" ==> (InLanguage([p] + rest, path) <==> exists k :: 0 <= k <= |path| && InLanguage(rest, path[k..]))
    ensures p == "*" ==> (InLanguage([p] + rest, path) <==> path != [] && InLanguage(rest, path[1..]))
    ensures p != "*" && p != "**" ==>
      (InLanguage([p] + rest, path) <==> path != [] && path[0] == p && InLanguage(rest, path[1..]))
  {
    var pattern := [p] + rest;
    assert pattern[1..] == rest;
    LanguageNil(path);
    LanguageCons(pattern, path);
    if p == "**" {
      if k :| 0 <= k <= |path| && InLanguage(rest, path[k..]) { assert Cut(pattern, path, k); }
    } else {
      if path != [] { assert path[..1] == [path[0]]; }
      if path != [] && (p == "*" || path[0] == p) && InLanguage(rest, path[1..]) { assert Cut(pattern, path, 1); }
      if cut :| Cut(pattern, path, cut) { assert |path[..cut]| == 1 == cut; }
    }
  }

  // ---------------------------------------------------------------- what the matcher accepts

  predicate AllStars(pattern: seq<string>) {
    forall i :: 0 <= i < |pattern| ==> pattern[i] == "**"
  }

  /** The pattern with a trailing run of two or more `**` read as `*` and `**`. */
  function Effective(pattern: seq<string>): seq<string> {
    if |pattern| >= 2 && AllStars(pattern) then ["*", "**"]
    else if pattern == [] then []
    else [pattern[0]] + Effective(pattern[1..])
  }

  lemma {:induction false} AllStarsMatch(pattern: seq<string>, path: seq<string>)
    requires |pattern| >= 1 && AllStars(pattern) && path != []
    ensures GlobMatchSegs(pattern, path)
  {
    if |pattern| > 1 {
      AllStarsMatch(pattern[1..], path);
      assert path[0..] == path;
    }
  }

  lemma OneOrMore(path: seq<string>)
    ensures InLanguage(["*", "**"], path) <==> path != []
  {
    LanguageCons(["*", "**"], path);
    assert ["*", "**"][1..] == ["**"];
    if path != [] {
      AnyPath(path[1..]);
      assert Cut(["*", "**"], path, 1);
    }
  }

  lemma AnyPath(path: seq<string>)
    ensures InLanguage(["**"], path)
  {
    assert Flatten([path]) == path + Flatten([]) by { assert [path][1..] == []; }
    assert Decomposes(["**"], path, [path]);
  }

  /** The matcher decides exactly the language of the effective pattern. */
  lemma {:induction false} MatcherDecides(pattern: seq<string>, path: seq<string>)
    ensures GlobMatchSegs(pattern, path) <==> InLanguage(Effective(pattern), path)
    decreases |pattern|
  {
    if pattern == [] {
      LanguageNil(path);
    } else if |pattern| >= 2 && AllStars(pattern) {
      OneOrMore(path);
      if path != [] { AllStarsMatch(pattern, path); }
    } else {
      MatcherDecidesCons(pattern, path);
    }
  }

  lemma {:induction false} MatcherDecidesCons(pattern: seq<string>, path: seq<string>)
    requires pattern != [] && !(|pattern| >= 2 && AllStars(pattern))
    ensures GlobMatchSegs(pattern, path) <==> InLanguage(Effective(pattern), path)
    decreases |pattern|, 0
  {
    var e := Effective(pattern);
    assert e[0] == pattern[0] && e[1..] == Effective(pattern[1..]);
    LanguageCons(e, path);
    forall cut | 0 <= cut <= |path|
      ensures GlobMatchSegs(pattern[1..], path[cut..]) <==> InLanguage(e[1..], path[cut..])
    {
      MatcherDecides(pattern[1..], path[cut..]);
    }
    if pattern[0] == "**" {
      if |pattern| == 1 {
        assert e == ["**"];
        AnyPath(path);
      } else {
        MatcherDecidesStars(pattern, path);
      }
    } else if path != [] {
      assert path[..1] == [path[0]];
      assert Cut(e, path, 1) <==> (pattern[0] == "*" || pattern[0] == path[0]) && InLanguage(e[1..], path[1..]);
    }
  }

  lemma MatcherDecidesStars(pattern: seq<string>, path: seq<string>)
    requires |pattern| >= 2 && pattern[0] == "**" && !AllStars(pattern)
    requires forall cut :: 0 <= cut <= |path| ==>
      (GlobMatchSegs(pattern[1..], path[cut..]) <==> InLanguage(Effective(pattern[1..]), path[cut..]))
    ensures GlobMatchSegs(pattern, path) <==> InLanguage(Effective(pattern), path)
  {
    var e := Effective(pattern);
    assert e[1..] == Effective(pattern[1..]);
    LanguageCons(e, path);
    if path == [] {
      assert path[0..] == path;
      assert !GlobMatchSegs(pattern[1..], path) by { assert pattern == [pattern[0]] + pattern[1..]; }
    } else {
      forall cut | 0 <= cut <= |path|
        ensures Cut(e, path, cut) <==> GlobMatchSegs(pattern[1..], path[cut..])
      {
      }
    }
  }

  // ---------------------------------------------------------------- soundness and completeness

  predicate EndsInTwoStars(pattern: seq<string>) {
    |pattern| >= 2 && pattern[|pattern| - 1] == "**" && pattern[|pattern| - 2] == "**"
  }

  lemma {:induction false} EffectiveIsSame(pattern: seq<string>)
    requires !EndsInTwoStars(pattern)
    ensures Effective(pattern) == pattern
  {
    if pattern != [] {
      EffectiveIsSame(pattern[1..]);
      assert pattern == [pattern[0]] + pattern[1..];
    }
  }

  /** Every path the effective pattern describes is one the pattern itself describes. */
  lemma {:induction false} EffectiveIsStricter(pattern: seq<string>, path: seq<string>)
    requires InLanguage(Effective(pattern), path)
    ensures InLanguage(pattern, path)
    decreases |pattern|
  {
    if |pattern| >= 2 && AllStars(pattern) {
      StarsAreAny(pattern, path);
    } else if pattern != [] {
      var e := Effective(pattern);
      assert e[1..] == Effective(pattern[1..]);
      LanguageCons(e, path);
      LanguageCons(pattern, path);
      var cut :| Cut(e, path, cut);
      EffectiveIsStricter(pattern[1..], path[cut..]);
      assert Cut(pattern, path, cut);
    }
  }

  lemma {:induction false} StarsAreAny(pattern: seq<string>, path: seq<string>)
    requires pattern != [] && AllStars(pattern)
    ensures InLanguage(pattern, path)
  {
    LanguageCons(pattern, path);
    if |pattern| == 1 {
      assert pattern == ["**"];
      AnyPath(path);
    } else {
      StarsAreAny(pattern[1..], path);
      assert path[0..] == path;
      assert Cut(pattern, path, 0);
    }
  }

  lemma MatcherSound(pattern: seq<string>, path: seq<string>)
    requires GlobMatchSegs(pattern, path)
    ensures InLanguage(pattern, path)
  {
    MatcherDecides(pattern, path);
    EffectiveIsStricter(pattern, path);
  }

  /** How many segments every path of the language has at least. */
  function Needed(pattern: seq<string>): nat {
    if pattern == [] then 0 else (if pattern[0] == "**" then 0 else 1) + Needed(pattern[1..])
  }

  lemma {:induction false} NeededIsNeeded(pattern: seq<string>, path: seq<string>)
    requires InLanguage(pattern, path)
    ensures |path| >= Needed(pattern)
  {
    if pattern != [] {
      LanguageCons(pattern, path);
      var cut :| Cut(pattern, path, cut);
      NeededIsNeeded(pattern[1..], path[cut..]);
    }
  }

  /** The shortest path of the language: a literal for itself, any text for `*`, nothing for `**`. */
  function Shortest(pattern: seq<string>): (path: seq<string>)
    ensures |path| == Needed(pattern)
  {
    if pattern == [] then [] else (if pattern[0] == "**" then [] else [pattern[0]]) + Shortest(pattern[1..])
  }

  lemma {:induction false} ShortestInLanguage(pattern: seq<string>)
    ensures InLanguage(pattern, Shortest(pattern))
  {
    LanguageNil([]);
    if pattern != [] {
      ShortestInLanguage(pattern[1..]);
      var cut := if pattern[0] == "**" then 0 else 1;
      var path := Shortest(pattern);
      assert path[cut..] == Shortest(pattern[1..]);
      LanguageCons(pattern, path);
      assert Cut(pattern, path, cut);
    }
  }

  lemma {:induction false} EffectiveNeedsMore(pattern: seq<string>)
    requires EndsInTwoStars(pattern)
    ensures Needed(Effective(pattern)) == Needed(pattern) + 1
  {
    if AllStars(pattern) {
      assert ["*", "**"][1..] == ["**"] && ["**"][1..] == [];
      StarsNeedNothing(pattern);
    } else {
      EffectiveNeedsMore(pattern[1..]);
      assert ([pattern[0]] + Effective(pattern[1..]))[1..] == Effective(pattern[1..]);
    }
  }

  lemma {:induction false} StarsNeedNothing(pattern: seq<string>)
    requires AllStars(pattern)
    ensures Needed(pattern) == 0
  {
    if pattern != [] {
        StarsNeedNothing(pattern[1..]);
    }
  }

  /** On lists of segments: no path of the language is missed exactly when the pattern does not end in two `**`. */
  lemma MatcherComplete(pattern: seq<string>)
    ensures (forall path :: InLanguage(pattern, path) ==> GlobMatchSegs(pattern, path))
       <==> !EndsInTwoStars(pattern)
  {
    if EndsInTwoStars(pattern) {
      var path := Shortest(pattern);
      ShortestInLanguage(pattern);
      EffectiveNeedsMore(pattern);
      MatcherDecides(pattern, path);
      if GlobMatchSegs(pattern, path) {
        NeededIsNeeded(Effective(pattern), path);
        assert false;
      }
    } else {
      EffectiveIsSame(pattern);
      forall path { MatcherDecides(pattern, path); }
    }
  }

  // ---------------------------------------------------------------- patterns and paths as text

  /** What a text is split into: one empty segment, or segments of which the outer ones are not empty. */
  ghost predicate IsTrimmed(segments: seq<string>) {
    && (forall s :: s in segments ==> '/' !in s)
    && (segments == [""] || (segments != [] && segments[0] != "" && segments[|segments| - 1] != ""))
  }

  lemma {:induction false} TrimmedEnds(s: string)
    ensures var t := TrimSlashes(s); t == "" || (t[0] != '/' && t[|t| - 1] != '/')
    decreases |s|
  {
    if s != [] && s[0] == '/' {
      TrimmedEnds(s[1..]);
    } else if s != [] && s[|s| - 1] == '/' {
      TrimmedEnds(s[..|s| - 1]);
    }
  }

  lemma {:induction false} SplitEnds(s: string)
    requires s != "" && s[|s| - 1] != '/'
    ensures var parts := Split(s, '/'); parts[|parts| - 1] != "" && (s[0] != '/' ==> parts[0] != "")
    decreases |s|
  {
    var i := Find(s, '/');
    if i < |s| { SplitEnds(s[i + 1..]); }
  }

  lemma SegmentsAreTrimmed(path: string)
    ensures IsTrimmed(Segments(path))
  {
    TrimmedEnds(path);
    var t := TrimSlashes(path);
    if t == "" {
      assert Split("", '/') == [""];
    } else {
      SplitEnds(t);
    }
  }

  lemma {:induction false} JoinEnds(segments: seq<string>)
    requires segments != [] && segments[|segments| - 1] != ""
    requires forall s :: s in segments ==> '/' !in s
    ensures var t := Join(segments, '/'); t != "" && t[|t| - 1] != '/'
    ensures var t := Join(segments, '/'); segments[0] != "" ==> t[0] != '/'
  {
    var last := segments[|segments| - 1];
    assert last in segments && last[|last| - 1] in last;
    if |segments| > 1 { JoinEnds(segments[1..]); }
    if segments[0] != "" { assert segments[0] in segments && segments[0][0] in segments[0]; }
  }

  /** Every such list of segments is the split of some path. */
  lemma SegmentsOfJoin(segments: seq<string>)
    requires IsTrimmed(segments)
    ensures Segments(Join(segments, '/')) == segments
  {
    if segments == [""] {
      assert Join(segments, '/') == "" && Split("", '/') == [""];
    } else {
      JoinEnds(segments);
      SplitJoin(segments, '/');
    }
  }

  /** The pattern without the `**` at its end. */
  function BeforeStars(pattern: seq<string>): seq<string> {
    if AllStars(pattern) then [] else [pattern[0]] + BeforeStars(pattern[1..])
  }

  lemma {:induction false} BeforeStarsLast(pattern: seq<string>)
    requires !AllStars(pattern)
    ensures var before := BeforeStars(pattern); before != [] && before[0] == pattern[0] && before[|before| - 1] != "**"
    ensures forall s :: s in BeforeStars(pattern) ==> s in pattern
  {
    if !AllStars(pattern[1..]) { BeforeStarsLast(pattern[1..]); }
  }

  lemma {:induction false} ShortestBeforeStars(pattern: seq<string>)
    ensures Shortest(BeforeStars(pattern)) == Shortest(pattern)
  {
    if AllStars(pattern) {
      StarsNeedNothing(pattern);
    } else {
      ShortestBeforeStars(pattern[1..]);
      assert BeforeStars(pattern)[1..] == BeforeStars(pattern[1..]);
    }
  }

  lemma {:induction false} ShortestLast(before: seq<string>)
    requires before != [] && before[|before| - 1] != "**"
    ensures var path := Shortest(before); path != [] && path[|path| - 1] == before[|before| - 1]
    ensures before[0] != "**" ==> Shortest(before)[0] == before[0]
    ensures |before| > 1 && !AllStars(before[..|before| - 1]) ==> |Shortest(before)| >= 2
    ensures AllStars(before[..|before| - 1]) ==> Shortest(before) == [before[|before| - 1]]
    ensures forall s :: s in Shortest(before) ==> s in before
  {
    if |before| > 1 {
      assert before[..|before| - 1][1..] == before[1..][..|before| - 2];
      ShortestLast(before[1..]);
    } else {
      assert Shortest(before[1..]) == [];
    }
  }

  lemma {:induction false} ShortestEffective(pattern: seq<string>)
    requires EndsInTwoStars(pattern)
    ensures Shortest(Effective(pattern)) == Shortest(pattern) + ["*"]
  {
    if AllStars(pattern) {
      StarsNeedNothing(pattern);
      assert ["*", "**"][1..] == ["**"] && ["**"][1..] == [];
      assert Shortest([]) == [] && Shortest(["**"]) == [];
    } else {
      ShortestEffective(pattern[1..]);
      assert ([pattern[0]] + Effective(pattern[1..]))[1..] == Effective(pattern[1..]);
    }
  }

  /** A path as short as the pattern allows begins with the first segment that the pattern asks for. */
  lemma {:induction false} TightFirst(pattern: seq<string>, path: seq<string>)
    requires InLanguage(pattern, path) && |path| == Needed(pattern) && path != []
    ensures Shortest(pattern)[0] == "*" || Shortest(pattern)[0] == path[0]
  {
    if pattern == [] {
      LanguageNil(path);
    } else {
      LanguageCons(pattern, path);
      var cut :| Cut(pattern, path, cut);
      NeededIsNeeded(pattern[1..], path[cut..]);
      if pattern[0] == "**" {
        assert path[0..] == path;
        TightFirst(pattern[1..], path);
      }
    }
  }

  /** A path of the language either leaves something for the final stars or is one of the part before them. */
  lemma {:induction false} StarsTakeSomeOrNothing(pattern: seq<string>, path: seq<string>)
    requires EndsInTwoStars(pattern) && InLanguage(pattern, path)
    ensures InLanguage(Effective(pattern), path) || InLanguage(BeforeStars(pattern), path)
  {
    if AllStars(pattern) {
      OneOrMore(path);
      LanguageNil(path);
    } else {
      LanguageCons(pattern, path);
      var cut :| Cut(pattern, path, cut);
      StarsTakeSomeOrNothing(pattern[1..], path[cut..]);
      var e, before := Effective(pattern), BeforeStars(pattern);
      assert e[1..] == Effective(pattern[1..]) && before[1..] == BeforeStars(pattern[1..]);
      LanguageCons(e, path);
      LanguageCons(before, path);
      assert Cut(e, path, cut) || Cut(before, path, cut);
    }
  }

  lemma {:induction false} LastLiteral(before: seq<string>, path: seq<string>)
    requires before != [] && before[|before| - 1] != "**" && before[|before| - 1] != "*" && InLanguage(before, path)
    ensures path != [] && path[|path| - 1] == before[|before| - 1]
  {
    LanguageCons(before, path);
    var cut :| Cut(before, path, cut);
    if |before| == 1 {
      LanguageNil(path[cut..]);
      assert path[..cut] == path;
    } else {
      LastLiteral(before[1..], path[cut..]);
    }
  }

  /**
   * The final stars are asked for a segment that a path need not have: there
   * are two of them, something stands before them, and it can end a path. An
   * empty segment can do so only as the whole of the path `/`.
   */
  predicate MissesPaths(pattern: seq<string>) {
    var before := BeforeStars(pattern);
    && EndsInTwoStars(pattern) && before != []
    && (before[|before| - 1] != "" || AllStars(before[..|before| - 1]))
  }

  lemma ShortestPrepended(pattern: seq<string>, extra: string)
    requires pattern != [] && pattern[0] == "**"
    ensures InLanguage(pattern, [extra] + Shortest(pattern))
  {
    var path := [extra] + Shortest(pattern);
    assert Shortest(pattern[1..]) == Shortest(pattern) && path[1..] == Shortest(pattern);
    ShortestInLanguage(pattern[1..]);
    LanguageCons(pattern, path);
    assert Cut(pattern, path, 1);
  }

  lemma TooShort(pattern: seq<string>, path: seq<string>)
    requires EndsInTwoStars(pattern) && path != [] && Shortest(pattern) != []
    requires |path| == Needed(pattern)
      || (|path| == Needed(pattern) + 1 && Shortest(pattern)[0] != "*" && Shortest(pattern)[0] != path[0])
    ensures !GlobMatchSegs(pattern, path)
  {
    var e := Effective(pattern);
    MatcherDecides(pattern, path);
    ShortestEffective(pattern);
    if InLanguage(e, path) {
      NeededIsNeeded(e, path);
      TightFirst(e, path);
      assert false;
    }
  }

  lemma PathMissed(pattern: seq<string>) returns (path: seq<string>)
    requires IsTrimmed(pattern) && MissesPaths(pattern)
    ensures IsTrimmed(path) && InLanguage(pattern, path) && !GlobMatchSegs(pattern, path)
  {
    var before, short := BeforeStars(pattern), Shortest(pattern);
    BeforeStarsLast(pattern);
    ShortestBeforeStars(pattern);
    ShortestLast(before);
    if short[0] != "" || before[|before| - 1] == "" {
      path := short;
      ShortestInLanguage(pattern);
    } else {
      path := ["x"] + short;
      ShortestPrepended(pattern, "x");
    }
    TooShort(pattern, path);
  }

  lemma NoPathMissed(pattern: seq<string>, path: seq<string>)
    requires IsTrimmed(pattern) && IsTrimmed(path) && !MissesPaths(pattern) && InLanguage(pattern, path)
    ensures GlobMatchSegs(pattern, path)
  {
    MatcherDecides(pattern, path);
    if !EndsInTwoStars(pattern) {
      EffectiveIsSame(pattern);
    } else {
      StarsTakeSomeOrNothing(pattern, path);
      var before := BeforeStars(pattern);
      if InLanguage(before, path) {
        if before == [] {
          LanguageNil(path);
        } else {
          BeforeStarsLast(pattern);
          LastLiteral(before, path);
          ShortestLast(before);
          NeededIsNeeded(before, path);
        }
        assert false;
      }
    }
  }

  /** For patterns and paths as text: the exact condition under which no path of the language is missed. */
  lemma GlobComplete(pattern: string)
    ensures (forall path: string :: InLanguage(Segments(pattern), Segments(path)) ==> GlobMatch(pattern, path))
       <==> !MissesPaths(Segments(pattern))
  {
    SegmentsAreTrimmed(pattern);
    if MissesPaths(Segments(pattern)) {
      var path := PathMissed(Segments(pattern));
      SegmentsOfJoin(path);
    } else {
      forall path: string | InLanguage(Segments(pattern), Segments(path)) ensures GlobMatch(pattern, path) {
        SegmentsAreTrimmed(path);
        NoPathMissed(Segments(pattern), Segments(path));
      }
    }
  }

  lemma SegmentsOfExample()
    ensures Join(["api", "**", "**"], '/') == "api/" + "**" + "/" + "**" && Join(["api"], '/') == "api"
    ensures Segments("api/" + "**" + "/" + "**") == ["api", "**", "**"] && Segments("api") == ["api"]
  {
    assert ["api", "**", "**"][1..] == ["**", "**"] && ["**", "**"][1..] == ["**"];
    SegmentsOfJoin(["api", "**", "**"]);
    SegmentsOfJoin(["api"]);
  }

  // For instance, `api` followed by two `**` describes the path `api`, and the matcher rejects it.
  lemma TrailingStarsMiss()
    ensures var pattern := "api/" + "**" + "/" + "**";
      InLanguage(Segments(pattern), Segments("api")) && !GlobMatch(pattern, "api")
  {
    SegmentsOfExample();
    var pattern := ["api", "**", "**"];
    assert pattern[1..] == ["**", "**"] && ["**", "**"][1..] == ["**"] && ["api"][1..] == [];
    assert Shortest([]) == [] && Shortest(["**"]) == [] && Shortest(["**", "**"]) == [];
    assert Shortest(pattern) == ["api"] + Shortest(pattern[1..]) == ["api"];
    ShortestInLanguage(pattern);
  }

  // And `**`, an empty segment and two `**` describe the path `/`, which is rejected too.
  lemma LoneSlashMiss()
    ensures var pattern := "**" + "//" + "**" + "/" + "**";
      InLanguage(Segments(pattern), Segments("/")) && !GlobMatch(pattern, "/")
  {
    var pattern := ["**", "", "**", "**"];
    assert pattern[1..] == ["", "**", "**"] && ["", "**", "**"][1..] == ["**", "**"] && ["**", "**"][1..] == ["**"];
    assert Join(pattern, '/') == "**" + "//" + "**" + "/" + "**";
    SegmentsOfJoin(pattern);
    assert TrimSlashes("/") == "" && Split("", '/') == [""] && Segments("/") == [""];
    assert Shortest([]) == [] && Shortest(["**"]) == [] && Shortest(["**", "**"]) == [];
    assert Shortest(["", "**", "**"]) == [""] && Shortest(pattern) == [""];
    ShortestInLanguage(pattern);
    TooShort(pattern, [""]);
  }

  // ---------------------------------------------------------------- choosing a rule

  datatype EndpointRule<T> = EndpointRule(uriPattern: string, config: T)

  /** The config of the first rule that matches; no rule before it does. */
  ghost predicate FirstMatch<T>(rules: seq<EndpointRule<T>>, path: string, i: int) {
    && 0 <= i < |rules|
    && GlobMatch(rules[i].uriPattern, path)
    && forall j :: 0 <= j < i ==> !GlobMatch(rules[j].uriPattern, path)
  }

  lemma FirstMatchLater<T>(rules: seq<EndpointRule<T>>, path: string, i: int)
    requires rules != [] && !GlobMatch(rules[0].uriPattern, path) && FirstMatch(rules[1..], path, i)
    ensures FirstMatch(rules, path, i + 1) && rules[i + 1] == rules[1..][i]
  {
    assert forall j :: 0 < j <= i ==> rules[j] == rules[1..][j - 1];
  }

  /** The first rule whose pattern describes the path; the query plays no part. */
  function FindEndpointRule<T>(rules: seq<EndpointRule<T>>, pathQuery: string): Option<T> {
    if rules == [] then None
    else if GlobMatch(rules[0].uriPattern, PathOf(pathQuery)) then Some(rules[0].config)
    else FindEndpointRule(rules[1..], pathQuery)
  }

  lemma {:induction false} FoundRuleIsFirst<T>(rules: seq<EndpointRule<T>>, pathQuery: string)
    ensures var found := FindEndpointRule(rules, pathQuery);
      if found.Some? then exists i :: FirstMatch(rules, PathOf(pathQuery), i) && found.value == rules[i].config
      else forall i :: 0 <= i < |rules| ==> !GlobMatch(rules[i].uriPattern, PathOf(pathQuery))
  {
    var path := PathOf(pathQuery);
    if rules != [] {
      if GlobMatch(rules[0].uriPattern, path) {
        assert FirstMatch(rules, path, 0);
      } else {
        FoundRuleIsFirst(rules[1..], pathQuery);
        if FindEndpointRule(rules[1..], pathQuery).Some? {
          var i :| FirstMatch(rules[1..], path, i)
                   && FindEndpointRule(rules[1..], pathQuery).value == rules[1..][i].config;
          FirstMatchLater(rules, path, i);
        } else {
          assert forall j :: 0 < j < |rules| ==> rules[j] == rules[1..][j - 1];
        }
      }
    }
  }
}
