/**
 * Replacing whole identifiers in plain text: the scanning loop, what it means
 * in terms of tokens, and when replacing one key after the other is the same
 * as replacing all of them at once.
 */
module WordBoundary {
  import opened Text

  // ---------------------------------------------------------------- bytes

  predicate IsAscii(c: char) { c as int < 128 }

  predicate AllAscii(s: string) { forall i :: 0 <= i < |s| ==> IsAscii(s[i]) }

  /** The UTF-8 encoding of `c`, each byte read as the character of that number (`byte as char`). */
  function Utf8(c: char): (bytes: string)
    ensures IsAscii(c) ==> bytes == [c]
    ensures !IsAscii(c) ==> |bytes| >= 2 && forall i :: 0 <= i < |bytes| ==> !IsAscii(bytes[i])
  {
    var n := c as int;
    if n < 0x80 then [c]
    else if n < 0x800 then [(0xC0 + n / 64) as char, (0x80 + n % 64) as char]
    else if n < 0x1_0000 then
      [(0xE0 + n / 4096) as char, (0x80 + n / 64 % 64) as char, (0x80 + n % 64) as char]
    else
      [(0xF0 + n / 262144) as char, (0x80 + n / 4096 % 64) as char,
       (0x80 + n / 64 % 64) as char, (0x80 + n % 64) as char]
  }

  /** The number that the bytes of one character stand for. */
  ghost function Decoded(b: string): int {
    if |b| == 1 then b[0] as int
    else if |b| == 2 then (b[0] as int - 0xC0) * 64 + (b[1] as int - 0x80)
    else if |b| == 3 then (b[0] as int - 0xE0) * 4096 + (b[1] as int - 0x80) * 64 + (b[2] as int - 0x80)
    else if |b| == 4 then
      (b[0] as int - 0xF0) * 262144 + (b[1] as int - 0x80) * 4096 + (b[2] as int - 0x80) * 64 + (b[3] as int - 0x80)
    else -1
  }

  /** One byte below 0x80, two below 0x800, three below 0x10000, else four; and they read back. */
  lemma Utf8Decodes(c: char)
    ensures |Utf8(c)| == if c as int < 0x80 then 1 else if c as int < 0x800 then 2 else if c as int < 0x1_0000 then 3 else 4
    ensures forall i :: 0 < i < |Utf8(c)| ==> 0x80 <= Utf8(c)[i] as int < 0xC0
    ensures Decoded(Utf8(c)) == c as int
  {
    var n := c as int;
    if n >= 0x80 { InBase64(n); }
    if n >= 0x1_0000 { InBase64(n / 4096); }
  }

  lemma InBase64(n: nat)
    ensures n == n / 4096 * 4096 + n / 64 % 64 * 64 + n % 64
    ensures n == n / 64 * 64 + n % 64
    ensures n / 262144 == n / 4096 / 64
  {
    assert n / 4096 == n / 64 / 64;
  }

  /** `text.as_bytes()`, each byte read as a character. */
  function Bytes(text: string): (bytes: string)
    ensures AllAscii(text) ==> bytes == text
    ensures text != "" ==> bytes != ""
  {
    if text == [] then [] else Utf8(text[0]) + Bytes(text[1..])
  }

  function ByteLen(text: string): nat { |Bytes(text)| }

  lemma {:induction false} BytesConcat(a: string, b: string)
    ensures Bytes(a + b) == Bytes(a) + Bytes(b)
  {
    if a == [] {
      assert a + b == b;
    } else {
      assert (a + b)[1..] == a[1..] + b;
      BytesConcat(a[1..], b);
    }
  }

  predicate IsIdByte(c: char) {
    '0' <= c <= '9' || 'a' <= c <= 'z' || 'A' <= c <= 'Z' || c == '-' || c == '_'
  }

  predicate AllId(s: string) { forall i :: 0 <= i < |s| ==> IsIdByte(s[i]) }

  /** A non-empty identifier. */
  predicate IsWord(s: string) { s != "" && AllId(s) }

  // ---------------------------------------------------------------- the scan

  /** `pattern` occurs at `i` and is not part of a longer identifier. */
  predicate HitAt(bytes: string, pattern: string, i: nat) {
    && OccursAt(bytes, pattern, i)
    && (i == 0 || !IsIdByte(bytes[i - 1]))
    && (i + |pattern| >= |bytes| || !IsIdByte(bytes[i + |pattern|]))
  }

  /** The scan from position `i`, with the text produced so far. */
  function Scan(bytes: string, pattern: string, to: string, i: nat, done: string): string
    requires pattern != ""
    decreases |bytes| - i
  {
    if i >= |bytes| then done
    else if HitAt(bytes, pattern, i) then Scan(bytes, pattern, to, i + |pattern|, done + to)
    else Scan(bytes, pattern, to, i + 1, done + [bytes[i]])
  }

  function Replaced(text: string, from: string, to: string): string {
    if from == "" || !Contains(text, from) then text
    else Scan(Bytes(text), Bytes(from), to, 0, "")
  }

  method ReplaceAtWordBoundary(text: string, from: string, to: string) returns (result: string)
    ensures result == Replaced(text, from, to)
  {
    if from == "" || !Contains(text, from) { return text; }
    var bytes, pattern := Bytes(text), Bytes(from);
    result := "";
    var i := 0;
    while i < |bytes|
      invariant Ahead(bytes, pattern, to, i, result) == Ahead(bytes, pattern, to, 0, "")
    {
      if HitAt(bytes, pattern, i) {
        AheadHit(bytes, pattern, to, i, result);
        result := result + to;
        i := i + |pattern|;
      } else {
        AheadMiss(bytes, pattern, to, i, result);
        result := result + [bytes[i]];
        i := i + 1;
      }
    }
  }

  /** What the scan will have produced in the end. */
  ghost function Ahead(bytes: string, pattern: string, to: string, i: nat, done: string): string
    requires pattern != ""
  {
    Scan(bytes, pattern, to, i, done)
  }

  lemma AheadHit(bytes: string, pattern: string, to: string, i: nat, done: string)
    requires pattern != "" && i < |bytes| && HitAt(bytes, pattern, i)
    ensures Ahead(bytes, pattern, to, i, done) == Ahead(bytes, pattern, to, i + |pattern|, done + to)
  {
  }

  lemma AheadMiss(bytes: string, pattern: string, to: string, i: nat, done: string)
    requires pattern != "" && i < |bytes| && !HitAt(bytes, pattern, i)
    ensures Ahead(bytes, pattern, to, i, done) == Ahead(bytes, pattern, to, i + 1, done + [bytes[i]])
  {
  }

  // ---------------------------------------------------------------- tokens

  /** Maximal identifiers, possibly empty, with one separator between neighbours. */
  datatype Tokens = Last(word: string) | More(word: string, sep: char, rest: Tokens)

  function WordLen(text: string): (k: nat)
    ensures k <= |text| && AllId(text[..k])
    ensures k < |text| ==> !IsIdByte(text[k])
  {
    if text == "" || !IsIdByte(text[0]) then 0 else 1 + WordLen(text[1..])
  }

  function Tokenise(text: string): Tokens
    decreases |text|
  {
    var k := WordLen(text);
    if k == |text| then Last(text) else More(text[..k], text[k], Tokenise(text[k + 1..]))
  }

  function Untokenise(t: Tokens): string {
    match t
    case Last(word) => word
    case More(word, sep, rest) => word + [sep] + Untokenise(rest)
  }

  ghost predicate WellFormed(t: Tokens) {
    && AllId(t.word)
    && (t.More? ==> !IsIdByte(t.sep) && WellFormed(t.rest))
  }

  /** Tokens and texts correspond one to one. */
  lemma {:induction false} TokeniseInverse(text: string)
    ensures WellFormed(Tokenise(text)) && Untokenise(Tokenise(text)) == text
    decreases |text|
  {
    var k := WordLen(text);
    if k < |text| {
      TokeniseInverse(text[k + 1..]);
      assert text == text[..k] + [text[k]] + text[k + 1..];
    }
  }

  lemma WordLenIs(text: string, k: nat)
    requires k <= |text| && AllId(text[..k]) && (k < |text| ==> !IsIdByte(text[k]))
    ensures WordLen(text) == k
  {
    var l := WordLen(text);
    assert forall i :: 0 <= i < k ==> text[..k][i] == text[i];
    assert forall i :: 0 <= i < l ==> text[..l][i] == text[i];
  }

  lemma {:induction false} UntokeniseInverse(t: Tokens)
    requires WellFormed(t)
    ensures Tokenise(Untokenise(t)) == t
  {
    var text := Untokenise(t);
    assert text[..|t.word|] == t.word;
    WordLenIs(text, |t.word|);
    if t.More? {
      assert text[|t.word| + 1..] == Untokenise(t.rest);
      UntokeniseInverse(t.rest);
    }
  }

  // ---------------------------------------------------------------- token substitution

  function SubstWord(w: string, subs: map<string, string>): string {
    if w in subs then subs[w] else w
  }

  function SubstTokens(t: Tokens, subs: map<string, string>): Tokens {
    match t
    case Last(word) => Last(SubstWord(word, subs))
    case More(word, sep, rest) => More(SubstWord(word, subs), sep, SubstTokens(rest, subs))
  }

  /** Every maximal identifier that is a key is replaced, all at once; the rest is untouched. */
  function TokenSubst(text: string, subs: map<string, string>): string {
    Untokenise(SubstTokens(Tokenise(text), subs))
  }

  lemma TokenSubstStep(w: string, sep: char, rest: string, subs: map<string, string>)
    requires AllId(w) && !IsIdByte(sep)
    ensures TokenSubst(w + [sep] + rest, subs) == SubstWord(w, subs) + [sep] + TokenSubst(rest, subs)
  {
    var text := w + [sep] + rest;
    assert text[..|w|] == w && text[|w| + 1..] == rest;
    WordLenIs(text, |w|);
  }

  lemma SingleWord(w: string)
    requires AllId(w)
    ensures Tokenise(w) == Last(w)
  {
    assert w[..|w|] == w;
    WordLenIs(w, |w|);
  }

  // ---------------------------------------------------------------- the scan replaces tokens

  /** Inside an identifier the scan copies. */
  lemma {:induction false} ScanCopies(bytes: string, from: string, to: string, i: nat, e: nat, done: string)
    requires from != "" && 0 < i <= e <= |bytes|
    requires forall j :: i - 1 <= j < e ==> IsIdByte(bytes[j])
    ensures Scan(bytes, from, to, i, done) == Scan(bytes, from, to, e, done + bytes[i..e])
    decreases e - i
  {
    if i == e {
      assert done + bytes[i..e] == done;
    } else {
      assert !HitAt(bytes, from, i);
      ScanCopies(bytes, from, to, i + 1, e, done + [bytes[i]]);
      assert done + [bytes[i]] + bytes[i + 1..e] == done + bytes[i..e];
    }
  }

  /** From the start of an identifier the scan emits it, replaced when it is `from`. */
  lemma ScanWord(bytes: string, from: string, to: string, i: nat, e: nat, done: string)
    requires IsWord(from) && i <= e <= |bytes|
    requires i == 0 || !IsIdByte(bytes[i - 1])
    requires forall j :: i <= j < e ==> IsIdByte(bytes[j])
    requires e < |bytes| ==> !IsIdByte(bytes[e])
    ensures Scan(bytes, from, to, i, done)
         == Scan(bytes, from, to, e, done + SubstWord(bytes[i..e], map[from := to]))
  {
    if i == e {
      assert done + bytes[i..e] == done;
    } else if HitAt(bytes, from, i) {
      HitIsWholeWord(bytes, from, i, e);
    } else {
      assert bytes[i..e] != from;
      ScanCopies(bytes, from, to, i + 1, e, done + [bytes[i]]);
      assert done + [bytes[i]] + bytes[i + 1..e] == done + bytes[i..e];
    }
  }

  lemma HitIsWholeWord(bytes: string, from: string, i: nat, e: nat)
    requires IsWord(from) && i < e <= |bytes| && HitAt(bytes, from, i)
    requires forall j :: i <= j < e ==> IsIdByte(bytes[j])
    requires e < |bytes| ==> !IsIdByte(bytes[e])
    ensures bytes[i..e] == from
  {
    var f := i + |from|;
    WholeOccurrence(bytes, from, i);
    assert f <= e;
    assert e <= f;
  }

  lemma ScanSeparator(bytes: string, from: string, to: string, e: nat, done: string)
    requires IsWord(from) && e < |bytes| && !IsIdByte(bytes[e])
    ensures Scan(bytes, from, to, e, done) == Scan(bytes, from, to, e + 1, done + [bytes[e]])
  {
    if OccursAt(bytes, from, e) {
      WholeOccurrence(bytes, from, e);
    }
  }

  lemma WholeOccurrence(bytes: string, from: string, i: nat)
    requires OccursAt(bytes, from, i)
    ensures forall j :: i <= j < i + |from| ==> bytes[j] == from[j - i]
  {
    var part := bytes[i..i + |from|];
    assert forall j :: i <= j < i + |from| ==> bytes[j] == part[j - i];
  }

  /** Where the identifier that starts at `i` ends. */
  lemma WordEnd(bytes: string, i: nat) returns (e: nat)
    requires i <= |bytes|
    ensures i <= e <= |bytes| && (e < |bytes| ==> !IsIdByte(bytes[e]))
    ensures forall j :: i <= j < e ==> IsIdByte(bytes[j])
  {
    var rest := bytes[i..];
    var k := WordLen(rest);
    e := i + k;
    assert forall j :: i <= j < e ==> bytes[j] == rest[..k][j - i];
    assert e < |bytes| ==> bytes[e] == rest[k];
  }

  lemma TokenSubstFrom(bytes: string, i: nat, e: nat, subs: map<string, string>)
    requires i <= e <= |bytes| && AllId(bytes[i..e]) && (e < |bytes| ==> !IsIdByte(bytes[e]))
    ensures TokenSubst(bytes[i..], subs) == SubstWord(bytes[i..e], subs) +
              if e == |bytes| then "" else [bytes[e]] + TokenSubst(bytes[e + 1..], subs)
  {
    var w := bytes[i..e];
    if e == |bytes| {
      assert bytes[i..] == w;
      SingleWord(w);
    } else {
      assert bytes[i..] == w + [bytes[e]] + bytes[e + 1..];
      TokenSubstStep(w, bytes[e], bytes[e + 1..], subs);
      Regroup2(SubstWord(w, subs), [bytes[e]], TokenSubst(bytes[e + 1..], subs));
    }
  }

  /** The scan, started at an identifier boundary, is token replacement of the rest. */
  lemma {:induction false} ScanIsTokenSubst(bytes: string, from: string, to: string, i: nat, done: string)
    requires IsWord(from) && i <= |bytes|
    requires i == 0 || !IsIdByte(bytes[i - 1])
    ensures Scan(bytes, from, to, i, done) == done + TokenSubst(bytes[i..], map[from := to])
    decreases |bytes| - i
  {
    var e := WordEnd(bytes, i);
    var word := SubstWord(bytes[i..e], map[from := to]);
    ScanWord(bytes, from, to, i, e, done);
    TokenSubstFrom(bytes, i, e, map[from := to]);
    if e == |bytes| {
      assert word + "" == word;
    } else {
      ScanSeparator(bytes, from, to, e, done + word);
      ScanIsTokenSubst(bytes, from, to, e + 1, done + word + [bytes[e]]);
      Regroup3(done, word, [bytes[e]], TokenSubst(bytes[e + 1..], map[from := to]));
    }
  }

  lemma {:induction false} ScanCopiesAll(bytes: string, from: string, to: string, i: nat, done: string)
    requires from != "" && !Contains(bytes, from) && i <= |bytes|
    ensures Scan(bytes, from, to, i, done) == done + bytes[i..]
    decreases |bytes| - i
  {
    if i == |bytes| {
      assert done + bytes[i..] == done;
    } else {
      assert !HitAt(bytes, from, i);
      ScanCopiesAll(bytes, from, to, i + 1, done + [bytes[i]]);
      assert done + [bytes[i]] + bytes[i + 1..] == done + bytes[i..];
    }
  }

  lemma NoOccurrenceNoChange(text: string, from: string, to: string)
    requires IsWord(from) && !Contains(text, from)
    ensures TokenSubst(text, map[from := to]) == text
  {
    assert text[0..] == text;
    ScanIsTokenSubst(text, from, to, 0, "");
    ScanCopiesAll(text, from, to, 0, "");
    var whole := TokenSubst(text, map[from := to]);
    assert "" + text == text && "" + whole == whole;
  }

  lemma WordIsAscii(w: string)
    requires AllId(w)
    ensures AllAscii(w) && Bytes(w) == w
  {
  }

  /** The loop in terms of tokens, for every text. */
  lemma ReplacedIsTokenSubst(text: string, from: string, to: string)
    requires IsWord(from)
    ensures Replaced(text, from, to) ==
            if Contains(text, from) then TokenSubst(Bytes(text), map[from := to]) else text
  {
    WordIsAscii(from);
    ScanIsTokenSubst(Bytes(text), from, to, 0, "");
    assert Bytes(text)[0..] == Bytes(text);
  }

  // ---------------------------------------------------------------- other alphabets

  lemma {:induction false} SeparatorsKept(seps: string, rest: string, subs: map<string, string>)
    requires "" !in subs
    requires forall i :: 0 <= i < |seps| ==> !IsIdByte(seps[i])
    ensures TokenSubst(seps + rest, subs) == seps + TokenSubst(rest, subs)
  {
    if seps == "" {
      assert seps + rest == rest;
    } else {
      assert seps + rest == "" + [seps[0]] + (seps[1..] + rest);
      TokenSubstStep("", seps[0], seps[1..] + rest, subs);
      SeparatorsKept(seps[1..], rest, subs);
    }
  }

  lemma BytesOfStep(w: string, c: char, rest: string)
    requires AllId(w)
    ensures Bytes(w + [c] + rest) == w + Utf8(c) + Bytes(rest)
  {
    BytesConcat(w + [c], rest);
    BytesConcat(w, [c]);
    WordIsAscii(w);
    assert [c][1..] == [];
    assert Utf8(c) + Bytes([]) == Utf8(c);
  }

  /** The first word and separator of a text, and its bytes. */
  lemma BytesStep(w: string, c: char, rest: string, subs: map<string, string>)
    requires "" !in subs && AllId(w) && !IsIdByte(c)
    ensures TokenSubst(Bytes(w + [c] + rest), subs) == SubstWord(w, subs) + Utf8(c) + TokenSubst(Bytes(rest), subs)
  {
    var u, tail := Utf8(c), Bytes(rest);
    BytesOfStep(w, c, rest);
    Regroup(w, u, tail);
    TokenSubstStep(w, u[0], u[1..] + tail, subs);
    SeparatorsKept(u[1..], tail, subs);
    Regroup(SubstWord(w, subs), u, TokenSubst(tail, subs));
  }

  lemma AsciiParts(w: string, c: char, rest: string)
    ensures AllAscii(w + [c] + rest) <==> AllAscii(w) && IsAscii(c) && AllAscii(rest)
  {
    var text := w + [c] + rest;
    assert forall i :: 0 <= i < |w| ==> w[i] == text[i];
    assert text[|w|] == c;
    assert forall i :: 0 <= i < |rest| ==> rest[i] == text[|w| + 1 + i];
  }

  /** Reading bytes as characters makes the text longer for every non-ASCII character. */
  lemma {:induction false} BytesGrow(text: string, subs: map<string, string>)
    requires "" !in subs
    ensures |TokenSubst(Bytes(text), subs)| >= |TokenSubst(text, subs)|
    ensures !AllAscii(text) ==> |TokenSubst(Bytes(text), subs)| > |TokenSubst(text, subs)|
    decreases |text|
  {
    var k := WordEnd(text, 0);
    if k == |text| {
      WordIsAscii(text);
    } else {
      var w, c, rest := text[..k], text[k], text[k + 1..];
      assert text == w + [c] + rest;
      BytesStep(w, c, rest, subs);
      TokenSubstStep(w, c, rest, subs);
      BytesGrow(rest, subs);
      WordIsAscii(w);
      AsciiParts(w, c, rest);
    }
  }

  /**
   * The loop replaces exactly the whole identifiers equal to `from` and leaves
   * the rest of the text alone if and only if the text is ASCII or does not
   * hold `from` at all.
   */
  lemma ReplacesExactlyTokens(text: string, from: string, to: string)
    requires IsWord(from)
    ensures Replaced(text, from, to) == TokenSubst(text, map[from := to])
       <==> AllAscii(text) || !Contains(text, from)
  {
    ReplacedIsTokenSubst(text, from, to);
    if !Contains(text, from) {
      NoOccurrenceNoChange(text, from, to);
    } else {
      BytesGrow(text, map[from := to]);
    }
  }

  /** A neighbour that is a letter, a digit, `-` or `_` protects the text; any other does not. */
  lemma NeighbourDecides(from: string, to: string, c: char)
    requires from != "" && IsAscii(c)
    requires forall i :: 0 <= i < |from| ==>
      '0' <= from[i] <= '9' || 'a' <= from[i] <= 'z' || 'A' <= from[i] <= 'Z' || from[i] == '-' || from[i] == '_'
    ensures var inside := '0' <= c <= '9' || 'a' <= c <= 'z' || 'A' <= c <= 'Z' || c == '-' || c == '_';
      && Replaced(from + [c], from, to) == (if inside then from else to) + [c]
      && Replaced([c] + from, from, to) == [c] + if inside then from else to
  {
    WordIsAscii(from);
    if IsIdByte(c) { InsideIsKept(from, to, c); } else { OutsideIsCut(from, to, c); }
  }

  lemma TokenSubstWord(w: string, subs: map<string, string>)
    requires AllId(w)
    ensures TokenSubst(w, subs) == SubstWord(w, subs)
  {
    SingleWord(w);
  }

  lemma InsideIsKept(from: string, to: string, c: char)
    requires IsWord(from) && AllAscii(from) && IsAscii(c) && IsIdByte(c)
    ensures Replaced(from + [c], from, to) == from + [c] && Replaced([c] + from, from, to) == [c] + from
  {
    WordIsKept(from + [c], from, to);
    WordIsKept([c] + from, from, to);
  }

  lemma WordIsKept(w: string, from: string, to: string)
    requires IsWord(from) && IsWord(w) && AllAscii(w) && |w| > |from|
    ensures Replaced(w, from, to) == w
  {
    ReplacesExactlyTokens(w, from, to);
    TokenSubstWord(w, map[from := to]);
  }

  lemma OutsideIsCut(from: string, to: string, c: char)
    requires IsWord(from) && AllAscii(from) && IsAscii(c) && !IsIdByte(c)
    ensures Replaced(from + [c], from, to) == to + [c] && Replaced([c] + from, from, to) == [c] + to
  {
    var subs := map[from := to];
    TokenSubstWord(from, subs);
    TokenSubstWord("", subs);
    PartsAreSubstituted(from, from, to, c, "");
    PartsAreSubstituted("", from, to, c, from);
    assert from + [c] + "" == from + [c] && to + [c] + "" == to + [c];
    assert "" + [c] + from == [c] + from && "" + [c] + to == [c] + to;
  }

  lemma PartsAreSubstituted(w: string, from: string, to: string, c: char, rest: string)
    requires IsWord(from) && AllId(w) && AllAscii(w) && IsAscii(c) && !IsIdByte(c) && AllAscii(rest)
    ensures Replaced(w + [c] + rest, from, to) == SubstWord(w, map[from := to]) + [c] + TokenSubst(rest, map[from := to])
  {
    ReplacesExactlyTokens(w + [c] + rest, from, to);
    TokenSubstStep(w, c, rest, map[from := to]);
  }

  // ---------------------------------------------------------------- one key after the other

  /** Keys are identifiers, values are made of identifier characters. */
  ghost predicate WordSubs(subs: map<string, string>) {
    forall k :: k in subs ==> IsWord(k) && AllId(subs[k])
  }

  /** The keys, longest first; keys of one length come in any order. */
  ghost predicate LongestFirst(order: seq<string>, subs: map<string, string>) {
    && (forall k :: k in order <==> k in subs)
    && Ranked(order)
  }

  ghost predicate Ranked(order: seq<string>) {
    forall i, j :: 0 <= i < j < |order| ==> order[i] != order[j] && |order[i]| >= |order[j]|
  }

  /** The loop over the sorted pairs, from the `i`-th on. */
  function ReplacedInOrder(text: string, subs: map<string, string>, order: seq<string>, i: nat): string
    requires forall k :: k in order ==> k in subs
    decreases |order| - i
  {
    if i >= |order| then text
    else ReplacedInOrder(Replaced(text, order[i], subs[order[i]]), subs, order, i + 1)
  }

  /** What becomes of one word. */
  function Chain(w: string, subs: map<string, string>, order: seq<string>, i: nat): string
    requires forall k :: k in order ==> k in subs
    decreases |order| - i
  {
    if i >= |order| then w
    else Chain(if w == order[i] then subs[order[i]] else w, subs, order, i + 1)
  }

  function ChainTokens(t: Tokens, subs: map<string, string>, order: seq<string>, i: nat): Tokens
    requires forall k :: k in order ==> k in subs
  {
    match t
    case Last(word) => Last(Chain(word, subs, order, i))
    case More(word, sep, rest) => More(Chain(word, subs, order, i), sep, ChainTokens(rest, subs, order, i))
  }

  lemma {:induction false} ChainTokensStep(t: Tokens, subs: map<string, string>, order: seq<string>, i: nat)
    requires i < |order| && forall k :: k in order ==> k in subs
    ensures ChainTokens(t, subs, order, i)
         == ChainTokens(SubstTokens(t, map[order[i] := subs[order[i]]]), subs, order, i + 1)
  {
    if t.More? { ChainTokensStep(t.rest, subs, order, i); }
  }

  lemma {:induction false} ChainTokensEnd(t: Tokens, subs: map<string, string>, order: seq<string>)
    requires forall k :: k in order ==> k in subs
    ensures ChainTokens(t, subs, order, |order|) == t
  {
    if t.More? { ChainTokensEnd(t.rest, subs, order); }
  }

  lemma {:induction false} SubstKeepsWellFormed(t: Tokens, subs: map<string, string>)
    requires WellFormed(t) && forall k :: k in subs ==> AllId(subs[k])
    ensures WellFormed(SubstTokens(t, subs))
  {
    if t.More? { SubstKeepsWellFormed(t.rest, subs); }
  }

  lemma {:induction false} AsciiTokens(t: Tokens)
    requires WellFormed(t) && AllAscii(Untokenise(t))
    ensures t.More? ==> IsAscii(t.sep) && AllAscii(Untokenise(t.rest))
  {
    if t.More? {
      var text := Untokenise(t);
      assert text[|t.word|] == t.sep;
      assert forall i :: 0 <= i < |Untokenise(t.rest)| ==> Untokenise(t.rest)[i] == text[|t.word| + 1 + i];
    }
  }

  lemma {:induction false} SubstKeepsAscii(t: Tokens, subs: map<string, string>)
    requires WellFormed(t) && AllAscii(Untokenise(t)) && forall k :: k in subs ==> AllId(subs[k])
    ensures AllAscii(Untokenise(SubstTokens(t, subs)))
  {
    WordIsAscii(SubstWord(t.word, subs));
    AsciiTokens(t);
    if t.More? { SubstKeepsAscii(t.rest, subs); }
  }

  /** Replacing keys in order works word by word. */
  lemma {:induction false} InOrderIsChain(text: string, subs: map<string, string>, order: seq<string>, i: nat)
    requires AllAscii(text) && WordSubs(subs) && i <= |order| && forall k :: k in order ==> k in subs
    ensures ReplacedInOrder(text, subs, order, i) == Untokenise(ChainTokens(Tokenise(text), subs, order, i))
    decreases |order| - i
  {
    var t := Tokenise(text);
    TokeniseInverse(text);
    if i == |order| {
      ChainTokensEnd(t, subs, order);
    } else {
      var k := order[i];
      assert k in order;
      var one := map[k := subs[k]];
      ReplacesExactlyTokens(text, k, subs[k]);
      SubstKeepsWellFormed(t, one);
      SubstKeepsAscii(t, one);
      UntokeniseInverse(SubstTokens(t, one));
      InOrderIsChain(Replaced(text, k, subs[k]), subs, order, i + 1);
      ChainTokensStep(t, subs, order, i);
    }
  }

  // ---------------------------------------------------------------- when the order does no harm

  /** The value of `k` is a key itself, no longer than `k`, and replaced by something else. */
  predicate Hazard(k: string, subs: map<string, string>)
    requires k in subs
  {
    subs[k] in subs && |subs[k]| <= |k| && subs[subs[k]] != subs[k]
  }

  predicate Interferes(subs: map<string, string>) {
    exists k | k in subs :: Hazard(k, subs)
  }

  predicate ComesLater(w: string, order: seq<string>, i: nat) {
    exists j :: i <= j < |order| && order[j] == w
  }

  lemma {:induction false} ChainIsSubst(w: string, subs: map<string, string>, order: seq<string>, i: nat)
    requires Ranked(order) && (forall k :: k in order ==> k in subs) && !Interferes(subs)
    ensures ComesLater(w, order, i) ==> w in subs
    ensures Chain(w, subs, order, i) == if ComesLater(w, order, i) then subs[w] else w
    decreases |order| - i
  {
    if i < |order| {
      assert order[i] in order;
      if w == order[i] {
        var v := subs[w];
        ChainIsSubst(v, subs, order, i + 1);
        assert !Hazard(w, subs);
      } else {
        ChainIsSubst(w, subs, order, i + 1);
      }
    }
  }

  lemma {:induction false} ChainTokensAreSubst(t: Tokens, subs: map<string, string>, order: seq<string>)
    requires LongestFirst(order, subs) && !Interferes(subs)
    ensures ChainTokens(t, subs, order, 0) == SubstTokens(t, subs)
  {
    ChainIsSubst(t.word, subs, order, 0);
    assert t.word in order <==> t.word in subs;
    if t.More? { ChainTokensAreSubst(t.rest, subs, order); }
  }

  lemma SafeOrder(text: string, subs: map<string, string>, order: seq<string>)
    requires AllAscii(text) && WordSubs(subs) && LongestFirst(order, subs) && !Interferes(subs)
    ensures ReplacedInOrder(text, subs, order, 0) == TokenSubst(text, subs)
  {
    InOrderIsChain(text, subs, order, 0);
    ChainTokensAreSubst(Tokenise(text), subs, order);
  }

  /** A hazard whose value is as short as possible. */
  lemma LeastHazard(subs: map<string, string>, k: string) returns (least: string)
    requires k in subs && Hazard(k, subs)
    ensures least in subs && Hazard(least, subs)
    ensures forall h :: h in subs && Hazard(h, subs) ==> |subs[least]| <= |subs[h]|
    decreases |subs[k]|
  {
    if h :| h in subs && Hazard(h, subs) && |subs[h]| < |subs[k]| {
      least := LeastHazard(subs, h);
    } else {
      least := k;
    }
  }

  /** Longest first, and `last` after the other keys of its length. */
  function Rank(k: string, last: string): nat { 2 * |k| + if k == last then 0 else 1 }

  lemma {:induction false} HighestRank(keys: set<string>, last: string) returns (top: string)
    requires keys != {}
    ensures top in keys && forall k :: k in keys ==> Rank(k, last) <= Rank(top, last)
    decreases |keys|
  {
    var k :| k in keys;
    top := k;
    if keys != {k} {
      assert keys - {k} != {};
      var t := HighestRank(keys - {k}, last);
      if Rank(k, last) < Rank(t, last) { top := t; }
    }
  }

  lemma {:induction false} OrderExists(keys: set<string>, last: string) returns (order: seq<string>)
    ensures forall k :: k in order <==> k in keys
    ensures forall i, j :: 0 <= i < j < |order| ==>
              order[i] != order[j] && Rank(order[i], last) >= Rank(order[j], last)
    decreases |keys|
  {
    if keys == {} {
      order := [];
    } else {
      var top := HighestRank(keys, last);
      var rest := OrderExists(keys - {top}, last);
      order := [top] + rest;
      forall j | 0 <= j < |rest| ensures top != rest[j] && Rank(top, last) >= Rank(rest[j], last) {
        assert rest[j] in rest;
      }
    }
  }

  lemma {:induction false} ChainUntouched(w: string, subs: map<string, string>, order: seq<string>, i: nat, j: nat)
    requires i <= j <= |order| && forall k :: k in order ==> k in subs
    requires forall x :: i <= x < j ==> order[x] != w
    ensures Chain(w, subs, order, i) == Chain(w, subs, order, j)
    decreases j - i
  {
    if i < j { ChainUntouched(w, subs, order, i + 1, j); }
  }

  /** With a hazard, some longest-first order goes wrong on some text. */
  lemma UnsafeOrder(subs: map<string, string>) returns (text: string, order: seq<string>)
    requires WordSubs(subs) && Interferes(subs)
    ensures AllAscii(text) && LongestFirst(order, subs)
    ensures ReplacedInOrder(text, subs, order, 0) != TokenSubst(text, subs)
  {
    var some :| some in subs && Hazard(some, subs);
    text := LeastHazard(subs, some);
    order := OrderExists(subs.Keys, subs[text]);
    forall i, j | 0 <= i < j < |order| ensures |order[i]| >= |order[j]| {
      assert Rank(order[i], subs[text]) >= Rank(order[j], subs[text]);
    }
    HazardChain(subs, text, order);
    WordIsAscii(text);
    InOrderIsChain(text, subs, order, 0);
    SingleWord(text);
  }

  /** The least hazard is replaced twice when its value comes last among the keys of its length. */
  lemma HazardChain(subs: map<string, string>, k: string, order: seq<string>)
    requires k in subs && Hazard(k, subs)
    requires forall h :: h in subs && Hazard(h, subs) ==> |subs[k]| <= |subs[h]|
    requires LongestFirst(order, subs)
    requires forall i, j :: 0 <= i < j < |order| ==> Rank(order[i], subs[k]) >= Rank(order[j], subs[k])
    ensures Chain(k, subs, order, 0) != subs[k]
  {
    var v := subs[k];
    assert k in order && v in order;
    var p :| 0 <= p < |order| && order[p] == k;
    var q :| 0 <= q < |order| && order[q] == v;
    assert p < q;
    ReplacedTwice(subs, k, order, p, q);
    forall r | q < r < |order| ensures |order[r]| < |v| {
      assert Rank(order[q], v) >= Rank(order[r], v);
    }
    ChainSettles(v, subs, order, q);
  }

  lemma ReplacedTwice(subs: map<string, string>, k: string, order: seq<string>, p: nat, q: nat)
    requires k in subs && subs[k] in subs && LongestFirst(order, subs)
    requires p < q < |order| && order[p] == k && order[q] == subs[k]
    ensures Chain(k, subs, order, 0) == Chain(subs[subs[k]], subs, order, q + 1)
  {
    ChainUntouched(k, subs, order, 0, p);
    ChainReplaced(k, subs, order, p);
    ChainUntouched(subs[k], subs, order, p + 1, q);
    ChainReplaced(subs[k], subs, order, q);
  }

  lemma ChainReplaced(w: string, subs: map<string, string>, order: seq<string>, i: nat)
    requires i < |order| && order[i] == w && forall k :: k in order ==> k in subs
    ensures w in subs && Chain(w, subs, order, i) == Chain(subs[w], subs, order, i + 1)
  {
  }

  /** Past the hazard's value only shorter keys are left, and none of them is a hazard for it. */
  lemma ChainSettles(v: string, subs: map<string, string>, order: seq<string>, q: nat)
    requires Ranked(order) && q < |order| && order[q] == v && forall k :: k in order ==> k in subs
    requires forall h :: h in subs && Hazard(h, subs) ==> |v| <= |subs[h]|
    requires forall r :: q < r < |order| ==> |order[r]| < |v|
    ensures v in subs && Chain(subs[v], subs, order, q + 1) == subs[v]
  {
    assert v in order;
    var w := subs[v];
    if r :| q < r < |order| && order[r] == w {
      assert w in order && !Hazard(v, subs);
      ChainUntouched(w, subs, order, q + 1, r);
      ChainReplaced(w, subs, order, r);
      ChainUntouched(w, subs, order, r + 1, |order|);
    } else {
      ChainUntouched(w, subs, order, q + 1, |order|);
    }
  }

  /**
   * Longest-first replacement equals simultaneous replacement, on every ASCII
   * text and whatever the order among keys of one length, if and only if no
   * value is itself a key that is no longer than the key it stands for and is
   * replaced by something else.
   */
  lemma LongestFirstIsSimultaneous(subs: map<string, string>)
    requires WordSubs(subs)
    ensures (forall text, order :: AllAscii(text) && LongestFirst(order, subs) ==>
                ReplacedInOrder(text, subs, order, 0) == TokenSubst(text, subs))
       <==> !Interferes(subs)
  {
    if Interferes(subs) {
      var text, order := UnsafeOrder(subs);
    } else {
      forall text, order | AllAscii(text) && LongestFirst(order, subs)
        ensures ReplacedInOrder(text, subs, order, 0) == TokenSubst(text, subs)
      {
        SafeOrder(text, subs, order);
      }
    }
  }
}
