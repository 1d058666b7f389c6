/**
 * Response sequences: each matching request gets the next response of the
 * first matching sequence. Cursors are 32-bit counters kept by sequence id.
 */
module Sequences {
  import opened Options
  import opened PathShape

  datatype SequenceResponse = SequenceResponse(status: nat, body: string, headers: map<string, string>, latencyMs: nat)

  datatype MockSequence = MockSequence(
    id: string, httpMethod: string, uri: string, responses: seq<SequenceResponse>, loopResponses: bool)

  const U32_SIZE: int := 0x1_0000_0000

  type U32 = n: int | 0 <= n < U32_SIZE

  type Counters = map<string, U32>

  // ---------------------------------------------------------------- specification of one request

  predicate Matches(s: MockSequence, httpMethod: string, uri: string, alphanumeric: char -> bool) {
    s.httpMethod == httpMethod && (s.uri == uri || PathsMatch(s.uri, uri, alphanumeric))
  }

  /** The first sequence that matches. */
  function FirstMatch(seqs: seq<MockSequence>, httpMethod: string, uri: string, alphanumeric: char -> bool)
    : (found: Option<MockSequence>)
    ensures found.Some? ==> found.value in seqs && Matches(found.value, httpMethod, uri, alphanumeric)
  {
    if seqs == [] then None
    else if Matches(seqs[0], httpMethod, uri, alphanumeric) then Some(seqs[0])
    else FirstMatch(seqs[1..], httpMethod, uri, alphanumeric)
  }

  /** The sequence at `i` has the method, and the URI or the shape of the path; and no earlier one has. */
  ghost predicate IsFirst(seqs: seq<MockSequence>, httpMethod: string, uri: string, alphanumeric: char -> bool, i: int) {
    && 0 <= i < |seqs|
    && seqs[i].httpMethod == httpMethod
    && (seqs[i].uri == uri || PathsMatch(seqs[i].uri, uri, alphanumeric))
    && forall j :: 0 <= j < i ==>
         seqs[j].httpMethod != httpMethod || (seqs[j].uri != uri && !PathsMatch(seqs[j].uri, uri, alphanumeric))
  }

  /** Nothing is found only when no sequence has them; else the first is. */
  lemma {:induction false} FirstMatchIsFirst(seqs: seq<MockSequence>, httpMethod: string, uri: string, alphanumeric: char -> bool)
    ensures var found := FirstMatch(seqs, httpMethod, uri, alphanumeric);
      if found.Some? then exists i :: IsFirst(seqs, httpMethod, uri, alphanumeric, i) && seqs[i] == found.value
      else forall i :: 0 <= i < |seqs| ==>
        seqs[i].httpMethod != httpMethod || (seqs[i].uri != uri && !PathsMatch(seqs[i].uri, uri, alphanumeric))
  {
    if seqs != [] {
      if Matches(seqs[0], httpMethod, uri, alphanumeric) {
        assert IsFirst(seqs, httpMethod, uri, alphanumeric, 0);
      } else {
        var rest := seqs[1..];
        FirstMatchIsFirst(rest, httpMethod, uri, alphanumeric);
        if FirstMatch(rest, httpMethod, uri, alphanumeric).Some? {
          var i :| IsFirst(rest, httpMethod, uri, alphanumeric, i)
                   && rest[i] == FirstMatch(rest, httpMethod, uri, alphanumeric).value;
          FirstLater(seqs, httpMethod, uri, alphanumeric, i);
        } else {
          assert forall i :: 0 < i < |seqs| ==> seqs[i] == rest[i - 1];
        }
      }
    }
  }

  lemma FirstLater(seqs: seq<MockSequence>, httpMethod: string, uri: string, alphanumeric: char -> bool, i: int)
    requires seqs != [] && !Matches(seqs[0], httpMethod, uri, alphanumeric)
    requires IsFirst(seqs[1..], httpMethod, uri, alphanumeric, i)
    ensures IsFirst(seqs, httpMethod, uri, alphanumeric, i + 1) && seqs[i + 1] == seqs[1..][i]
  {
    assert forall j :: 0 < j <= i ==> seqs[j] == seqs[1..][j - 1];
  }

  function CounterOf(counters: Counters, id: string): U32 {
    if id in counters then counters[id] else 0
  }

  /** The response at a counter: the last one when the counter is past the end. */
  function ResponseAt(s: MockSequence, counter: nat): SequenceResponse
    requires s.responses != []
  {
    s.responses[if counter < |s.responses| then counter else |s.responses| - 1]
  }

  /** The counter after a response, cut to 32 bits. */
  function NextCounter(s: MockSequence, counter: U32): U32
    requires s.responses != []
  {
    (if s.loopResponses then (counter + 1) % |s.responses| else counter + 1) % U32_SIZE
  }

  /** The response at the sequence's cursor, which alone moves on. */
  ghost predicate Answers(s: MockSequence, before: Counters, answer: SequenceResponse, after: Counters)
    requires s.responses != []
  {
    && answer == ResponseAt(s, CounterOf(before, s.id))
    && after == before[s.id := NextCounter(s, CounterOf(before, s.id))]
  }

  ghost predicate FromFirst(
    seqs: seq<MockSequence>, httpMethod: string, uri: string, alphanumeric: char -> bool,
    before: Counters, answer: SequenceResponse, after: Counters)
  {
    exists i ::
      IsFirst(seqs, httpMethod, uri, alphanumeric, i) && seqs[i].responses != [] && Answers(seqs[i], before, answer, after)
  }

  /** The sequence a request is answered from. */
  function Served(seqs: seq<MockSequence>, httpMethod: string, uri: string, alphanumeric: char -> bool)
    : (s: Option<MockSequence>)
    ensures s.Some? ==> s.value in seqs && s.value.responses != []
  {
    var found := FirstMatch(seqs, httpMethod, uri, alphanumeric);
    if found.Some? && found.value.responses != [] then found else None
  }

  /** It is the first match, unless that one has no responses. */
  lemma ServedIff(seqs: seq<MockSequence>, httpMethod: string, uri: string, alphanumeric: char -> bool, s: MockSequence)
    ensures Served(seqs, httpMethod, uri, alphanumeric) == Some(s) <==>
      s.responses != [] && exists i :: IsFirst(seqs, httpMethod, uri, alphanumeric, i) && seqs[i] == s
  {
    FirstMatchIsFirst(seqs, httpMethod, uri, alphanumeric);
    var found := FirstMatch(seqs, httpMethod, uri, alphanumeric);
    if i :| IsFirst(seqs, httpMethod, uri, alphanumeric, i) && seqs[i] == s {
      var j :| IsFirst(seqs, httpMethod, uri, alphanumeric, j) && seqs[j] == found.value;
      assert i == j;
    }
  }

  function Without(seqs: seq<MockSequence>, id: string): (kept: seq<MockSequence>)
    ensures forall s :: s in kept <==> s in seqs && s.id != id
  {
    if seqs == [] then []
    else (if seqs[0].id != id then [seqs[0]] else []) + Without(seqs[1..], id)
  }

  /** Nothing else goes, and the order stays. */
  lemma {:induction false} WithoutOne(before: seq<MockSequence>, s: MockSequence, rest: seq<MockSequence>)
    requires forall x :: x in before || x in rest ==> x.id != s.id
    ensures Without(before + [s] + rest, s.id) == before + rest == Without(before + rest, s.id)
  {
    if before == [] {
      assert before + [s] + rest == [s] + rest && ([s] + rest)[1..] == rest && before + rest == rest;
      WithoutNone(rest, s.id);
    } else {
      assert (before + [s] + rest)[1..] == before[1..] + [s] + rest && (before + rest)[1..] == before[1..] + rest;
      WithoutOne(before[1..], s, rest);
      assert [before[0]] + (before[1..] + rest) == before + rest;
    }
  }

  lemma {:induction false} WithoutNone(seqs: seq<MockSequence>, id: string)
    requires forall s :: s in seqs ==> s.id != id
    ensures Without(seqs, id) == seqs
  {
    if seqs != [] {
      WithoutNone(seqs[1..], id);
      assert seqs == [seqs[0]] + seqs[1..];
    }
  }

  ghost predicate UniqueIds(seqs: seq<MockSequence>) {
    forall i, j :: 0 <= i < j < |seqs| ==> seqs[i].id != seqs[j].id
  }

  lemma {:induction false} WithoutKeepsUnique(seqs: seq<MockSequence>, id: string)
    requires UniqueIds(seqs)
    ensures UniqueIds(Without(seqs, id))
  {
    if seqs != [] {
      WithoutKeepsUnique(seqs[1..], id);
      var rest := Without(seqs[1..], id);
      forall j | 0 <= j < |rest| ensures rest[j].id != seqs[0].id {
        assert rest[j] in rest;
      }
    }
  }

  lemma ReplacedKeepsUnique(seqs: seq<MockSequence>, s: MockSequence)
    requires UniqueIds(seqs)
    ensures UniqueIds(Without(seqs, s.id) + [s])
  {
    WithoutKeepsUnique(seqs, s.id);
    var kept := Without(seqs, s.id);
    assert forall i :: 0 <= i < |kept| ==> kept[i] in kept;
  }

  // ---------------------------------------------------------------- the shared state

  class SequenceBoard {
    var sequences: seq<MockSequence>
    var counters: Counters

    constructor (loaded: seq<MockSequence>)
      ensures sequences == loaded && counters == map[]
    {
      sequences := loaded;
      counters := map[];
    }

    method FindSequenceResponse(httpMethod: string, uri: string, alphanumeric: char -> bool)
      returns (answer: Option<SequenceResponse>)
      modifies this`counters
      ensures var s := Served(sequences, httpMethod, uri, alphanumeric);
        if s.None? then answer.None? && counters == old(counters)
        else
          && answer == Some(ResponseAt(s.value, CounterOf(old(counters), s.value.id)))
          && counters == old(counters)[s.value.id := NextCounter(s.value, CounterOf(old(counters), s.value.id))]
      ensures answer.None? ==> forall i :: IsFirst(sequences, httpMethod, uri, alphanumeric, i) ==> sequences[i].responses == []
      ensures answer.Some? ==> FromFirst(sequences, httpMethod, uri, alphanumeric, old(counters), answer.value, counters)
    {
      FirstMatchIsFirst(sequences, httpMethod, uri, alphanumeric);
      var found := FirstMatch(sequences, httpMethod, uri, alphanumeric);
      if found.None? { return None; }
      var s := found.value;
      if s.responses == [] { return None; }
      if s.id !in counters { counters := counters[s.id := 0]; }
      var current := counters[s.id];
      var index := if current < |s.responses| - 1 then current else |s.responses| - 1;
      var next := current + 1;
      counters := counters[s.id := (if s.loopResponses then next % |s.responses| else next) % U32_SIZE];
      return Some(s.responses[index]);
    }

    /** A sequence posted under a known id takes the old one's place at the end, and its cursor. */
    method CreateSequence(s: MockSequence)
      modifies this`sequences
      ensures sequences == Without(old(sequences), s.id) + [s]
      ensures old(UniqueIds(sequences)) ==> UniqueIds(sequences)
    {
      if UniqueIds(sequences) { ReplacedKeepsUnique(sequences, s); }
      sequences := Without(sequences, s.id) + [s];
    }

    method ResetSequence(id: string)
      modifies this`counters
      ensures counters == old(counters) - {id}
    {
      counters := counters - {id};
    }

    method DeleteSequence(id: string)
      modifies this
      ensures sequences == Without(old(sequences), id) && counters == old(counters) - {id}
      ensures old(UniqueIds(sequences)) ==> UniqueIds(sequences)
    {
      if UniqueIds(sequences) { WithoutKeepsUnique(sequences, id); }
      sequences := Without(sequences, id);
      counters := counters - {id};
    }
  }

  // ---------------------------------------------------------------- runs over a fixed list

  datatype Event = Request(httpMethod: string, uri: string) | Reset(id: string)

  function Step(seqs: seq<MockSequence>, counters: Counters, e: Event, alphanumeric: char -> bool): Counters {
    match e
    case Reset(id) => counters - {id}
    case Request(m, u) =>
      var s := Served(seqs, m, u, alphanumeric);
      if s.None? then counters
      else counters[s.value.id := NextCounter(s.value, CounterOf(counters, s.value.id))]
  }

  /** The counters after a run from boot. */
  function CountersAfter(seqs: seq<MockSequence>, events: seq<Event>, alphanumeric: char -> bool): Counters {
    if events == [] then map[]
    else
      var n := |events| - 1;
      Step(seqs, CountersAfter(seqs, events[..n], alphanumeric), events[n], alphanumeric)
  }

  /** How many requests the sequence `id` answered since its last reset. */
  function AnsweredSince(seqs: seq<MockSequence>, events: seq<Event>, id: string, alphanumeric: char -> bool): nat {
    if events == [] then 0
    else
      var n := |events| - 1;
      Count(seqs, AnsweredSince(seqs, events[..n], id, alphanumeric), events[n], id, alphanumeric)
  }

  function Count(seqs: seq<MockSequence>, before: nat, e: Event, id: string, alphanumeric: char -> bool): nat {
    match e
    case Reset(i) => if i == id then 0 else before
    case Request(m, u) =>
      var s := Served(seqs, m, u, alphanumeric);
      if s.Some? && s.value.id == id then before + 1 else before
  }

  /** Where the `n`-th answer of a sequence comes from, counting from 0. */
  function AnswerIndex(s: MockSequence, n: nat): (i: nat)
    requires s.responses != []
    ensures i < |s.responses|
  {
    if s.loopResponses then n % Period(s)
    else if n % U32_SIZE < |s.responses| then n % U32_SIZE else |s.responses| - 1
  }

  /** A looping sequence longer than the counter's range never gets past that range. */
  function Period(s: MockSequence): (p: nat)
    requires s.responses != []
    ensures 0 < p <= |s.responses| && p <= U32_SIZE
  {
    if |s.responses| <= U32_SIZE then |s.responses| else U32_SIZE
  }

  function CursorAt(s: MockSequence, n: nat): U32
    requires s.responses != []
  {
    if s.loopResponses then n % Period(s) else n % U32_SIZE
  }

  lemma Multiple(d: int, m: int)
    requires m >= 0
    ensures d >= 1 ==> d * m >= m
    ensures d <= -1 ==> d * m <= -m
  {
    if d >= 1 { assert (d - 1) * m >= 0; } else if d <= -1 { assert (-1 - d) * m >= 0; }
  }

  lemma ModIs(x: nat, q: nat, r: nat, m: nat)
    requires r < m && x == q * m + r
    ensures x % m == r
  {
    var d := q - x / m;
    assert x == (x / m) * m + x % m;
    assert d * m == q * m - (x / m) * m;
    Multiple(d, m);
  }

  /** Counting on modulo `m`. */
  lemma ModSucc(n: nat, m: nat)
    requires m > 0
    ensures (n + 1) % m == if n % m + 1 == m then 0 else n % m + 1
  {
    var q := n / m;
    assert n == q * m + n % m;
    if n % m + 1 == m {
      assert (q + 1) * m == q * m + m;
      ModIs(n + 1, q + 1, 0, m);
    } else {
      ModIs(n + 1, q, n % m + 1, m);
    }
  }

  lemma ModSmall(x: nat, m: nat)
    requires x <= m && m > 0
    ensures x % m == if x == m then 0 else x
  {
    if x == m { ModIs(x, 1, 0, m); } else { ModIs(x, 0, x, m); }
  }

  lemma CursorStep(s: MockSequence, n: nat)
    requires s.responses != []
    ensures NextCounter(s, CursorAt(s, n)) == CursorAt(s, n + 1)
  {
    var length, period := |s.responses|, Period(s);
    if s.loopResponses {
      var c := n % period;
      assert c < period;
      ModSucc(n, period);
      ModSmall(c + 1, length);
      ModSmall((c + 1) % length, U32_SIZE);
    } else {
      ModSucc(n, U32_SIZE);
      ModSmall(n % U32_SIZE + 1, U32_SIZE);
    }
  }

  lemma CounterStep(
    seqs: seq<MockSequence>, counters: Counters, count: nat, e: Event, s: MockSequence, alphanumeric: char -> bool)
    requires UniqueIds(seqs) && s in seqs && s.responses != []
    requires CounterOf(counters, s.id) == CursorAt(s, count)
    ensures CounterOf(Step(seqs, counters, e, alphanumeric), s.id)
         == CursorAt(s, Count(seqs, count, e, s.id, alphanumeric))
  {
    match e {
      case Reset(i) =>
        CursorAtZero(s);
      case Request(m, u) =>
        var served := Served(seqs, m, u, alphanumeric);
        if served.Some? && served.value.id == s.id {
          assert served.value == s;
          CursorStep(s, count);
        }
    }
  }

  lemma CursorAtZero(s: MockSequence)
    requires s.responses != []
    ensures CursorAt(s, 0) == 0
  {
    ModSmall(0, Period(s));
  }

  /** After any run each sequence's counter is determined by its answers since the last reset. */
  lemma {:induction false} CounterCounts(seqs: seq<MockSequence>, events: seq<Event>, s: MockSequence, alphanumeric: char -> bool)
    requires UniqueIds(seqs) && s in seqs && s.responses != []
    ensures CounterOf(CountersAfter(seqs, events, alphanumeric), s.id)
         == CursorAt(s, AnsweredSince(seqs, events, s.id, alphanumeric))
  {
    if events == [] {
      CursorAtZero(s);
    } else {
      var n := |events| - 1;
      CounterCounts(seqs, events[..n], s, alphanumeric);
      CounterStep(seqs, CountersAfter(seqs, events[..n], alphanumeric),
                  AnsweredSince(seqs, events[..n], s.id, alphanumeric), events[n], s, alphanumeric);
    }
  }

  /** A request counts for the sequence it is answered from, and a reset for the one it names. */
  lemma CountIs(seqs: seq<MockSequence>, before: nat, e: Event, id: string, alphanumeric: char -> bool)
    ensures Count(seqs, before, e, id, alphanumeric) ==
      if e == Reset(id) then 0
      else if e.Request? && (exists i :: IsFirst(seqs, e.httpMethod, e.uri, alphanumeric, i)
                                         && seqs[i].id == id && seqs[i].responses != [])
        then before + 1
      else before
  {
    if e.Request? {
      var served := Served(seqs, e.httpMethod, e.uri, alphanumeric);
      if served.Some? { ServedIff(seqs, e.httpMethod, e.uri, alphanumeric, served.value); }
      forall i | 0 <= i < |seqs| { ServedIff(seqs, e.httpMethod, e.uri, alphanumeric, seqs[i]); }
    }
  }

  lemma AnswerIs(seqs: seq<MockSequence>, events: seq<Event>, s: MockSequence, alphanumeric: char -> bool)
    requires UniqueIds(seqs) && s in seqs && s.responses != []
    ensures ResponseAt(s, CounterOf(CountersAfter(seqs, events, alphanumeric), s.id))
         == s.responses[AnswerIndex(s, AnsweredSince(seqs, events, s.id, alphanumeric))]
  {
    CounterCounts(seqs, events, s, alphanumeric);
  }

  /**
   * In any run of requests and resets over sequences with unique ids, the
   * n-th answer of a sequence since its reset, counting only the requests it
   * is the first match of, is `responses[n mod L]` when it loops (with L cut to
   * 2^32) and `responses[min(n mod 2^32, L - 1)]` when it does not.
   */
  lemma NthAnswer(
    seqs: seq<MockSequence>, events: seq<Event>, httpMethod: string, uri: string, alphanumeric: char -> bool, i: int)
    requires UniqueIds(seqs) && IsFirst(seqs, httpMethod, uri, alphanumeric, i) && seqs[i].responses != []
    ensures var s := seqs[i];
      && Served(seqs, httpMethod, uri, alphanumeric) == Some(s)
      && ResponseAt(s, CounterOf(CountersAfter(seqs, events, alphanumeric), s.id))
         == s.responses[AnswerIndex(s, AnsweredSince(seqs, events, s.id, alphanumeric))]
  {
    ServedIff(seqs, httpMethod, uri, alphanumeric, seqs[i]);
    AnswerIs(seqs, events, seqs[i], alphanumeric);
  }

  /** The answer to the `k`-th event of a run. */
  ghost predicate IsAnswer(
    seqs: seq<MockSequence>, events: seq<Event>, k: nat, alphanumeric: char -> bool, answer: Option<SequenceResponse>)
    requires k < |events| && events[k].Request?
  {
    var s := Served(seqs, events[k].httpMethod, events[k].uri, alphanumeric);
    answer == if s.None? then None
      else Some(s.value.responses[AnswerIndex(s.value, AnsweredSince(seqs, events[..k], s.value.id, alphanumeric))])
  }

  method PlayNext(board: SequenceBoard, events: seq<Event>, k: nat, alphanumeric: char -> bool)
    returns (answer: Option<SequenceResponse>)
    requires k < |events| && UniqueIds(board.sequences)
    requires board.counters == CountersAfter(board.sequences, events[..k], alphanumeric)
    modifies board`counters
    ensures board.counters == CountersAfter(board.sequences, events[..k + 1], alphanumeric)
    ensures events[k].Request? ==> IsAnswer(board.sequences, events, k, alphanumeric, answer)
  {
    assert events[..k + 1][..k] == events[..k];
    answer := None;
    match events[k] {
      case Reset(id) => board.ResetSequence(id);
      case Request(m, u) =>
        ghost var s := Served(board.sequences, m, u, alphanumeric);
        if s.Some? { AnswerIs(board.sequences, events[..k], s.value, alphanumeric); }
        answer := board.FindSequenceResponse(m, u, alphanumeric);
    }
  }

  /** A run played on the shared state. */
  method Play(board: SequenceBoard, events: seq<Event>, alphanumeric: char -> bool)
    returns (answers: seq<Option<SequenceResponse>>)
    requires board.counters == map[] && UniqueIds(board.sequences)
    modifies board`counters
    ensures |answers| == |events|
    ensures forall k :: 0 <= k < |events| && events[k].Request? ==>
      IsAnswer(board.sequences, events, k, alphanumeric, answers[k])
  {
    answers := [];
    for k := 0 to |events|
      invariant |answers| == k
      invariant board.counters == CountersAfter(board.sequences, events[..k], alphanumeric)
      invariant forall j :: 0 <= j < k && events[j].Request? ==>
        IsAnswer(board.sequences, events, j, alphanumeric, answers[j])
    {
      var answer := PlayNext(board, events, k, alphanumeric);
      answers := answers + [answer];
    }
    assert events[..|events|] == events;
  }

  /**
   * A sequence that does not loop stays at its last response, as promised, up
   * to the wrap of its counter: exactly when fewer than 2^32 answers were given
   * or the wrapped counter has reached the end again.
   */
  lemma ClampsUntilWrap(s: MockSequence, n: nat)
    requires s.responses != [] && !s.loopResponses
    ensures AnswerIndex(s, n) == (if n < |s.responses| then n else |s.responses| - 1)
       <==> n < U32_SIZE || n % U32_SIZE >= |s.responses| - 1
  {
  }

  /** After 2^32 answers a two-response sequence starts over. */
  lemma WrapExample(a: SequenceResponse, b: SequenceResponse, id: string)
    ensures AnswerIndex(MockSequence(id, "GET", "/", [a, b], false), U32_SIZE - 1) == 1
    ensures AnswerIndex(MockSequence(id, "GET", "/", [a, b], false), U32_SIZE) == 0
  {
  }

  /** Replacing a sequence under its id keeps the cursor: the new one goes on from there. */
  lemma ReplacementKeepsCursor(
    seqs: seq<MockSequence>, events: seq<Event>, before: MockSequence, s: MockSequence, alphanumeric: char -> bool)
    requires UniqueIds(seqs) && before in seqs && before.id == s.id && before.responses != [] && s.responses != []
    ensures UniqueIds(Without(seqs, s.id) + [s])
    ensures ResponseAt(s, CounterOf(CountersAfter(seqs, events, alphanumeric), s.id))
         == ResponseAt(s, CursorAt(before, AnsweredSince(seqs, events, s.id, alphanumeric)))
  {
    CounterCounts(seqs, events, before, alphanumeric);
    ReplacedKeepsUnique(seqs, s);
  }
}
