/**
 * Requests, writers and reloads as actors that interleave freely over one store:
 * each loads the current library once and works on what it loaded, and a store
 * by one of them is a swap of the pointer. What a request finds depends only on
 * the library that was current at its load.
 */
module SnapshotIsolation {
  import opened Options
  import opened Entries
  import opened Logs
  import opened MockLog
  import opened MockLibrary
  import opened MockServing

  /**
   * `files` is the directory as a reload read it. A writer's load and store are
   * separate events, with no check in between that nobody else stored.
   */
  datatype Event =
    | Load(actor: nat)
    | MatchExact(actor: nat, service: string, httpMethod: string, uri: string, tenant: string)
    | MatchCandidates(actor: nat, service: string, wanted: Option<string>)
    | StoreEntry(actor: nat, service: string, entry: MockEntry)
    | StoreSegment(actor: nat, name: string, files: Files)
    | StoreAll(files: Files, order: seq<string>)

  /** Nothing, the result of an exact match, or the candidates of a fuzzy one. */
  datatype Answer = Silent | Exact(found: Option<MockEntry>) | Listed(entries: seq<MockEntry>)

  // ---------------------------------------------------------------- the schedule on values

  datatype Worlds = Worlds(current: Library, held: map<nat, Library>)

  function After(w: Worlds, e: Event): Worlds {
    match e
    case Load(actor) => w.(held := w.held[actor := w.current])
    case StoreEntry(actor, service, entry) =>
      if actor in w.held then w.(current := Publish(w.held[actor], service, entry)) else w
    case StoreSegment(actor, name, files) =>
      if actor in w.held then w.(current := Reloaded(w.held[actor], files, name)) else w
    case StoreAll(files, _) => w.(current := LoadAll(files))
    case _ => w
  }

  function Run(library: Library, events: seq<Event>, n: nat): Worlds
    requires n <= |events|
  {
    if n == 0 then Worlds(library, map[]) else After(Run(library, events, n - 1), events[n - 1])
  }

  /** The answer to a query that `held` gives. */
  ghost predicate Answers(answer: Answer, held: map<nat, Library>, e: Event) {
    match e
    case MatchExact(actor, service, httpMethod, uri, tenant) =>
      actor in held ==> answer == Exact(Found(held[actor], service, (httpMethod, uri, tenant)))
    case MatchCandidates(actor, service, tenant) =>
      actor in held ==> answer.Listed? && Lists(answer.entries, Candidates(held[actor], service, tenant))
    case _ => true
  }

  ghost predicate AllWellFormed(w: Worlds) {
    WellFormed(w.current) && forall a :: a in w.held ==> WellFormed(w.held[a])
  }

  lemma ReloadedFits(library: Library, files: Files, name: string)
    requires WellFormed(library)
    ensures WellFormed(Reloaded(library, files, name))
  {
  }

  lemma AfterKeepsForm(w: Worlds, e: Event)
    requires AllWellFormed(w)
    ensures AllWellFormed(After(w, e))
  {
    match e {
      case StoreEntry(actor, service, entry) =>
        if actor in w.held { PublishKeepsForm(w.held[actor], service, entry); }
      case StoreSegment(actor, name, files) =>
        if actor in w.held { ReloadedFits(w.held[actor], files, name); }
      case StoreAll(files, _) => LoadAllFits(files);
      case _ =>
    }
  }

  lemma {:induction false} RunKeepsForm(library: Library, events: seq<Event>, n: nat)
    requires WellFormed(library) && n <= |events|
    ensures AllWellFormed(Run(library, events, n))
  {
    if n > 0 {
      RunKeepsForm(library, events, n - 1);
      AfterKeepsForm(Run(library, events, n - 1), events[n - 1]);
    }
  }

  /** What an actor holds is what was current when it loaded last. */
  lemma {:induction false} HeldIsCurrentAtLoad(library: Library, events: seq<Event>, j: nat, i: nat, actor: nat)
    requires j < i <= |events| && events[j] == Load(actor)
    requires forall k :: j < k < i ==> events[k] != Load(actor)
    ensures actor in Run(library, events, i).held
    ensures Run(library, events, i).held[actor] == Run(library, events, j).current
  {
    if j + 1 < i {
      HeldIsCurrentAtLoad(library, events, j, i - 1, actor);
      assert events[i - 1] != Load(actor);
    }
  }

  // ---------------------------------------------------------------- the schedule on shared objects

  /** The libraries that actors hold read as these values. */
  ghost predicate HeldViews(held: map<nat, SharedLibrary>, values: map<nat, Library>)
    reads set l, s | l in held.Values && s in l.segments.Values :: s
  {
    held.Keys == values.Keys && forall a :: a in held ==> held[a].View() == values[a]
  }

  /** A query on the library that its actor holds. */
  method Query(held: map<nat, SharedLibrary>, ghost values: map<nat, Library>, e: Event) returns (answer: Answer)
    requires HeldViews(held, values) && forall a :: a in values ==> WellFormed(values[a])
    ensures Answers(answer, values, e)
  {
    answer := Silent;
    match e {
      case MatchExact(actor, service, httpMethod, uri, tenant) =>
        if actor in held {
          var found := held[actor].FindExact(service, httpMethod, uri, tenant);
          answer := Exact(found);
        }
      case MatchCandidates(actor, service, tenant) =>
        if actor in held {
          var entries := held[actor].EntriesForService(service, tenant);
          answer := Listed(entries);
        }
      case _ =>
    }
  }

  /** The library that an actor's store publishes, built from the one it holds. */
  method Edited(base: SharedLibrary, e: Event) returns (next: SharedLibrary)
    requires e.StoreEntry? || e.StoreSegment?
    ensures next.View() ==
      if e.StoreEntry? then Publish(base.View(), e.service, e.entry) else Reloaded(base.View(), e.files, e.name)
  {
    if e.StoreEntry? {
      next := base.WithEntry(e.service, e.entry);
    } else if IsMockFile(e.name) {
      var disk := new Disk(e.files);
      var segment := disk.LoadOneSegment(e.name, true);
      next := base.WithSegment(ServiceOf(e.name), segment);
    } else {
      next := base;
    }
  }

  /** The pointer moves; every held library is as it was. */
  method SwapIn(store: MockStore, next: SharedLibrary, held: map<nat, SharedLibrary>, ghost values: map<nat, Library>)
    requires HeldViews(held, values)
    modifies store
    ensures HeldViews(held, values) && store.current == next && next.View() == old(next.View())
  {
    store.Swap(next);
  }

  /** The library that a store publishes. */
  method Prepared(current: SharedLibrary, held: map<nat, SharedLibrary>, ghost w: Worlds, e: Event)
    returns (next: SharedLibrary)
    requires e.StoreAll? ==> IsFullListing(e.files, e.order)
    requires e.StoreEntry? || e.StoreSegment? || e.StoreAll?
    requires HeldViews(held, w.held) && current.View() == w.current
    ensures next.View() == After(w, e).current
  {
    if e.StoreAll? {
      var disk := new Disk(e.files);
      next := disk.LoadAllServiceMocks(e.order, {});
    } else if e.actor in held {
      next := Edited(held[e.actor], e);
    } else {
      next := current;
    }
  }

  /** A store of any kind moves the pointer and leaves every held library as it is. */
  method Store(store: MockStore, held: map<nat, SharedLibrary>, ghost w: Worlds, e: Event)
    requires e.StoreAll? ==> IsFullListing(e.files, e.order)
    requires e.StoreEntry? || e.StoreSegment? || e.StoreAll?
    requires HeldViews(held, w.held) && store.current.View() == w.current
    modifies store
    ensures HeldViews(held, w.held) && store.current.View() == After(w, e).current
  {
    var next := Prepared(store.current, held, w, e);
    SwapIn(store, next, held, w.held);
  }

  /** One event. */
  method Step(store: MockStore, held: map<nat, SharedLibrary>, ghost w: Worlds, e: Event)
    returns (more: map<nat, SharedLibrary>, answer: Answer)
    requires e.StoreAll? ==> IsFullListing(e.files, e.order)
    requires AllWellFormed(w) && HeldViews(held, w.held) && store.current.View() == w.current
    modifies store
    ensures HeldViews(more, After(w, e).held) && store.current.View() == After(w, e).current
    ensures Answers(answer, w.held, e)
  {
    more, answer := held, Silent;
    match e {
      case Load(actor) => more := held[actor := store.current];
      case MatchExact(_, _, _, _, _) => answer := Query(held, w.held, e);
      case MatchCandidates(_, _, _) => answer := Query(held, w.held, e);
      case _ => Store(store, held, w, e);
    }
  }

  /** Each of the first `n` answers is the one that the library its actor held then gives. */
  ghost predicate AllAnswered(library: Library, events: seq<Event>, answers: seq<Answer>, n: nat)
    requires n <= |events| && n <= |answers|
  {
    forall i :: 0 <= i < n ==> Answers(answers[i], Run(library, events, i).held, events[i])
  }

  lemma OneMoreAnswer(library: Library, events: seq<Event>, answers: seq<Answer>, n: nat, answer: Answer)
    requires n < |events| && n == |answers| && AllAnswered(library, events, answers, n)
    requires Answers(answer, Run(library, events, n).held, events[n])
    ensures AllAnswered(library, events, answers + [answer], n + 1)
  {
  }

  /**
   * Any schedule: every query is answered as the library current at its
   * actor's last load answers it, although later libraries share objects with it.
   */
  method RunSchedule(store: MockStore, events: seq<Event>) returns (answers: seq<Answer>)
    requires WellFormed(store.current.View())
    requires forall i :: 0 <= i < |events| && events[i].StoreAll? ==> IsFullListing(events[i].files, events[i].order)
    modifies store
    ensures |answers| == |events| && AllAnswered(old(store.current.View()), events, answers, |events|)
    ensures store.current.View() == Run(old(store.current.View()), events, |events|).current
  {
    ghost var library := store.current.View();
    ghost var w := Worlds(library, map[]);
    var held: map<nat, SharedLibrary> := map[];
    answers := [];
    for n := 0 to |events|
      invariant |answers| == n && w == Run(library, events, n)
      invariant HeldViews(held, w.held) && store.current.View() == w.current
      invariant AllAnswered(library, events, answers, n)
    {
      var answer;
      RunKeepsForm(library, events, n);
      held, answer := Step(store, held, w, events[n]);
      OneMoreAnswer(library, events, answers, n, answer);
      answers := answers + [answer];
      w := After(w, events[n]);
    }
  }

  /** So an answer depends on nothing after its actor's last load. */
  lemma AnsweredAsAtLoad(library: Library, events: seq<Event>, answers: seq<Answer>, j: nat, i: nat, actor: nat)
    requires |answers| == |events| && AllAnswered(library, events, answers, |events|)
    requires j < i < |events| && events[j] == Load(actor)
    requires forall k :: j < k < i ==> events[k] != Load(actor)
    ensures var seen := Run(library, events, j).current;
      && (forall service, httpMethod, uri, tenant :: events[i] == MatchExact(actor, service, httpMethod, uri, tenant) ==>
           answers[i] == Exact(Found(seen, service, (httpMethod, uri, tenant))))
      && (forall service, tenant :: events[i] == MatchCandidates(actor, service, tenant) ==>
           answers[i].Listed? && Lists(answers[i].entries, Candidates(seen, service, tenant)))
  {
    HeldIsCurrentAtLoad(library, events, j, i, actor);
    assert Answers(answers[i], Run(library, events, i).held, events[i]);
  }
}
