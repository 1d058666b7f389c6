# A model of the mocking proxy's core

The proxy records HTTP traffic, serves it back as mocks, and keeps captured
resources that move through statecharts. This project models its stateful and
algebraic parts in Dafny and proves what holds of them on every input, every
interleaving and every run. `dafny verify dfyconfig.toml` checks everything.

| Files | What they model |
|---|---|
| `Resources`, `Statecharts` | extracting an id from a body, binding a chart, transitions that rewrite one body field, how many transitions the bundled charts allow |
| `Logs` | append-only logs in general: last-write-wins replay and files with one line per key |
| `ResourceLog`, `ResourceStore` | the log of captured resources, its compaction, file names, and the store as a class whose methods update map and files in place |
| `ResourceRuns`, `ResourceAgreement`, `ResourceLineage`, `ResourceBounds` | runs in which the locked write, the snapshot and the append of many operations interleave, appends fail, and the process dies and restarts at any point: what the log can give, when it agrees with the map, where stored states come from and how often they move |
| `ResourcePaths` | from a request path to a stored resource and back: create, read, act |
| `MockLog`, `MockLibrary`, `MockRuns`, `MockServing`, `SnapshotIsolation` | the mock library as log, as value, in runs whose appends land later, and as shared heap objects behind one swapped pointer |
| `UriCanonical`, `Tenancy` | the canonical request URI, the tenant parameter and the lookup key |
| `Json`, `WordBoundary`, `PathShape`, `SmartSwap` | JSON difference and substitution, the identifier-aware text replacer, and the fuzzy match built from them |
| `Sequences` | response sequences and their 32-bit cursors |
| `Glob` | endpoint patterns against the language they denote |
| `Text`, `Options`, `Entries`, `Defaults` | shared definitions |

Functions state what an operation computes; methods with loops and fields follow
the proxy's statements and are proved equal to those functions; the lemmas
say what the functions mean.

## Results that differ from what comments or documents say

- A pattern that ends in two or more `**` can miss the path without further
  segments, although `**` stands for any depth (`src/chaos.rs:147`): `api/**/**`
  does not match `api` (`Glob.TrailingStarsMiss`). `Glob.GlobComplete` gives the
  exact condition for patterns and paths as text: something stands before the
  final stars, and it is not an empty segment, except after nothing but `**`.
  Patterns of stars alone miss nothing. `Glob.MatcherComplete` is the condition on
  lists of segments, `Glob.MatcherDecides` says what such a pattern does match.
- A sequence that does not loop starts over after 2^32 answers, because the
  counter is cut to 32 bits (`src/matcher.rs:170`): `Sequences.ClampsUntilWrap`,
  `Sequences.WrapExample`.
- The text replacer turns every non-ASCII character into several others
  (`src/matcher.rs:344`): it does what its comment says exactly on ASCII texts
  and on texts without the key (`WordBoundary.ReplacesExactlyTokens`).
- Replacing the longest key first does not prevent a replacement from being
  replaced again (`src/matcher.rs:287-297`): it is a simultaneous replacement
  exactly when no value is a key of at most the same length with a value of its
  own (`WordBoundary.LongestFirstIsSimultaneous`).
- Substituting the collected differences rebuilds the incoming tree exactly when
  equal recorded strings, also those that did not change, stand for equal
  incoming strings (`Json.DiffThenSubstitute`).
- A finished log can be behind the map (`src/resource_store.rs:228-330`). Exactly
  these steps make it possible (`ResourceAgreement.RunAgreesIff`): a locked write of
  another state while an operation on the key holds the state it is about to
  append, the failure of the only append that would have brought the log up to
  date, and a deletion of what is logged or held. Writes over an operation that has
  still to read its snapshot are harmless. What a log gives is always a state that
  the map held (`ResourceRuns.LoggedWasHeld`).
- With restarts a charge can be moved three times after one capture, although its
  chart allows two transitions (`ResourceBounds.ChargeMovedThrice`). At every moment
  of a run the successes since the last capture stay within 2, 4 and 5, whatever
  actions follow, exactly when no start of the run brings back a state with more
  transitions before it than the count leaves (`ResourceBounds.RunBoundedIff`, and
  `ChargesBoundedIff`, `InvoicesBoundedIff`, `OrdersBoundedIff`). Before the start
  this can be read off the files. A crash and a start change nothing of a key
  exactly when map and log agreed on it (`ResourceBounds.CrashRestoresIff`).
- A mock that is published while another append for its key is under way, or whose
  file is reloaded before its append lands, can end up different in library and
  log (`src/main.rs:1009-1012`, `src/main.rs:1949-1951`): `MockRuns.RunAgreesIff` is
  the exact condition, `MockRuns.ReloadExample` and `MockRuns.OverlapExample` are
  instances.
- Loading the resource files a second time need not give the same map
  (`src/resource_store.rs:354-356`) when the names of two files differ in trailing
  `.jsonl`s only: it does for a service exactly when all files that load as this
  service replay alike (`ResourceStore.SecondLoadIff`).
- A service whose id itself ends in `.jsonl` has nothing stored after a restart
  (`src/resource_store.rs:382`, `ResourceStore.SuffixedServiceForgotten`), and its
  file can take the place of the file of the service with the trimmed id.
  `ResourceStore.RecoveredIffOwn` says exactly which services a start recovers.
- Clamping a tenant twice is not clamping it once exactly when the cut leaves white
  space at the end (`Tenancy.ClampTwice`), and a text whose 128th byte ends inside a
  character names no tenant at all: the handler fails (`Tenancy.TenantIsClamped`).
- `src/io.rs:50-51` says that `_global` has no file; writes without a service do
  append to `mock__global.jsonl` (`src/main.rs:1009-1012`), and the model does so.

## Model

| member | source | states |
|---|---|---|
| `Resources.WalkFindsId` | src/resource_store.rs:480-521 | the id found is the one at the first place that holds one: an object before what it holds, siblings in order, candidate fields in list order, nested at most three deep; nothing is found only when no place holds a non-empty string or a number |
| `Resources.OwnCandidateWins` | src/resource_store.rs:486-494 | an object's first readable candidate field wins, whatever is nested in it |
| `Resources.OwnId` | src/resource_store.rs:462-478 | for a body that is an object: the hinted field, else `id`, else `_id`, else the id field named after the singular of the collection |
| `Resources.ChargeWithCustomer` | src/resource_store.rs:486-494 | a charge that embeds its customer is stored under its own id |
| `Resources.ChartIs` | src/resource_store.rs:189-204 | a resource is bound to the chart named like its collection, else to the one named like the singular, else to none |
| `Resources.TransitionIff` | src/resource_store.rs:281-310 | a transition happens exactly when the action is one of the current state in the chart, and changes the state, the update time and the status field only |
| `Resources.WriteStatusFrame` | src/resource_store.rs:299-310 | writing the status changes one field that held a string and leaves the set of keys, every other field and every other body as they were |
| `Resources.WriteStatusTwice` | src/resource_store.rs:299-310 | of two status writes only the later one is visible |
| `Resources.AfterIsRun` | src/resource_store.rs:281-310 | the state after successful actions is the run of those actions from the state before them, and the body is the one before with that state in its status field once an action succeeded |
| `Resources.NoChartNoSteps` | src/resource_store.rs:286-287 | a resource without a chart never moves |
| `Resources.CaptureStartsInitial` | src/resource_store.rs:192-213 | a capture bound to a chart starts in that chart's initial state |
| `Resources.StepsPerCapture` | src/resource_store.rs:281-310 | with the bundled charts at most 2, 4 and 5 actions can be applied one after the other to a captured charge, invoice and order |
| `Statecharts.LoadFixtures` | src/statechart.rs:96-133 | the loading loop registers, per key, the last readable fixture whose initial state exists, under the key as its id |
| `Statecharts.LoadedIsLast` | src/statechart.rs:96-133 | a key is registered exactly when some fixture for it is readable and has its initial state among its states, and then with the last such machine |
| `Statecharts.LoadedValue` | src/statechart.rs:96-133 | a fixture that loads is found under its key unless a later one for that key loads too |
| `Statecharts.BundledFixturesAreSound` | src/statechart.rs:83-89 | each bundled fixture carries its own id and a known initial state, and no two share a key |
| `Statecharts.BundledLoad` | src/statechart.rs:83-133 | all five bundled machines are registered as they are |
| `Statecharts.RunBound` | src/statechart.rs:68-71 | when every transition lowers a rank, the rank of a state bounds the length of every run from it |
| `Statecharts.ChargeBound` | src/statecharts/charge.json:5-23 | a charge makes at most 2 transitions |
| `Statecharts.InvoiceBound` | src/statecharts/invoice.json:5-36 | an invoice makes at most 4 transitions |
| `Statecharts.OrderBound` | src/statecharts/order.json:5-40 | an order makes at most 5 transitions |
| `Statecharts.ChargeBoundReached` | src/statecharts/charge.json:5-23 | a charge can make 2 |
| `Statecharts.InvoiceBoundReached` | src/statecharts/invoice.json:5-36 | an invoice can make 4 |
| `Statecharts.OrderBoundReached` | src/statecharts/order.json:5-40 | an order can make 5 |
| `Statecharts.CustomerUnbounded` | src/statecharts/customer.json:5-21 | a customer can make any number of transitions |
| `Logs.ReplayAppend` | src/resource_store.rs:387-395 | one more line overrides its key and nothing else, in both logs |
| `Logs.ReplayByIsLast` | src/resource_store.rs:387-395 | a replay holds for a key exactly the last entry of that key; other lines play no part |
| `Logs.ReplayCompacted` | src/resource_store.rs:396-447 | a file with one line per key, in any order, replays to the same map, in both logs |
| `Logs.Compact` | src/resource_store.rs:403-407 | writing out the values of the map gives exactly one entry line per key |
| `ResourceLog.FewerKeysThanLines` | src/resource_store.rs:386-402 | a file never has more keys than lines with text |
| `ResourceLog.ReplayIsLast` | src/resource_store.rs:387-395 | a file replays to the last resource of each collection and id |
| `ResourceLog.WithTextAppend` | src/resource_store.rs:387-391 | the lines that count are all but the blank ones, in their order |
| `ResourceLog.SkippedIsExact` | src/resource_store.rs:402 | when compaction is skipped the file already has exactly one parseable line per key among its lines with text |
| `ResourceLog.LoadKeepsReplay` | src/resource_store.rs:396-447 | loading a file never changes what it replays to, whether it is rewritten, skipped or cannot be written |
| `ResourceLog.LoadCompactsExactly` | src/resource_store.rs:387-447 | after a load that could write, a file with at least one resource has exactly one line with text per key, and the next load does not touch it |
| `ResourceLog.ServiceOfFile` | src/resource_store.rs:382 | the service name read off a file is the service's id exactly when the id does not end in `.jsonl` |
| `ResourceLog.ServiceIsTrimmed` | src/resource_store.rs:382 | the service read off a name is the name without the suffix, as often as it is there |
| `ResourceLog.LoadedIsLast` | src/resource_store.rs:374-452 | a directory load gives a service the replay of the last listed log file that holds a resource and reads as this service, and leaves every other service alone |
| `ResourceStore.OrderIrrelevantIff` | src/resource_store.rs:374-452 | the order in which a directory is listed does not matter to a service's bucket if and only if all files that load as this service replay alike |
| `ResourceStore.SecondLoadIff` | src/resource_store.rs:354-356 | loading the directory again, in whatever order and with whatever rewrites, leaves a service's bucket as it is if and only if all files that load as this service replay alike |
| `ResourceStore.LoadTwice` | src/resource_store.rs:354-356 | and when that holds of all services the whole map stays as it is |
| `ResourceStore.RecoveredIffOwn` | src/resource_store.rs:374-452 | a start recovers a service in every order of the directory if and only if its id has no file suffix or its file holds nothing, and no other file that reads as this service holds anything else |
| `ResourceStore.ServiceRecovered` | src/resource_store.rs:374-452 | such a service gets exactly the replay of its own file |
| `ResourceStore.SuffixedServiceForgotten` | src/resource_store.rs:382 | a service whose id ends in the suffix has nothing stored after a start |
| `ResourceStore.Store.Lookup` | src/resource_store.rs:141-146 | the state stored for service, collection and id, if any |
| `ResourceStore.Store.PersistJsonl` | src/resource_store.rs:525-545 | one line at the end of the service's own file, or no change when the disk fails |
| `ResourceStore.Store.CaptureCreate` | src/resource_store.rs:177-264 | without a readable id nothing changes; otherwise the id is the one at the first place that holds one, and under collection and id is the captured body with its status, content type, times, chart and initial state, in the map and, when persistence is on and the disk works, at the end of the log |
| `ResourceStore.Store.ApplyTransition` | src/resource_store.rs:272-342 | exactly when the chart allows the action, the stored state becomes the transitioned one and is appended; otherwise map and files are unchanged |
| `ResourceStore.Store.Delete` | src/resource_store.rs:348-352 | removes one key from the map, reports whether it was there, and leaves the files alone |
| `ResourceStore.Store.ReadFile` | src/resource_store.rs:386-395 | the line loop counts the lines with text and computes the last-write-wins map |
| `ResourceStore.Store.LoadOneFile` | src/resource_store.rs:374-452 | one file's replay replaces its service's bucket, and the file is compacted exactly when it holds a resource, has superfluous lines and can be written |
| `ResourceStore.Store.LoadFromDisk` | src/resource_store.rs:364-452 | the directory loop loads every listed file once, in listing order, and compacts as a load does; nothing happens without persistence or listing |
| `ResourceStore.LookupInserted` | src/resource_store.rs:220-226 | a write is found under its service, collection and id and changes no other lookup |
| `ResourceStore.LookupRemoved` | src/resource_store.rs:348-352 | a removed resource is not found, and no other lookup changes |
| `ResourceStore.LogAppended` | src/resource_store.rs:525-545 | an append changes the log of its own service only |
| `ResourceRuns.CaptureUninterrupted` | src/resource_store.rs:177-256 | the steps of a capture without interruption store and log the resource that the store's method builds from the request, and do nothing when the body holds no id |
| `ResourceRuns.TransitUninterrupted` | src/resource_store.rs:281-330 | and so have those of a transition |
| `ResourceRuns.LoggedNext` | src/resource_store.rs:228-330 | of all steps of a run only a successful append changes what the log gives for a key, and then to the state appended |
| `ResourceRuns.PendingWasHeld` | src/resource_store.rs:220-330 | what an operation is about to append is a state that the map held for its key |
| `ResourceRuns.LoggedWasHeld` | src/resource_store.rs:228-452 | in every interleaving, with failing appends, deletes, crashes and interrupted starts, the log gives each key a state that the map really held for it |
| `ResourceAgreement.CompletionsAgree` | src/resource_store.rs:228-330 | every way of finishing the operations on a key, in any order, ends with map and log equal on it if and only if no operation holds a state the map no longer holds, and they are equal already unless something is still to be appended |
| `ResourceAgreement.StepDecides` | src/resource_store.rs:220-452 | a step of any kind keeps that condition if and only if it is no locked write (of a capture or a transition) of another state than one held, no failure of the append that mattered, and no deletion of what is logged or held |
| `ResourceAgreement.RunAgreesIff` | src/resource_store.rs:220-452 | over runs with failures, deletions, crashes and starts: at every moment every completion ends in agreement if and only if no step was such a one |
| `ResourceAgreement.SettledKeyAgrees` | src/resource_store.rs:228-452 | without such steps map and log give the same for every key that no operation is working on |
| `ResourceAgreement.QuietEqualsReplay` | src/resource_store.rs:228-452 | and once all operations have finished, replaying a service's log gives its map |
| `ResourceAgreement.SpoiledRunDiverges` | src/resource_store.rs:281-330 | after the first such step, whether by a capture, a transition, a failure or a deletion, some completion without failures ends with map and log different |
| `ResourceAgreement.OverlapExample` | src/statecharts/order.json:5-20 | shipping an order while its payment is about to be appended is such a step |
| `ResourceAgreement.BootRecovers` | src/resource_store.rs:364-452 | a start recovers for every key of a service that it recovers what the log gave before it |
| `ResourceAgreement.SoleFileInRun` | src/resource_store.rs:382 | every start of a run recovers a service whose id has no suffix, when no other id written in the run is this one with suffixes |
| `ResourceAgreement.DeletedComesBack` | src/resource_store.rs:346-352 | a deleted resource is gone until the next start, and then it is back as it was |
| `ResourceLineage.LinealNext` | src/resource_store.rs:177-452 | every step, also a crash or a start, keeps every stored, pending and logged state one that a captured resource reaches |
| `ResourceLineage.StoredIsFold` | src/resource_store.rs:177-452 | over every run, with any overlaps, failures, deletions, crashes and starts, the map holds for each key exactly the fold of its history: the run's last capture of it, or what the run started with, and the actions that succeeded since, rolled back at a start to the history of what was appended |
| `ResourceLineage.LoggedIsFold` | src/resource_store.rs:228-452 | and the log gives exactly the fold of the history of what was appended last |
| `ResourceLineage.StoredIsRunOfCapture` | src/resource_store.rs:192-310 | the base of that history is a capture of the run or what it started with; the state is the run of its actions from the base's state, only state, update time and a string status field differ from the base, and since a capture the bundled charts bound the actions of the history by 2, 4 and 5 |
| `ResourceBounds.SuccessesBounded` | src/resource_store.rs:281-310 | over every run, the run's own successful transitions of a key since its last capture, plus what its state still allows, stay within what the chart allows from the initial state plus what starts gave back |
| `ResourceBounds.FurtherIffRank` | src/statechart.rs:68-71 | every list of further actions keeps a count within a bound if and only if the count and the rank of the resource's state are within it |
| `ResourceBounds.StepWithinIff` | src/resource_store.rs:281-452 | a step of any kind keeps the successes and the remaining rank within the chart's bound if and only if it is no start that brings back a state of too high a rank |
| `ResourceBounds.RunBoundedIff` | src/resource_store.rs:281-452 | over every run: at every moment the run's own successes since the last capture stay within the bound, whatever further actions follow, if and only if no start of the run was such a one |
| `ResourceBounds.GivenIsLogged` | src/resource_store.rs:374-452 | what such a start brings back is what the log gives, for a service that starts recover |
| `ResourceBounds.ChargesBoundedIff` | src/statecharts/charge.json:5-23 | for charges the bound is 2 |
| `ResourceBounds.InvoicesBoundedIff` | src/statecharts/invoice.json:5-36 | for invoices it is 4 |
| `ResourceBounds.OrdersBoundedIff` | src/statecharts/order.json:5-40 | for orders it is 5 |
| `ResourceBounds.OverdrawnRunExceeds` | src/resource_store.rs:281-330 | after the first such start the run can go on, with transitions of the key alone, until more have succeeded than the chart allows |
| `ResourceBounds.CrashRestoresIff` | src/resource_store.rs:364-452 | a crash and the start after it leave a key as it was if and only if map and log agreed on it at the crash |
| `ResourceBounds.ChargeMovedThrice` | src/statecharts/charge.json:5-23 | for any capture of a charge there is a run in which a lost append lets three transitions succeed on it |
| `ResourcePaths.SegmentsExtended` | src/main.rs:1161-1165 | a slash-free, query-free, non-empty piece appended to any path is one more segment, with or without a query after it |
| `ResourcePaths.SegmentsOfParts` | src/main.rs:1161-1165 | the segments of a path, by what it is made of: none for the empty path, no more for one more slash, one more for one more piece |
| `ResourcePaths.VersionIff` | src/main.rs:1176-1178 | a version is `v` with at most two digits |
| `ResourcePaths.CollectionIff` | src/main.rs:1206-1229 | a path creates in its last segment unless that has an underscore and a digit or is one of fifteen action words |
| `ResourcePaths.ResourceIff` | src/main.rs:1156-1180 | a path names collection and id by its last two segments unless the last is one of five words or a version |
| `ResourcePaths.ActionIff` | src/main.rs:1186-1199 | and resource and action by its last three, whatever they are |
| `ResourcePaths.GetIff` | src/main.rs:1602-1640 | a GET is answered exactly when its path names a stored resource of the service or the default one: with status 200, its content type and its body |
| `ResourcePaths.TargetIff` | src/main.rs:1661-1684 | a POST names resource and action in its path, a PATCH the resource in its path and the action as a text under `action` in its body; nothing else asks for a transition |
| `ResourcePaths.ExtendedNamesResource` | src/main.rs:1156-1229 | a path that creates in a collection, extended by an id, names that collection and id if and only if the id is non-empty, slash-free, query-free, not reserved and not version-like |
| `ResourcePaths.ExtendedNamesAction` | src/main.rs:1186-1229 | extended further by an action it names the same resource and the action if and only if both are non-empty, slash-free and query-free |
| `ResourcePaths.ServeGet` | src/main.rs:1602-1640 | a GET is answered 200 with the stored body of the resource its path names |
| `ResourcePaths.ServeTransition` | src/main.rs:1661-1715 | a POST or PATCH moves the resource it names exactly when the chart allows the action, in map and log, and is answered with the new body |
| `ResourcePaths.CaptureResponse` | src/main.rs:1960-1988 | a successful POST or PUT on a collection path with an id in its JSON body stores and logs that resource, and nothing else is stored or logged |
| `ResourcePaths.LearnedIff` | src/main.rs:1960-1988 | a resource is learned from a POST or PUT answered with 200 to 299 on a collection path with an id in its JSON body, as a capture of that body, and from nothing else |
| `ResourcePaths.CapturedIsServed` | src/main.rs:1602-1640 | after the capture, a GET of the path extended by the id answers with the captured body and content type, under the same service |
| `ResourcePaths.BothFormsAct` | src/main.rs:1664-1684 | the POST form and the PATCH form of an action ask for the same transition |
| `ResourcePaths.ActionIsServed` | src/main.rs:1661-1715 | a POST to the resource's path extended by an action performs exactly the transition the chart allows, and later GETs serve the new body |
| `MockLog.LoadKeepsMap` | src/io.rs:144-181 | loading and compacting a file never changes what it replays to |
| `MockLog.MapIsLast` | src/io.rs:152-163 | a file replays to the last mock of each method, URI and tenant |
| `MockLog.FileNames` | src/io.rs:146-149 | services and mock files correspond one to one; prefix and suffix of a name never overlap |
| `MockLog.LoadAllAt` | src/io.rs:187-200 | a full load holds for each service what loading its file alone gives |
| `MockLibrary.PublishKeepsForm` | src/main.rs:994-1008 | a write keeps each segment to its own service and each mock under its own key |
| `MockLibrary.PublishFound` | src/main.rs:994-1008 | a lookup by service, method, URI and tenant finds the written mock exactly when these are its own, and any other lookup finds what it found before |
| `MockLibrary.LoadedIsLast` | src/io.rs:144-200 | after a full load a lookup finds the last mock of the service's file with this method, URI and tenant, and nothing when there is none |
| `MockLibrary.AppendOnlyAdds` | src/io.rs:245-264 | one more line of a log is found after a load under its own service, method, URI and tenant, and changes no other lookup |
| `MockLibrary.CandidatesIff` | src/io.rs:101-118 | a mock is a candidate exactly when a lookup finds it and it is of the tenant, if one is given |
| `MockLibrary.OtherTenantsKeepFound` | src/io.rs:80-96 | no run of writes under other tenants changes an exact lookup of a tenant |
| `MockLibrary.OtherTenantsKeepCandidates` | src/io.rs:101-118 | nor the set of candidates that its fuzzy matches choose from |
| `MockLibrary.ListsAtCount` | src/main.rs:961-963 | the count that a listing reports is the number of mocks stored |
| `MockLibrary.TenantsPartition` | src/io.rs:121-133 | the listings of all tenants are disjoint and their sizes add up to the whole library |
| `MockLibrary.LoadedInAnyOrder` | src/io.rs:187-200 | the order of the directory does not matter to a full load |
| `MockRuns.LandingsAgree` | src/main.rs:1009-1012 | every order in which started appends land ends with library and log equal on a key if and only if all that is to land for it is what is shown, and they are equal already unless something is to land |
| `MockRuns.StepDecides` | src/main.rs:994-1012 | a write, landing, edit or reload keeps that condition if and only if it is no write over an append of something else, no failure of the append that mattered, and no reload of a file that still lacks what was published |
| `MockRuns.RunAgreesIff` | src/io.rs:417-453 | over whole runs: whenever a key's file is not waiting for a reload, every order of landing ends in agreement, if and only if no step was such a one |
| `MockRuns.ViewIsLog` | src/io.rs:144-181 | without such steps the library is the replay of the per-service files as soon as all appends have landed and no edited file is waiting |
| `MockRuns.SpoiledRunDiverges` | src/main.rs:1949-1951 | after the first such step some order of landing ends with library and log different |
| `MockRuns.ReloadExample` | src/main.rs:1009-1012 | a file reloaded before the append of a published mock lands leaves the mock in the log and not in the library |
| `MockRuns.OverlapExample` | src/main.rs:1949-1951 | two mocks published for one key whose appends land the other way round leave the first in the log and the second in the library |
| `MockRuns.LoggedWasPublished` | src/io.rs:245-264 | whatever interleaves and fails, a mock that the log gives was logged at the start, was published, or came with an edit of the file |
| `MockRuns.ReloadsEqualFullLoad` | src/io.rs:431-453 | reloading any list of files that includes every changed one, one by one in any order and with compaction on the way, turns a full load of the old directory into the full load of the new one |
| `MockRuns.RunKeepsForm` | src/io.rs:417-453 | every library that a run reaches holds, in each segment, only its own service with each mock under its own key |
| `MockServing.ListMatching` | src/io.rs:110-115 | the entries of one tenant, or all, each exactly once |
| `MockServing.SharedLibrary.FindExact` | src/io.rs:80-96 | in a well-formed library the result is the one entry stored for service, method, URI and tenant, whatever the order in which segments are visited |
| `MockServing.SharedLibrary.EntriesForService` | src/io.rs:101-118 | exactly the mocks of the service and tenant that a lookup of their own method, URI and tenant finds, each once |
| `MockServing.SharedLibrary.AllEntries` | src/io.rs:121-133 | exactly the mocks of the tenant, or all, each once per place it is stored |
| `MockServing.SharedLibrary.TotalCount` | src/io.rs:59-64 | the number of mocks stored |
| `MockServing.SharedLibrary.WithEntry` | src/main.rs:995-1006 | a new library that reads as the old one after the write, has a fresh segment for the service and shares every other segment object |
| `MockServing.SharedLibrary.WithSegment` | src/io.rs:442-447 | a new library with one segment put in or taken out and every other segment object shared |
| `MockServing.Disk.ReadMocks` | src/io.rs:152-163 | the line loop computes the last-write-wins map |
| `MockServing.Disk.LoadOneSegment` | src/io.rs:144-181 | the segment of a mock file with at least one entry, and the file compacted if it can be written |
| `MockServing.Disk.LoadAllServiceMocks` | src/io.rs:187-200 | the directory loop builds the library of the whole directory and compacts every mock file with an entry |
| `MockServing.Disk.AppendToMockLog` | src/io.rs:245-264 | one line at the end of the service's file, or no change when the disk fails |
| `MockServing.MockStore.Swap` | src/main.rs:1007 | the pointer moves and the published library reads as before |
| `MockServing.MockStore.LearnRecord` | src/main.rs:1930-1952 | a recorded response is published under its service, or under the default one, so that a lookup of its own method, URI and tenant finds it and every other finds what it found before; that service and entry are what its spawned append gets |
| `MockServing.MockStore.HandleCreateMock` | src/main.rs:986-1012 | an injected mock without a tenant goes to the default tenant; it is found under its own method, URI and tenant, no other lookup changes, and the same entry goes to its spawned append |
| `MockServing.MockStore.ReloadOneFile` | src/io.rs:431-453 | the current library gets the file's segment, or loses it when the file is gone or holds no mock |
| `MockServing.MockStore.ReloadFull` | src/io.rs:417-425 | the current library becomes a fresh load of the directory |
| `SnapshotIsolation.Store` | src/main.rs:994-1008 | a store of any kind moves the pointer and leaves every library that anyone holds reading as before |
| `SnapshotIsolation.RunSchedule` | src/main.rs:1399 | in any interleaving of loads, matches, writes and reloads, with loads and stores of different writers crossing, each match is answered from what its actor loaded, although libraries share segment objects |
| `SnapshotIsolation.HeldIsCurrentAtLoad` | src/main.rs:1391-1399 | what an actor holds is the library that was current at its last load |
| `SnapshotIsolation.AnsweredAsAtLoad` | src/main.rs:1548-1550 | so exact matches and candidate sets are those of the library current at the load, whatever was published since |
| `UriCanonical.ParsePrint` | src/matcher.rs:184-195 | parsing printed parameters gives them back |
| `UriCanonical.ParamIs` | src/matcher.rs:184-190 | a piece is split at its first `=`; without one it is a key with an empty value |
| `UriCanonical.SortIsStable` | src/matcher.rs:191 | sorting keeps the order of the values of each key |
| `UriCanonical.SortedUnique` | src/matcher.rs:191 | a sorted parameter list is determined by the values of each key |
| `UriCanonical.ParseNormalized` | src/matcher.rs:178-198 | parsing a normalised URI gives its path and the stably sorted parameters |
| `Text.LexLeIff` | src/matcher.rs:191 | keys are ordered by their first different character, a prefix first |
| `UriCanonical.CanonicalForm` | src/matcher.rs:178-198 | two URIs normalise equal if and only if their paths are equal, both or neither have a query, and each key has the same sequence of values |
| `UriCanonical.NormalizeIdempotent` | src/matcher.rs:178-198 | normalising twice is normalising once |
| `Tenancy.StripCommutesWithNormalize` | src/main.rs:1312-1331 | dropping the tenant parameter and normalising commute on every URI |
| `Tenancy.LookupKeyIff` | src/main.rs:1364-1369 | two URIs are looked up alike if and only if they have the same path and, apart from `_tenant`, the same values for each parameter |
| `Tenancy.StripKeepsOthers` | src/main.rs:1312-1331 | a URI without a piece `_tenant` or `_tenant=...` is left as it is |
| `Tenancy.StripRemovesPiece` | src/main.rs:1312-1331 | such a piece is dropped wherever it stands, and the `?` with the last one |
| `Tenancy.TenantIsClamped` | src/main.rs:1333-1343 | for any text: there is no tenant if and only if the trimmed text has more than 128 bytes and byte 128 falls inside a character; otherwise the tenant is the trimmed text, its first 128 bytes if it is longer, or the default if it is empty |
| `Tenancy.TrimIs` | src/main.rs:1334 | trimming takes white space from both ends, and all of it |
| `Tenancy.VisibleNamesItself` | src/main.rs:1333-1343 | at most 128 visible ASCII characters name themselves, with spaces and tabs around them dropped |
| `Tenancy.AsciiNamesTenant` | src/main.rs:1333-1343 | an ASCII text always names a tenant |
| `Tenancy.ClampTwice` | src/main.rs:1333-1343 | clamping twice is clamping once if and only if the tenant does not end in white space, which it does only after a cut |
| `Tenancy.ResolveTenant` | src/main.rs:1288-1306 | the result is the clamped header; without one the clamped rest of the first piece that begins with `_tenant=`, and the default tenant when no piece does |
| `Tenancy.InsertKeepsLookupKey` | src/main.rs:1364-1369 | a tenant parameter at any position of any query leaves the lookup key unchanged |
| `Tenancy.InsertedTenantIsResolved` | src/main.rs:1288-1306 | without the header the inserted tenant is the one resolved when no earlier piece begins with `_tenant=`, and otherwise the first such piece names it |
| `Tenancy.QueryNamesLikeHeader` | src/main.rs:1364-1411 | naming a tenant first in the query or in the header gives the same lookup key and tenant |
| `Json.CollectValueDiffs` | src/matcher.rs:248-271 | the walk appends the pairs of differing strings at the same place, in walking order |
| `Json.DiffIsChangedLeaves` | src/matcher.rs:248-271 | for trees of one shape these are the changed string leaves and nothing else |
| `Json.DiffIff` | src/matcher.rs:248-271 | for any two trees the difference lists exactly the pairs of different strings that one path of keys and indices leads to in both |
| `Json.GetIsFirst` | src/matcher.rs:258-262 | the value of a key is that of the first field of this name, and there is none only when no field has the name |
| `Json.SubstituteGives` | src/matcher.rs:300-320 | substitution gives a tree of the same shape if and only if it maps each string leaf to the other tree's |
| `Json.SubstituteKeepsShape` | src/matcher.rs:300-320 | substitution keeps shape, keys and all leaves that are not strings, and changes only leaves that are wholly equal to a key |
| `Json.DiffThenSubstitute` | src/matcher.rs:248-320 | substituting the collected differences rebuilds the incoming tree if and only if equal recorded strings stand for equal incoming strings |
| `WordBoundary.ReplaceAtWordBoundary` | src/matcher.rs:325-348 | the scanning loop computes the scan of the text's bytes, for every text |
| `WordBoundary.TokeniseInverse` | src/matcher.rs:351-353 | splitting into maximal identifiers and separators loses nothing |
| `WordBoundary.UntokeniseInverse` | src/matcher.rs:351-353 | and well-formed token lists are exactly such splittings |
| `WordBoundary.ReplacedIsTokenSubst` | src/matcher.rs:325-348 | for an identifier key the scan replaces exactly the tokens equal to the key in the text's bytes |
| `WordBoundary.ReplacesExactlyTokens` | src/matcher.rs:322-348 | it replaces exactly those tokens of the text and keeps the rest if and only if the text is ASCII or does not hold the key |
| `WordBoundary.NeighbourDecides` | src/matcher.rs:333-353 | a letter, a digit, `-` or `_` next to the text protects it, on either side; any other ASCII character does not |
| `WordBoundary.Utf8Decodes` | src/matcher.rs:327-328 | a character has the bytes of its UTF-8 encoding |
| `WordBoundary.SafeOrder` | src/matcher.rs:287-297 | without an interfering value every longest-first order gives the simultaneous replacement |
| `WordBoundary.UnsafeOrder` | src/matcher.rs:287-297 | with one, some text and some longest-first order give something else |
| `WordBoundary.LongestFirstIsSimultaneous` | src/matcher.rs:287-297 | longest-first replacement is the simultaneous one on all ASCII texts and tie orders if and only if no value is a key of at most the same length with another value of its own |
| `PathShape.SegmentsMatchIff` | src/matcher.rs:200-225 | two segments match if and only if they are equal or one is a number, five hyphenated groups of hexadecimal digits, or a word with both letters and digits |
| `PathShape.PathsMatchIff` | src/matcher.rs:200-225 | two paths match if and only if they have the same number of segments and each pair does, the query playing no part |
| `PathShape.PlainPathsMatch` | src/matcher.rs:219-224 | paths whose segments have no digit and not exactly four hyphens match only when they are equal |
| `PathShape.OddSegmentMatches` | src/matcher.rs:219-224 | a segment with a character such as `.` is matched only by its equal or by an identifier |
| `SmartSwap.RecordedIsLast` | src/matcher.rs:56-59 | the entry taken is the last of this method whose URI is equal or whose path matches, and none is taken only when there is none |
| `SmartSwap.QueryChangeIff` | src/matcher.rs:86-95 | a query value changed when the last values of one key in both queries differ |
| `SmartSwap.BodyDiffIff` | src/matcher.rs:97-111 | a body value changed when both bodies are JSON and one path leads to different strings in them |
| `SmartSwap.PathSubstitutions` | src/matcher.rs:66-84 | the path loop collects exactly the changed segments with evidence in the response, and rejects exactly when a static segment changed |
| `SmartSwap.QuerySubstitutions` | src/matcher.rs:86-95 | the query loop adds exactly the changed values of common keys with evidence in the response |
| `SmartSwap.BodySubstitutions` | src/matcher.rs:97-111 | the body step adds exactly the changed strings of the JSON bodies with evidence in the response |
| `SmartSwap.Substitutions` | src/matcher.rs:61-111 | together they collect exactly the changed request values that occur in the response, unless a static segment changed |
| `SmartSwap.SortKeys` | src/matcher.rs:292-293 | the keys are ordered by length in bytes, longest first, ties in any order |
| `SmartSwap.ApplySubstitutions` | src/matcher.rs:276-298 | a JSON body is substituted as a tree, any other body key by key in that order |
| `SmartSwap.BailOutsUnreachable` | src/matcher.rs:66-76 | after the shape match the checks on segment count and static segments cannot fail |
| `SmartSwap.FindSmartSwap` | src/matcher.rs:54-126 | the last entry of this method with an equal URI or a matching path is served with its body substituted by evidenced changes and is otherwise unchanged, between paths without digits and without exactly four hyphens only one of the same path; nothing is served exactly when there is no such entry or a different request has no evidenced change |
| `SmartSwap.IdenticalHasNoChange` | src/matcher.rs:113-118 | an identical request has no substitution |
| `SmartSwap.SwapIsSafe` | src/matcher.rs:54-126 | for a JSON response the served body has the recorded shape, a leaf differs only if it was wholly equal to a changed request value and then is its incoming counterpart, and an identical request gets the body unchanged; printing is assumed to be readable only for trees that were read, also with strings replaced |
| `SmartSwap.PlainTextSwap` | src/matcher.rs:276-298 | for an ASCII text and identifiers that do not interfere the served text is the simultaneous token substitution |
| `Sequences.SequenceBoard.FindSequenceResponse` | src/matcher.rs:149-173 | the first sequence of this method with an equal URI or a matching path answers from its cursor, its cursor advances modulo 2^32, and every other cursor stays; there is no answer exactly when no sequence matches or the first that does has no responses |
| `Sequences.FirstMatchIsFirst` | src/matcher.rs:155-157 | nothing is found if and only if no sequence has the method and an equal or matching URI; otherwise the sequence found is one that no earlier such sequence precedes |
| `Sequences.ServedIff` | src/matcher.rs:155-159 | a request is answered from a sequence exactly when it is the first match and has responses |
| `Sequences.WithoutOne` | src/main.rs:1064-1066 | removing the sequence of an id keeps all others in their order |
| `Sequences.SequenceBoard.CreateSequence` | src/main.rs:1059-1073 | the sequence takes the place of one with the same id at the end of the list; cursors stay |
| `Sequences.SequenceBoard.ResetSequence` | src/main.rs:1075-1082 | only this sequence's cursor goes |
| `Sequences.SequenceBoard.DeleteSequence` | src/main.rs:1084-1097 | the sequence and its cursor go, the others stay |
| `Sequences.CounterCounts` | src/matcher.rs:161-170 | in any run the cursor is determined by the number of answers since the last reset |
| `Sequences.NthAnswer` | src/matcher.rs:149-173 | for the first matching sequence, the n-th answer since reset is `responses[n mod L]` when it loops, with L cut to 2^32, and `responses[min(n mod 2^32, L-1)]` otherwise |
| `Sequences.CountIs` | src/matcher.rs:155-170 | an answer is counted for a sequence exactly when it is the first match of a request and has responses; its reset starts the count again |
| `Sequences.Play` | src/matcher.rs:149-173 | the shared state gives these answers in every interleaving of requests and resets |
| `Sequences.ClampsUntilWrap` | src/matcher.rs:161-170 | a sequence that does not loop stays at its last response if and only if its counter has not wrapped or has counted to the end again |
| `Sequences.WrapExample` | src/matcher.rs:170 | after 2^32 answers a sequence of two responses starts over |
| `Sequences.ReplacementKeepsCursor` | src/main.rs:1059-1068 | a sequence posted under a known id goes on from the old one's cursor |
| `Glob.LanguageCons` | src/chaos.rs:130-134 | the language of a pattern by its first segment: `*` takes one path segment, `**` any number |
| `Glob.LanguageIs` | src/chaos.rs:130-134 | spelled out: after `**` any tail of the path, after `*` the path without its first segment, after any other segment the same when the first is equal |
| `Glob.TrimSlashesIs` | src/chaos.rs:138-139 | slashes are taken from both ends of pattern and path, and all of them |
| `Glob.MatcherDecides` | src/chaos.rs:143-163 | the matcher decides the language of the pattern in which a run of two or more final `**` stands for at least one segment |
| `Glob.MatcherSound` | src/chaos.rs:143-163 | every path the matcher accepts is in the language of the pattern |
| `Glob.MatcherComplete` | src/chaos.rs:143-163 | on lists of segments the matcher accepts every path of the language if and only if the pattern does not end in two `**` |
| `Glob.GlobComplete` | src/chaos.rs:137-163 | on patterns and paths as text it does so if and only if the pattern does not end in two `**` after something that can end a path |
| `Glob.TrailingStarsMiss` | src/chaos.rs:137-147 | `api/**/**` describes the path `api` and does not match it |
| `Glob.LoneSlashMiss` | src/chaos.rs:137-147 | `**//**/**` describes the path `/` and does not match it |
| `Glob.FoundRuleIsFirst` | src/chaos.rs:166-169 | the config found is that of the first rule whose pattern matches the path, and none is found only when none matches; the query plays no part |

## Left out

- HTTP serving, the upstream client, the command line, modes, telemetry, onboarding and metrics: plumbing or first-match tables that would add only easy members.
- Random and time-driven chaos (`src/markov_chaos.rs`, latency and error draws): claims would rest on idealised reals and the clock.
- JSON text and the encoding of log lines: values are trees, a log line is either an entry or not, and writing then reading an entry is assumed to give it back. `SmartSwap` takes the reader and printer as parameters, and `SmartSwap.SwapIsSafe` assumes of them that a tree that was read, with strings replaced, can be printed and read again.
- The file system: an append is one whole line, a rewrite replaces a file at once, a load reads a directory as one listing; unreadable and non-UTF-8 files are not modelled, and neither are service ids with a path separator. Reading, rewriting and publishing of one load are one step, so a line appended between its reading and its rewriting is not modelled.
- Lost updates between concurrent writers of the mock library: in `MockRuns` the load and the store of a write are one step, only its append is separate. `SnapshotIsolation` lets them cross and claims nothing about what survives.
- The watcher's timer and channel: the set of files waiting for a reload is given by which files were edited.
- `library_from_entries`: not used by the proxy, and it breaks the rule of one service per segment.
- Json.CollectValueDiffs: objects are field lists in key order and trees are rebuilt rather than edited in place, because Dafny has no pointers into values; substitution in place is therefore modelled on values.
- WordBoundary.LongestFirstIsSimultaneous: about keys that are identifiers and values made of identifier characters; for other keys the model keeps only the loop itself (`WordBoundary.ReplaceAtWordBoundary`).
- Sequences.NthAnswer: a counter is reset by its reset request only; deleting and re-posting a sequence between answers is modelled by the methods but is not part of the run.
- ResourceLineage.StoredIsFold: about services that each start of the run recovers; `ResourceStore.RecoveredIffOwn` says which these are.
- ResourcePaths.CapturedIsServed: the mode switch between capturing and serving, and the mocks and sequences that are consulted before the store, are not part of this model.
- The exact-match comparison of request bodies after a library lookup, and `find_structural`: single-step facts.
- `reload_segment` and the backwards-compatible aliases: wrappers of what is modelled.
