# A verified model of the mesh coordination core

The mesh lets several operating-system processes share one list of work through files: each claims a
node of a dependency graph, proves it is alive, reports, and exchanges messages. A coordinator looks
at the shared files, frees what has stalled and dispatches what is ready. Beside that core stand an
index of 64-bit signatures, queueing formulas, a placement policy, a conflict matrix, an attention
timer and a call limiter. This project models all of these and proves what they promise.

`dafny verify dfyconfig.toml` checks everything.

## How the model is laid out

| file | models |
|---|---|
| `LockedStore.dfy` | any number of processes running read-modify-write operations on files under one advisory lock per key: open, acquire, try and find busy, load, decide, rename, unlock, I/O failure, crash, as a labelled transition system over an arbitrary protocol |
| `RunStates.dfy`, `Claims.dfy`, `ClaimProtocol.dfy` | the claim records, the store that performs one operation at a time, and the same operations interleaved |
| `Reaper.dfy`, `SweepOutcome.dfy` | the sweep, alone and among other processes; what a sweep has achieved when it ends, and that it can end |
| `Mailbox.dfy` | the per-recipient queues, as the second protocol over `LockedStore` |
| `Cycles.dfy`, `TaskGraph.dfy`, `Rounds.dfy` | Kahn's algorithm, the persisted graph, and working it off by its own operations |
| `Slugs.dfy`, `Planner.dfy` | plan ids and master plans |
| `Stores.dfy`, `Coordinator.dfy`, `EitherStore.dfy`, `DispatchOutcome.dfy` | the two scheduler stores, the tick over either, the two stores side by side, and the tick's dispatching half among other processes |
| `Bits.dfy`, `SimHash.dfy`, `Lsh.dfy`, `LshTightness.dfy` | 64-bit words, fingerprints, the banded index |
| `Queueing.dfy`, `Admission.dfy` | Erlang C and waiting times; Welford, the critical rate, the controller |
| `Distribution.dfy`, `ConflictMatrix.dfy`, `Attention.dfy`, `RateLimit.dfy` | one source file each |
| `Options.dfy`, `Sorting.dfy` | optional values; stable sorting and the order of identifiers |

Objects the source updates in place are classes whose methods are proved against specification
functions; `map` fields stand for directories of files, so one assignment is one atomic rename, and a
missing key is a missing file. An unreadable file is a value of its own. Operations that share a lock
are written once as a decision on the file they loaded (`Claims.Decide`, `Mailboxes.DecideMail`): the
class methods perform that decision in one go (`Performs`), and `LockedStore` runs the same decision
step by step among other processes. `LockedStore.Refinement` says the second is an interleaving of
the first.

Points worth knowing when reading the statements:

- A claim attempt that finds the lock taken answers that the slot is claimed, as
  crates/apohara-dispatch/src/claim.rs:180-184 does; the atomic register allows that answer only while
  another call on the same key is in progress.
- Every operation of the transition system passes through a load; for `release`, which does not read,
  the loaded value is ignored.
- A lock-free read may also fail with an I/O error: a sweep then passes over the id, and a listing fails.
- A record is persisted under the id it carries, while `LockedStore` writes to the key that is locked.
  `ClaimProtocol.RunKeepsNames` shows that in every run from well-named files the two are one file,
  so that what is proved of runs is proved of the code from such files.
- Claim tokens are random UUIDs; that no two mints coincide is the assumption `FreshMints`.
- Whether a process is alive is an arbitrary predicate, which may differ at every decision of the
  interleaved operations; in the runs of `EitherStore` it may differ at every tick.
- Words are naturals below a power of two: shifts are divisions and masks are remainders. Ids in the
  index are 32-bit and wrap.
- Real arithmetic is exact; the decay weight of the arrival average is any number between 0 and 1.

## Where the code and its documentation part

- crates/apohara-coordinator/src/conflict_matrix.rs:15-17 and :44-47 promise an order of severity and
  symmetric rename reports. `ConflictMatrix.SeverityOrder` and `ConflictMatrix.KindFromEitherSide` say
  exactly when the code keeps them; `ConflictMatrix.SidesDisagree` exhibits a pair that breaks both.
- crates/apohara-dispatch/src/state.rs:99-105 rejects any transition off its list; releasing and reporting
  do not consult it. `Claims.MovesLegally` says exactly when they jump and
  `Claims.ReleaseJumps` shows a release doing it.
- crates/apohara-context-primitives/src/lsh.rs:160-163 promises every signature within the threshold.
  `LshTightness.AgreesIffBelowBands` proves that this holds for every history exactly when the
  threshold is below the number of bands; `LshTightness.CombEscapes` gives the signatures missed above it.
- crates/apohara-mcp/src/rate_limit.rs:47-50 promises that accepted calls fit both quotas.
  `RateLimit.QuotasHoldExactly` proves that this holds, whatever the quotas, exactly when the clock
  never returns to a window it has left; `RateLimit.ClockTurnedBack` shows a clock that does.
- crates/apohara-context-primitives/src/queueing.rs:114-117 says the controller keeps admitting below
  the concurrency floor; the code defers there. `Admission.Controller.Decide` states exactly
  when it admits, and `Admission.RefusesBelowFloor` runs a controller that refuses with two of five in flight.
- crates/apohara-coordinator/src/coordinator.rs:241-244 clamps a timeout so that it cannot wrap.
  `Coordination.ClampsAreHarmless` proves the clamps invisible for times after the epoch, and
  `Coordination.ClampsExactly` gives the one case before it where they show, `Coordination.ClampsShow` an input.

- crates/apohara-dispatch/src/task_graph.rs:250-252 promises that one corrupt record never strands later
  stale claims. `Reaper.ReapStaleClaims` keeps that for the ids it is given, but the tick lists all records
  first (crates/apohara-dispatch/src/scheduler_store.rs:61-68), and that listing fails.
  `Coordination.StallsUnlessUnreadable` says that with something stale a tick frees exactly when every record
  is readable, and `EitherStore.CorruptStopsReaping` that until the corrupt one is released no tick of any
  run frees anything.
- crates/apohara-coordinator/src/store.rs:78-82 says the double models what the tick depends on.
  `EitherStore.FitsExactly` says which uses mean the same to it and to the files, and
  `EitherStore.RequeueForgets` and `EitherStore.ReportLingers` show two that do not.

## Model

| member | source | states |
|---|---|---|
| `LockedStore.Refinement` | crates/apohara-dispatch/src/claim.rs:176-375 | every step of every interleaving of open, acquire, busy, load, decide, rename, unlock, failure and crash keeps the invariant and is one step, or none, of a register that reads, decides and writes at once |
| `LockedStore.Linearizable` | crates/apohara-dispatch/src/claim.rs:166-175 | in every run the disk is what the decided operations leave one after the other, and each call that took the lock has exactly one place in that order and answered what its operation answers there |
| `LockedStore.RealTimeOrder` | crates/apohara-dispatch/src/claim.rs:244-249 | a call that returned before another was opened comes before it in that order |
| `LockedStore.StepInv` | crates/apohara-dispatch/src/claim.rs:187-191 | every step keeps: one holder per lock, what the holder loaded is still on disk, and each decided call has its own log entry |
| `LockedStore.ReturnedAnswers` | crates/apohara-dispatch/src/claim.rs:176-190 | a call that returned has its own entry and answered what that entry answers, unless it found the lock taken and does not wait |
| `LockedStore.HolderCanProceed` | crates/apohara-dispatch/src/claim.rs:508-520 | whoever holds a lock has a next step that waits for nobody and brings it closer to releasing, so no lock is orphaned |
| `RunStates.EnteredFrom` | crates/apohara-dispatch/src/state.rs:99-119 | for each state, exactly the states it may be entered from |
| `Claims.MovesLegally` | crates/apohara-dispatch/src/state.rs:99-119 | an operation that writes moves its slot along legal transitions exactly unless it is a release or a report on an unclaimed slot |
| `Claims.ReleaseJumps` | crates/apohara-dispatch/src/claim.rs:312-326 | releasing a missing record persists a released one, which no legal transition allows |
| `Claims.AnswersExactly` | crates/apohara-dispatch/src/claim.rs:191-375 | for every record and operation, exactly what is answered, and that a write happens exactly when it is granted: a claim on an open slot, a beat or report by the token on disk, any release, a conditional release of a stale claim |
| `Claims.BeatNeverAges` | crates/apohara-dispatch/src/claim.rs:251-261 | a beat keeps the claim and makes it look as recent as the later of the beat and the mint |
| `Claims.LastSeenIsLatest` | crates/apohara-dispatch/src/claim.rs:491-496 | the last sign of life is the latest time recorded, and the epoch for a record with none |
| `Claims.StaleExactly` | crates/apohara-dispatch/src/claim.rs:459-506 | a claim is stale exactly when every time it records is longer ago than the timeout, or the process of its last beat is gone; a record with no time dates from the epoch |
| `Claims.SaturationExactly` | crates/apohara-dispatch/src/claim.rs:491-499 | the saturating deadline decides like the exact one, except at the very first instant for a deadline before it |
| `Claims.BeatWithinTtlIsFresh` | crates/apohara-dispatch/src/claim.rs:479-506 | a record whose live holder beat at or after `now - ttl` is never stale, saturation included |
| `Claims.WritesOwnFile` | crates/apohara-dispatch/src/claim.rs:447-456 | on well-named files every operation writes the file of the id it locked, and leaves all files well named |
| `Claims.ClaimStore.TryClaim` | crates/apohara-dispatch/src/claim.rs:191-227 | under its lock, a claim attempt performs the whole decision on the record and changes no other file |
| `Claims.ClaimStore.Heartbeat` | crates/apohara-dispatch/src/claim.rs:249-267 | renews the liveness proof on a token match and otherwise changes nothing |
| `Claims.ClaimStore.ReportResult` | crates/apohara-dispatch/src/claim.rs:288-307 | releases on a token match and otherwise changes nothing |
| `Claims.ClaimStore.Release` | crates/apohara-dispatch/src/claim.rs:312-326 | frees the slot whatever it held |
| `Claims.ClaimStore.ReleaseIfStillStale` | crates/apohara-dispatch/src/claim.rs:342-375 | frees the slot exactly when the committed record is stale |
| `Claims.ClaimStore.HasActiveClaim` | crates/apohara-dispatch/src/claim.rs:423-431 | true exactly for a readable record that is claimed or running |
| `Claims.ClaimStore.List` | crates/apohara-dispatch/src/claim.rs:389-412 | every record once, ordered by id, in whatever order the directory is visited; fails exactly when some record is unreadable |
| `ClaimProtocol.EntryEffect` | crates/apohara-dispatch/src/claim.rs:191-375 | what each operation does to the token and the state of its slot, and that it leaves the other slots alone |
| `ClaimProtocol.TokenLifetime` | crates/apohara-dispatch/src/claim.rs:215-307 | over any history a token is on disk exactly from its mint to the first release or re-claim, on the slot it was minted for and on no other |
| `ClaimProtocol.AcceptedAtMostOnce` | crates/apohara-dispatch/src/claim.rs:275-307 | of all decided reports with a given token at most one is accepted, after its mint, on its slot |
| `ClaimProtocol.ReleaseBetweenAcquisitions` | crates/apohara-dispatch/src/claim.rs:194-204 | between two acquisitions of one slot a released record was persisted |
| `ClaimProtocol.OldTokenInert` | crates/apohara-dispatch/src/claim.rs:263-265 | once a claim is released or taken over, its token is refused and changes no file |
| `ClaimProtocol.NeverIllegal` | crates/apohara-dispatch/src/claim.rs:207-213 | the transition guard inside a claim attempt never fires |
| `ClaimProtocol.CallersHear` | crates/apohara-dispatch/src/claim.rs:244-247 | every call that returned a beat, report, release or conditional release was decided in the history and told its own entry's answer; a claim attempt was, or was told the slot is taken |
| `ClaimProtocol.ReportedAtMostOnce` | crates/apohara-dispatch/src/claim.rs:275-307 | of all callers that reported with a minted token at most one was told it is accepted |
| `ClaimProtocol.HandedApart` | crates/apohara-dispatch/src/claim.rs:215-226 | no two callers were handed the same token |
| `ClaimProtocol.TokenSafety` | crates/apohara-dispatch/src/claim.rs:176-375 | at every point of every run of any number of processes, crashes and failures included: the three token guarantees of the history, and the three of what callers were told |
| `ClaimProtocol.RunKeepsNames` | crates/apohara-dispatch/src/claim.rs:447-456 | in every run from well-named files the files stay well named, and each record about to be persisted names the task whose lock is held |
| `ClaimProtocol.ExactlyOneWinner` | crates/apohara-dispatch/src/claim.rs:166-190 | when any number of attempts race for a free slot and all return, exactly one acquired it, all others were refused, and the winner's token is on disk |
| `Reaper.ReapStaleClaims` | crates/apohara-dispatch/src/task_graph.rs:256-296 | a sweep on its own releases exactly the stale records among its ids and returns exactly those, sorted, each once |
| `Reaper.SystemRunInv` | crates/apohara-dispatch/src/task_graph.rs:269-293 | any number of sweeps among any other operations keep their bookkeeping true |
| `Reaper.DecidedUnderLock` | crates/apohara-dispatch/src/claim.rs:352-362 | an operation is decided only while its call holds the lock, from the file then on disk |
| `Reaper.FreshBeatSpares` | crates/apohara-dispatch/src/claim.rs:356-364 | a beat committed as the last write before the decision, by a live process, within the timeout, always spares the claim |
| `SweepOutcome.ReportedIsReleased` | crates/apohara-dispatch/src/task_graph.rs:283-292 | in every interleaving a sweep reports exactly the ids one of its own conditional releases answered yes to, which are exactly the ids it found stale and released |
| `SweepOutcome.ReapedWasStale` | crates/apohara-dispatch/src/task_graph.rs:283-292 | in every interleaving an id a sweep returns was released by a call of that sweep, in an operation that found the committed record stale at the sweep's own time |
| `SweepOutcome.SkippedHadNoClaim` | crates/apohara-dispatch/src/task_graph.rs:270-276 | an id passed over after it was read had no readable live claim on disk at some state of the run during the sweep |
| `SweepOutcome.StaleThroughoutIsReaped` | crates/apohara-dispatch/src/task_graph.rs:256-296 | at the end of a sweep every listed id that held one stale claim throughout, written by nobody else and with no failed read or check, is reported, whatever other files hold |
| `SweepOutcome.SweepCanEnd` | crates/apohara-dispatch/src/task_graph.rs:250-252 | whatever the files hold and wherever other processes stand or have died, a live sweep can go on through all its ids to the end |
| `SweepOutcome.CallCanAnswer` | crates/apohara-dispatch/src/claim.rs:352-354 | a call that has not died can be brought to its answer, whoever holds its lock |
| `Mailboxes.Mailbox.Send` | crates/apohara-dispatch/src/mailbox.rs:112-134 | a readable queue accepts the message at its tail, with an id minted when there is none; an unreadable one is reported and left alone |
| `Mailboxes.Mailbox.CheckInbox` | crates/apohara-dispatch/src/mailbox.rs:146-164 | returns the whole queue and leaves it empty |
| `Mailboxes.Mailbox.PeekInbox` | crates/apohara-dispatch/src/mailbox.rs:176-181 | returns the whole queue and changes nothing |
| `Mailboxes.Mailbox.Ack` | crates/apohara-dispatch/src/mailbox.rs:191-218 | removes exactly the named messages and answers how many those were |
| `Mailboxes.Conservation` | crates/apohara-dispatch/src/mailbox.rs:140-164 | over any history the messages committed to a recipient are, with multiplicity, the pending ones and the taken ones |
| `Mailboxes.PendingInSendOrder` | crates/apohara-dispatch/src/mailbox.rs:130-133 | the pending queue is the committed messages without the taken ones, in send order |
| `Mailboxes.ExactlyOneFate` | crates/apohara-dispatch/src/mailbox.rs:136-218 | with distinct ids a committed message is pending or was taken by exactly one operation, a drain or an acknowledgement that names it |
| `Mailboxes.AckSparesLaterMail` | crates/apohara-dispatch/src/mailbox.rs:183-190 | acknowledging what a peek showed never takes a message committed after the peek |
| `Mailboxes.AnsweredByPending` | crates/apohara-dispatch/src/mailbox.rs:112-218 | in every history each operation answers from what was pending at its place: a peek and a drain all of it, an acknowledgement how many it named |
| `Mailboxes.CallersHearPending` | crates/apohara-dispatch/src/mailbox.rs:108-256 | in every run each call that returned has its place in the history and was told what was pending there |
| `Mailboxes.MailSafety` | crates/apohara-dispatch/src/mailbox.rs:108-256 | conservation and send order at every point of every run of any number of processes |
| `Cycles.HasCycle` | crates/apohara-dispatch/src/task_graph.rs:193-236 | for distinct ids, terminates, never underflows a counter, repeated dependencies included, and answers true exactly when a dependency walk among the listed ids closes, false exactly when a topological order exists |
| `Cycles.Release` | crates/apohara-dispatch/src/task_graph.rs:223-233 | resolving one id lowers exactly the counters of the nodes that need it and queues those that reach zero |
| `Cycles.OrderedHasNoCycle` | crates/apohara-dispatch/src/task_graph.rs:187-192 | a set of nodes with a topological order has no closed dependency walk |
| `Cycles.StuckHasCycle` | crates/apohara-dispatch/src/task_graph.rs:187-192 | nodes that all wait for one another contain a closed dependency walk |
| `TaskGraphs.TaskGraph.AddNode` | crates/apohara-dispatch/src/task_graph.rs:109-121 | accepted exactly when the resulting nodes have a topological order; a rejected node leaves the graph unchanged; distinct ids and acyclicity are kept |
| `TaskGraphs.TaskGraph.MarkDone` | crates/apohara-dispatch/src/task_graph.rs:127-133 | records an id as done once, known or not, and keeps the graph |
| `TaskGraphs.TaskGraph.Claimable` | crates/apohara-dispatch/src/task_graph.rs:162-184 | lists, in order and each once, exactly the unfinished nodes with all dependencies done and an open slot; fails exactly on an unreadable graph or the unreadable record of an unblocked node |
| `TaskGraphs.SomethingUnlocked` | crates/apohara-dispatch/src/task_graph.rs:153-161 | while an unfinished node remains and dependencies are known, something is unlocked |
| `TaskGraphs.RoundsFinish` | crates/apohara-dispatch/src/task_graph.rs:104-184 | claiming all, finishing and marking done completes n nodes within n rounds exactly when every dependency of an unfinished node is a node or done |
| `Rounds.WorkThrough` | crates/apohara-dispatch/src/task_graph.rs:104-184 | listing, claiming, reporting and marking done, by the operations themselves, ends within as many rounds as there are nodes; every claim is granted and every report accepted, one for each newly done node; and all is done exactly when every dependency of an unfinished node was known |
| `Rounds.WorkOff` | crates/apohara-dispatch/src/claim.rs:176-307 | on an open slot the claim is granted and the report accepted, the slot is open again and its task done |
| `TaskGraphs.AllSlotsOpen` | crates/apohara-dispatch/src/task_graph.rs:174-180 | with no slot held the listing is exactly what a round unlocks |
| `TaskGraphs.BackwardDepsAcyclic` | crates/apohara-dispatch/src/planner.rs:20-21 | nodes whose dependencies all come earlier in the list are acyclic |
| `Slugs.Slug` | crates/apohara-dispatch/src/planner.rs:35-56 | the slug of a string is its lower-cased alphanumeric runs joined by single dashes, or "area" |
| `Slugs.WordsKeepAll` | crates/apohara-dispatch/src/planner.rs:33-47 | the words are all letters and digits of the string, lower-cased and in order, one word for each unbroken run |
| `Slugs.LowersLetters` | crates/apohara-dispatch/src/planner.rs:39 | each capital becomes the small letter at its place in the alphabet, and nothing else changes |
| `Slugs.AlphanumericMeans` | crates/apohara-dispatch/src/planner.rs:40 | exactly the ASCII letters and digits are kept |
| `Slugs.DecimalReads` | crates/apohara-dispatch/src/planner.rs:147-149 | the number of a candidate is written in decimal digits without a leading zero, and reads back |
| `Slugs.SlugIdempotent` | crates/apohara-dispatch/src/planner.rs:33-34 | a slug is its own slug |
| `Slugs.SlugKeepsWords` | crates/apohara-dispatch/src/planner.rs:35-56 | a slug has exactly the words of its string, and "area" stands for none |
| `Slugs.SlugShape` | crates/apohara-dispatch/src/planner.rs:33-34 | only small letters, digits and single dashes, each dash between two of the others |
| `Slugs.CandidateInjective` | crates/apohara-dispatch/src/planner.rs:144-150 | the numbered candidates for one slug are all different |
| `Planner.UniqueId` | crates/apohara-dispatch/src/planner.rs:144-150 | the search for an unused id terminates and takes the first candidate not taken yet |
| `Planner.PlanMaster` | crates/apohara-dispatch/src/planner.rs:108-164 | for every objective and area list, the three-step chain below two areas and otherwise one slice per area between plan and integration |
| `Planner.PlanTitles` | crates/apohara-dispatch/src/planner.rs:108-164 | what each step of a plan is called |
| `Planner.SliceNames` | crates/apohara-dispatch/src/planner.rs:143-152 | a slice is named after its area, bare unless an earlier slice has that name, and then with the first free number from 2 up |
| `Planner.PlanBackward` | crates/apohara-dispatch/src/planner.rs:108-164 | every plan has distinct ids and dependencies that occur earlier |
| `Planner.BuildMasterPlan` | crates/apohara-dispatch/src/planner.rs:170-186 | into every readable graph the plan goes in whole, in plan order, and done ids stay; the only rejection is an unreadable graph, left as it is |
| `Planner.ReplanAcyclic` | crates/apohara-dispatch/src/planner.rs:166-169 | no plan closes a cycle through nodes already there, whatever ids it replaces |
| `Planner.PlacedAllMembers` | crates/apohara-dispatch/src/task_graph.rs:111-116 | afterwards the graph holds the plan's nodes and every other node as it was |
| `Planner.PlacedAllInPlace` | crates/apohara-dispatch/src/task_graph.rs:111-116 | no node moves: each place keeps its id, and its node unless the plan has one of that id |
| `Planner.FanOutWaves` | crates/apohara-dispatch/src/planner.rs:138-163 | what unlocks is first the plan, then all slices together, then the integration, then nothing |
| `Planner.LinearWaves` | crates/apohara-dispatch/src/planner.rs:121-136 | the three-step chain unlocks one step after the other |
| `Stores.InMemoryStore.ReadyTasks` | crates/apohara-coordinator/src/store.rs:159-175 | the ready ids in order, in whatever order the map is visited |
| `Stores.InMemoryStore.ReapStale` | crates/apohara-coordinator/src/store.rs:177-193 | frees exactly the stale claims and returns them in order |
| `Stores.DispatchSchedulerStore.ReadyTasks` | crates/apohara-dispatch/src/scheduler_store.rs:52-56 | the claimable ids of the graph, in order, or failure |
| `Stores.ListingFails` | crates/apohara-dispatch/src/task_graph.rs:163-180 | the listing fails exactly on a graph that does not parse or the unreadable record of an unblocked node |
| `Stores.DispatchSchedulerStore.ReapStale` | crates/apohara-dispatch/src/scheduler_store.rs:58-71 | sweeps every claim on disk, graph node or not, and fails as a whole on an unreadable record |
| `Sorting.BelowMeans` | crates/apohara-coordinator/src/store.rs:48-49 | identifiers are ordered by the first character at which they part, and a prefix comes first |
| `Stores.OnlyListing` | crates/apohara-coordinator/src/store.rs:48-49 | a set of ids has only one listing in order, so both stores' answers are determined by their sets |
| `Coordination.TeammateRoster.PickIdle` | crates/apohara-coordinator/src/coordinator.rs:124-132 | the idle agent first in order, in whatever order the map is visited |
| `Coordination.HelperIsFirstIdle` | crates/apohara-coordinator/src/coordinator.rs:271-282 | with someone busy the dispatch names an idle agent, and none before it is idle |
| `Coordination.HelperIsNeeded` | crates/apohara-coordinator/src/coordinator.rs:271-282 | an agent is named exactly when someone is busy and someone is idle |
| `Coordination.Coordinator.Tick` | crates/apohara-coordinator/src/coordinator.rs:224-289 | over either store, the outcome and the state after a tick, careful mode, reaping and failing stores included |
| `Coordination.CarefulHoldsBack` | crates/apohara-coordinator/src/coordinator.rs:231-234 | in careful mode, and only then, a tick holds back: it changes nothing, and names in order exactly what may start |
| `Coordination.StalledAreReported` | crates/apohara-coordinator/src/coordinator.rs:245-258 | out of careful mode exactly the claims whose holder is gone, or silent for longer than the configured timeout, are reported, in order and each once |
| `Coordination.TickDispatches` | crates/apohara-coordinator/src/coordinator.rs:261-264 | with nothing stalled a tick dispatches unless nothing may start |
| `Coordination.ReuseMeansContinuation` | crates/apohara-coordinator/src/coordinator.rs:266-282 | context is reused exactly when some dispatched task continues an earlier one |
| `Coordination.DispatchIsExact` | crates/apohara-coordinator/src/coordinator.rs:256-288 | a dispatch names exactly the ids with all dependencies done and an open slot, and a dispatching tick has reaped nothing |
| `DispatchOutcome.DispatchedWasOpen` | crates/apohara-coordinator/src/coordinator.rs:247-288 | among other processes, an id a tick dispatches had its dependencies done in the graph it read and its slot open at some state after that; the tick's sweep freed nothing or never began, its listing having failed |
| `DispatchOutcome.QuietSweepMissedNothing` | crates/apohara-coordinator/src/coordinator.rs:247-258 | when a tick that swept goes on to dispatch, a listed id that held one stale claim throughout, written by nobody else, had a read or a check that failed |
| `DispatchOutcome.OpenThroughoutIsDispatched` | crates/apohara-dispatch/src/task_graph.rs:167-181 | an unblocked id whose slot was open when the listing began and untouched since is dispatched |
| `DispatchOutcome.FoundOpenIsGranted` | crates/apohara-dispatch/src/claim.rs:191-226 | a claim attempt on what was found open is granted unless someone wrote to it in between |
| `Coordination.StallThenDispatch` | crates/apohara-coordinator/src/coordinator.rs:247-258 | a tick that reports stalls has opened every slot it names, and the next tick at that instant finds none and goes on to dispatch |
| `Coordination.StallsUnlessUnreadable` | crates/apohara-dispatch/src/scheduler_store.rs:58-71 | with a stale claim on disk a tick out of careful mode reports stalls exactly when every record is readable |
| `Coordination.UnreadableStopsTick` | crates/apohara-dispatch/src/scheduler_store.rs:61-68 | with an unreadable record, of whatever task, a tick frees nothing and reports no stall |
| `Coordination.ClampsAreHarmless` | crates/apohara-coordinator/src/coordinator.rs:241-246 | for every 64-bit time and timeout, a live holder seen at a non-negative time stalls only once the timeout has really passed |
| `Coordination.ClampsExactly` | crates/apohara-coordinator/src/coordinator.rs:241-246 | for every last-seen time, when the clamped test and the exact one differ |
| `Coordination.ClampsShow` | crates/apohara-coordinator/src/coordinator.rs:241-246 | a time before the epoch and a timeout for which the clamped test expires early |
| `EitherStore.FitsExactly` | crates/apohara-coordinator/src/store.rs:78-155 | from matching stores, a tick, an added node, a finished node, a claim, a beat, a report, a release or the end of a process leaves matching stores exactly if it fits, a condition on the step and the state before it |
| `EitherStore.MatchThroughout` | crates/apohara-coordinator/src/store.rs:78-155 | over any run from matching stores, the stores match after every step exactly when every step fits |
| `EitherStore.SameOverEitherStore` | crates/apohara-dispatch/src/scheduler_store.rs:51-72 | while every step fits, all ticks of a run have the same outcomes over either store |
| `EitherStore.PerformInMemory` | crates/apohara-coordinator/src/store.rs:95-155 | the double's own methods take the steps the runs are made of |
| `EitherStore.PerformOnDisk` | crates/apohara-dispatch/src/task_graph.rs:109-133 | and so do the graph's and the claim store's, seen through an adapter with the probe of the moment |
| `EitherStore.EmptyStoresMatch` | crates/apohara-coordinator/src/store.rs:69-72 | two empty stores match |
| `EitherStore.TickMatches` | crates/apohara-coordinator/src/store.rs:158-194 | one tick over matching stores has one outcome and leaves matching stores |
| `EitherStore.RequeueForgets` | crates/apohara-coordinator/src/store.rs:95-118 | re-adding a finished node tells the two stores apart: the double forgets that it is done |
| `EitherStore.ReportLingers` | crates/apohara-coordinator/src/store.rs:136-154 | a reported and finished task is free on disk and later counts as stalled in the double, which has no operation for a report |
| `EitherStore.CorruptStopsReaping` | crates/apohara-dispatch/src/scheduler_store.rs:61-68 | over any run, until the task of an unreadable record is released, no tick reports or frees a stalled claim of any task |
| `EitherStore.ReleaseHeals` | crates/apohara-dispatch/src/claim.rs:312-326 | releasing that task replaces the unreadable record, without reading it |
| `Bits.FieldEqual` | crates/apohara-context-primitives/src/lsh.rs:65-67 | two bit fields are equal exactly when their bits are |
| `Bits.FieldsJoin` | crates/apohara-context-primitives/src/lsh.rs:55-57 | adjacent fields join to the wider field |
| `Bits.NoneDiffer` | crates/apohara-context-primitives/src/simhash.rs:77-81 | the Hamming distance over a range is zero exactly when all its bits agree |
| `SimHash.Fingerprint` | crates/apohara-context-primitives/src/simhash.rs:48-75 | bit i is set exactly when more token hashes set it than clear it, and no tokens give zero |
| `SimHash.FingerprintIgnoresOrder` | crates/apohara-context-primitives/src/simhash.rs:3-13 | the fingerprint depends only on the bag of token hashes |
| `SimHash.FingerprintOfOneToken` | crates/apohara-context-primitives/src/simhash.rs:24-26 | one token, however often, has its own hash for a fingerprint |
| `Lsh.NewScheme` | crates/apohara-context-primitives/src/lsh.rs:35-41 | schemes exist exactly for the seven divisors of 64 and cover all bits |
| `Lsh.BandsRoundTrip` | crates/apohara-context-primitives/src/lsh.rs:53-68 | or-ing the bands back at their offsets gives the signature |
| `Lsh.ConfidenceLadder` | crates/apohara-context-primitives/src/lsh.rs:90-98 | the confidence of a match steps down after 0, 3, 7 and 15 differing bits |
| `Lsh.KeyParts` | crates/apohara-context-primitives/src/lsh.rs:221-228 | a packed key is a 64-bit word with the band in the top byte and the low 56 bits of the value below |
| `Lsh.KeysApart` | crates/apohara-context-primitives/src/lsh.rs:221-228 | two packed keys are equal exactly when the band is the same and the low 56 bits of the values are |
| `Lsh.SomeBandAgrees` | crates/apohara-context-primitives/src/lsh.rs:3-8 | fewer differing bits than bands leave some band equal |
| `Lsh.CloseSharesKey` | crates/apohara-context-primitives/src/lsh.rs:153-156 | signatures closer than the band count share a packed key, the single 64-bit band included |
| `Lsh.LshIndex.Insert` | crates/apohara-context-primitives/src/lsh.rs:150-158 | files the 32-bit id under each band key once and keeps every bucket what its history says |
| `Lsh.LshIndex.Candidates` | crates/apohara-context-primitives/src/lsh.rs:206-217 | the ids that share a packed key with the query |
| `Lsh.LshIndex.Query` | crates/apohara-context-primitives/src/lsh.rs:164-200 | exactly the hits that share a packed key, each once, nearest first; below the band count exactly the hits of a linear scan |
| `Lsh.UnwrappedCandidates` | crates/apohara-context-primitives/src/lsh.rs:150-157 | while ids do not wrap, an id is a candidate exactly when its own signature shares a key |
| `LshTightness.CombEscapes` | crates/apohara-context-primitives/src/lsh.rs:153-156 | for every scheme there are signatures that differ in as many bits as there are bands and share no key |
| `LshTightness.AgreesIffBelowBands` | crates/apohara-context-primitives/src/lsh.rs:160-163 | the index agrees with the scan on every history exactly when the threshold is below the band count |
| `Queueing.ComputeErlangC` | crates/apohara-context-primitives/src/queueing.rs:54-75 | the loop, which never forms a factorial, computes the textbook ratio |
| `Queueing.ErlangBounds` | crates/apohara-context-primitives/src/queueing.rs:46-53 | the result is a probability |
| `Queueing.ErlangAtTheEnds` | crates/apohara-context-primitives/src/queueing.rs:54-60 | it is 0 exactly for idle servers and 1 exactly for saturated or missing ones |
| `Queueing.ErlangAtTwoServers` | crates/apohara-context-primitives/src/queueing.rs:46-53 | for two servers it is twice the square of the utilization over one plus the utilization |
| `Queueing.ErlangMonotone` | crates/apohara-context-primitives/src/queueing.rs:46-53 | for every server count it grows with utilization, strictly inside the range |
| `Queueing.ErlangAtMostRho` | crates/apohara-context-primitives/src/queueing.rs:52-53 | it is at most the utilization, and equal to it for one server |
| `Queueing.WaitEnds` | crates/apohara-context-primitives/src/queueing.rs:80-87 | the wait is finite exactly below capacity |
| `Queueing.WaitTimesSlack` | crates/apohara-context-primitives/src/queueing.rs:88-89 | the wait times the capacity to spare is the probability of queueing |
| `Queueing.WaitAtOneServer` | crates/apohara-context-primitives/src/queueing.rs:77-90 | for one server the wait is the utilization over the capacity to spare |
| `Queueing.FasterClock` | crates/apohara-context-primitives/src/queueing.rs:77-90 | arrivals and services k times as fast divide the wait by k |
| `Queueing.PoolBeatsOneFastServer` | crates/apohara-context-primitives/src/queueing.rs:80-90 | c servers never wait longer than one server of the same total capacity |
| `Queueing.MoreArrivalsWaitLonger` | crates/apohara-context-primitives/src/queueing.rs:80-90 | the wait never shrinks as arrivals grow, and strictly grows below capacity |
| `Queueing.AddingServerHelps` | crates/apohara-context-primitives/src/queueing.rs:80-90 | one more server at the same rates never lengthens the wait |
| `Admission.Welford.Update` | crates/apohara-context-primitives/src/queueing.rs:142-148 | after any sequence of updates mean times count is the sum and `m2` the spread of all samples about the current mean |
| `Admission.Welford.LeastSpread` | crates/apohara-context-primitives/src/queueing.rs:131-139 | `m2` is never negative and no other centre has less spread |
| `Admission.UtilizationIsShare` | crates/apohara-context-primitives/src/queueing.rs:30-36 | the share of the capacity that arrives, clamped to none and just short of all, and all without servers |
| `Admission.WithinTarget` | crates/apohara-context-primitives/src/queueing.rs:38-44 | utilization is within the target exactly up to the critical rate, except for targets no estimate exceeds and for negative ones |
| `Admission.CriticalInverts` | crates/apohara-context-primitives/src/queueing.rs:38-44 | the critical rate inverts utilization exactly for attainable targets |
| `Admission.AverageApproaches` | crates/apohara-context-primitives/src/queueing.rs:220-222 | an arrival moves the average towards the newest rate by the share the weight says |
| `Admission.Controller.RecordArrival` | crates/apohara-context-primitives/src/queueing.rs:214-225 | the arrival average stays between zero and the highest rate measured, and the in-flight count saturates |
| `Admission.Controller.RecordCompletion` | crates/apohara-context-primitives/src/queueing.rs:228-231 | the in-flight count never goes below zero nor misses an arrival that has not completed |
| `Admission.Controller.MuIsThroughput` | crates/apohara-context-primitives/src/queueing.rs:205-210 | the service rate is completions per unit of service time seen, and one before any |
| `Admission.Controller.RetryMs` | crates/apohara-context-primitives/src/queueing.rs:268-277 | the mean service time to within a millisecond, unless clamped; the branch for a rate that is not positive is never reached |
| `Admission.Controller.DelayIsMeanService` | crates/apohara-context-primitives/src/queueing.rs:268-277 | the delay is the mean service time seen in whole milliseconds, one at least and a minute at most |
| `Admission.Controller.Decide` | crates/apohara-context-primitives/src/queueing.rs:252-277 | admits exactly up to the critical rate, defers exactly the refused below the floor, by the mean service time |
| `Admission.RefusesBelowFloor` | crates/apohara-context-primitives/src/queueing.rs:252-266 | a controller reached by two arrivals defers with two in flight and a floor of five |
| `Distribution.PickBlade` | crates/apohara-coordinator/src/distribution.rs:184-203 | some blade exactly when any binary has room; without affinity a least-loaded one |
| `Distribution.PicksRightBlade` | crates/apohara-coordinator/src/distribution.rs:184-203 | the first blade of the provider the intent asks for that has room; without one, or with affinity off or blocked, the first of the least-loaded blades with room |
| `Distribution.DefaultProviders` | crates/apohara-types/src/intent.rs:76-87 | which intents go to which provider by default |
| `Distribution.AffinityHonoured` | crates/apohara-coordinator/src/auto_spawn.rs:78-94 | the wanted provider is picked whenever one of its blades has room |
| `Distribution.TiesGoToTheFirst` | crates/apohara-coordinator/src/distribution.rs:196-202 | equally loaded blades are taken in roster order |
| `Distribution.BumpTakesOne` | crates/apohara-coordinator/src/distribution.rs:138-140 | a placement uses up exactly one unit of the total spare capacity |
| `Distribution.LoadsAccount` | crates/apohara-coordinator/src/distribution.rs:138-140 | the loads a choice is made on are the initial ones and one for each task placed before |
| `Distribution.Assign` | crates/apohara-coordinator/src/distribution.rs:155-178 | places exactly min(ready, total spare over distinct binaries), a prefix in order, each task on the right blade for its intent under the loads of that moment, never past a capacity, waiting only when all is saturated, and balanced to within one without affinity |
| `ConflictMatrix.Intersect` | crates/apohara-coordinator/src/conflict_matrix.rs:90-93 | the common entries, as often as the first list has them |
| `ConflictMatrix.CleanMeansOnlyReadsShared` | crates/apohara-coordinator/src/conflict_matrix.rs:48-86 | no conflict, from either side, exactly when every shared symbol is only read by both |
| `ConflictMatrix.ReportIsReal` | crates/apohara-coordinator/src/conflict_matrix.rs:21-39 | a report is never empty and names only symbols that clash in the way reported |
| `ConflictMatrix.ReportIsComplete` | crates/apohara-coordinator/src/conflict_matrix.rs:48-93 | and it lists every symbol that clashes in the way of the first cell that clashes |
| `ConflictMatrix.SeverityOrder` | crates/apohara-coordinator/src/conflict_matrix.rs:15-17 | the documented order is kept exactly when no read renamed away hides a write of what the other renames |
| `ConflictMatrix.KindFromEitherSide` | crates/apohara-coordinator/src/conflict_matrix.rs:44-47 | both sides see mirror images exactly outside three cases |
| `ConflictMatrix.SidesDisagree` | crates/apohara-coordinator/src/conflict_matrix.rs:58-65 | a pair whose two sides report different kinds |
| `ConflictMatrix.AnyOrderSameStore` | crates/apohara-coordinator/src/conflict_matrix.rs:10-13 | tasks without pairwise conflict leave the same store in every order |
| `ConflictMatrix.EachSeesTheStart` | crates/apohara-coordinator/src/conflict_matrix.rs:10-13 | and each of them sees, in every order, what it would see running first |
| `ConflictMatrix.ConflictMatters` | crates/apohara-coordinator/src/conflict_matrix.rs:3-8 | every reported conflict is one where some tasks so declared see each other's changes |
| `Attention.AttentionState.Tick` | crates/apohara-attention/src/lib.rs:107-127 | the decay loop terminates by band rank and reaches the decayed stage |
| `Attention.AttentionState.Apply` | crates/apohara-attention/src/lib.rs:86-105 | promotes at once and keeps the later of the two times |
| `Attention.StimulusRaises` | crates/apohara-attention/src/lib.rs:53-63 | a direct stimulus makes hot, an ambient one warm unless already hot, and none lowers the band |
| `Attention.CoolingLowers` | crates/apohara-attention/src/lib.rs:44-51 | each band cools to the next one down, and idle is the last |
| `Attention.DecayFromHot` | crates/apohara-attention/src/lib.rs:35-51 | the closed form: warm after 60, cool after 300 and idle after 1020 seconds |
| `Attention.TickTwice` | crates/apohara-attention/src/lib.rs:107-127 | two ticks, in either order of time, are one tick at the later time |
| `Attention.OnlyTheLatestTickCounts` | crates/apohara-attention/src/lib.rs:107-127 | any number of ticks at any times is one tick at the latest |
| `Attention.TickBeforeStimulus` | crates/apohara-attention/src/lib.rs:58-63 | a tick before a stimulus changes nothing, except that a hot stage past its hold cools before an ambient one |
| `Attention.TimerNeverGoesBack` | crates/apohara-attention/src/lib.rs:92-95 | over any run, times out of order included, the hold timer never goes back nor ahead of every clock seen |
| `Attention.HotNeedsDirect` | crates/apohara-attention/src/lib.rs:3-7 | without a direct stimulus a stage never becomes hot |
| `RateLimit.WindowLengths` | crates/apohara-mcp/src/rate_limit.rs:52-53 | the windows are whole minutes and hours of wall-clock time, before the epoch too |
| `RateLimit.TokenBucket.TryConsume` | crates/apohara-mcp/src/rate_limit.rs:51-74 | for any times, accepts exactly when both windows' current streaks are below quota |
| `RateLimit.TokenBucket.CurrentCounts` | crates/apohara-mcp/src/rate_limit.rs:76-90 | the streaks of the windows the time lies in, never above quota |
| `RateLimit.AnsweredByQuota` | crates/apohara-mcp/src/rate_limit.rs:47-50 | while the clock returns to no window, the streaks are the windows' whole counts and a call is accepted exactly when both are below quota |
| `RateLimit.QuotaKept` | crates/apohara-mcp/src/rate_limit.rs:47-74 | and then no window ever exceeds its quota |
| `RateLimit.SteadyClock` | crates/apohara-mcp/src/rate_limit.rs:3-5 | a clock that does not go back returns to no window |
| `RateLimit.ClockTurnedBack` | crates/apohara-mcp/src/rate_limit.rs:55-58 | a clock that returns to a minute gets a second call past a quota of one |
| `RateLimit.QuotasHoldExactly` | crates/apohara-mcp/src/rate_limit.rs:47-74 | the quotas hold, whatever they are, exactly when the clock returns to no window it has left |

## Left out

- Filesystem, JSON, directories and the clock: kept are the atomic rename, a lock that falls with its
  holder, and a missing file that means empty or unclaimed. Paths and path safety are not modelled.
- The graph file is load-modify-save without a lock (crates/apohara-dispatch/src/task_graph.rs:109-133);
  it has a single writer here, and nothing is claimed about two.
- HasCycle: takes distinct ids, which `AddNode` keeps; a hand-edited graph file with repeated ids is not modelled.
- Process probing and `/proc` parsing: liveness is an arbitrary predicate.
- `derive_areas` and `dedup_preserve`: an arbitrary function from objectives to areas.
- Unicode: slugs treat letters outside ASCII as separators, as the code does; ids compare by code point.
- Token hashing is an arbitrary function to 64-bit words; vote counters and the candidate suffix are
  unbounded where the code has 32-bit counters.
- Floating-point rounding, and the exponential that weights the arrival average.
- Welford.Update: the 64-bit sample counter does not wrap.
- Instants before which a hold would overflow the platform clock.
- `compute_retry_delay`: one expression, used by no other modelled function.
- `little_law_in_system` and `items_in_system`: one product.
- FitsExactly: a record in the retry state, which no modelled operation writes, matches nothing in the double.
- `enqueue_claimed_with_age`: a constructor for the double's own tests.
- Around this core the repository embeds texts and caches prompts, rewords events for people, installs hooks
  into agents, shows a desktop, and merges several agents' answers; none of that is modelled.
- The graph is written by its single writer only: a tick reads one version of it
  (crates/apohara-dispatch/src/task_graph.rs:163), and what happens to the graph after that is not part of
  `DispatchOutcome`.
