/** The coordinator's tick (crates/apohara-coordinator/src/coordinator.rs) over either store. */
module Coordination {
  import opened Options
  import opened RunStates
  import opened Sorting
  import opened Claims
  import opened Cycles
  import opened TaskGraphs
  import opened Reaper
  import opened Stores

  const U64_MAX: nat := 0xFFFF_FFFF_FFFF_FFFF

  type U64 = x: nat | x <= U64_MAX

  datatype TickOutcome =
    | NoOp
    | Dispatched(taskIds: seq<string>, reuseContext: bool, assignedAgent: Option<string>)
    | StallDetected(stalled: seq<string>)
    | BlockedByCareful(pending: seq<string>)

  /** Agents and the task each is busy with; None while idle. */
  type Agents = map<string, Option<string>>

  // ---- the roster --------------------------------------------------------------------------------

  ghost function IdleAgents(agents: Agents): set<string> {
    set a | a in agents && agents[a].None?
  }

  ghost predicate AnyBusy(agents: Agents) {
    exists a :: a in agents && agents[a].Some?
  }

  /** The idle agent first in order, if there is one. */
  ghost function FirstIdle(agents: Agents): Option<string> {
    InOrderSpec(IdleAgents(agents));
    if IdleAgents(agents) == {} then None else Some(InOrder(IdleAgents(agents))[0])
  }

  /** An idle teammate is called in only while someone is busy. */
  ghost function Helper(agents: Agents): Option<string> {
    if AnyBusy(agents) then FirstIdle(agents) else None
  }

  lemma HelperIsFirstIdle(agents: Agents, other: string)
    requires AnyBusy(agents) && other in agents && agents[other].None?
    ensures Helper(agents).Some? && Helper(agents).value in agents && agents[Helper(agents).value].None?
    ensures Below(Helper(agents).value, other)
  {
    var idle := InOrder(IdleAgents(agents));
    InOrderSpec(IdleAgents(agents));
    assert other in IdleAgents(agents) && other in Members(idle);
    assert idle[0] in Members(idle);
    BelowTotal(idle[0], idle[0]);
  }

  /** Nobody is called in while nobody is busy, nor when nobody is idle. */
  lemma HelperIsNeeded(agents: Agents)
    ensures Helper(agents).Some? <==> AnyBusy(agents) && exists a :: a in agents && agents[a].None?
  {
    if a :| a in agents && agents[a].None? {
      assert a in IdleAgents(agents);
    }
  }

  class TeammateRoster {
    var agents: Agents

    constructor ()
      ensures agents == map[]
    {
      agents := map[];
    }

    /** Registering again keeps a busy agent busy. */
    method Register(id: string)
      modifies this
      ensures agents == if id in old(agents) then old(agents) else old(agents)[id := None]
    {
      if id !in agents {
        agents := agents[id := None];
      }
    }

    method MarkBusy(id: string, taskId: string)
      modifies this
      ensures agents == if id in old(agents) && old(agents)[id].None? then old(agents)[id := Some(taskId)]
          else old(agents)
    {
      if id in agents && agents[id].None? {
        agents := agents[id := Some(taskId)];
      }
    }

    method PickIdle() returns (agent: Option<string>)
      ensures agent == FirstIdle(agents)
    {
      var idle: seq<string> := [];
      var names := agents.Keys;
      while names != {}
        invariant names <= agents.Keys && NoDuplicates(idle)
        invariant forall a :: a in idle <==> a in agents && a !in names && agents[a].None?
      {
        var a :| a in names;
        names := names - {a};
        if agents[a].None? {
          idle := idle + [a];
        }
      }
      SortingLists(idle, IdleAgents(agents));
      InOrderSpec(IdleAgents(agents));
      var sorted := SortIds(idle);
      return if sorted == [] then None else Some(sorted[0]);
    }

    method Helping() returns (agent: Option<string>)
      ensures agent == Helper(agents)
    {
      agent := None;
      if exists a :: a in agents && agents[a].Some? {
        agent := PickIdle();
      }
    }
  }

  // ---- either store ----------------------------------------------------------------------------------

  datatype SchedulerStore = InMemory(mem: InMemoryStore) | OnDisk(disk: DispatchSchedulerStore)

  /** What a store holds, as a value. */
  datatype StoreState =
    | MemState(tasks: Tasks)
    | LiveState(file: GraphFile, files: map<string, ClaimFile>, isAlive: Probe)

  function Footprint(store: SchedulerStore): set<object> {
    match store
    case InMemory(m) => {m}
    case OnDisk(d) => {d.graph, d.claims}
  }

  ghost predicate ValidStore(store: SchedulerStore)
    reads Footprint(store)
  {
    store.OnDisk? ==> store.disk.Valid()
  }

  ghost function StateOf(store: SchedulerStore): StoreState
    reads Footprint(store)
  {
    match store
    case InMemory(m) => MemState(m.tasks)
    case OnDisk(d) => LiveState(d.graph.file, d.claims.files, d.isAlive)
  }

  /** The ids that may be dispatched; None when the store cannot say. */
  ghost function ReadySet(s: StoreState): Option<set<string>> {
    match s
    case MemState(tasks) => Some(MemReady(tasks))
    case LiveState(file, files, _) => LiveReady(file, files)
  }

  /** The ids a sweep would free; None when it fails. */
  ghost function StaleSet(s: StoreState, now: I64, ttl: I64): Option<set<string>> {
    match s
    case MemState(tasks) => Some(MemStale(tasks, now, ttl))
    case LiveState(_, files, isAlive) => LiveStale(files, now, ttl, isAlive)
  }

  ghost function SweptState(s: StoreState, now: I64, ttl: I64): StoreState {
    match s
    case MemState(tasks) => MemState(MemSwept(tasks, now, ttl))
    case LiveState(file, files, isAlive) => LiveState(file, LiveSwept(files, now, ttl, isAlive), isAlive)
  }

  // ---- the tick ------------------------------------------------------------------------------------

  function Clamped(x: U64): I64 {
    if x < I64_MAX then x else I64_MAX
  }

  /** Everything but the store that a tick looks at. */
  datatype Settings = Settings(stallTimeoutMs: U64, careful: bool, continuations: set<string>, agents: Agents)

  /** A failing store counts as an empty answer. */
  ghost function Known(ids: Option<set<string>>): set<string> {
    if ids.Some? then ids.value else {}
  }

  ghost function StalledNow(s: StoreState, settings: Settings, now: U64): set<string> {
    Known(StaleSet(s, Clamped(now), Clamped(settings.stallTimeoutMs)))
  }

  ghost function DispatchOf(ready: set<string>, settings: Settings): TickOutcome {
    if ready == {} then NoOp
    else Dispatched(InOrder(ready), ready * settings.continuations != {}, Helper(settings.agents))
  }

  ghost function Outcome(s: StoreState, settings: Settings, now: U64): TickOutcome {
    if settings.careful then BlockedByCareful(InOrder(Known(ReadySet(s))))
    else if StalledNow(s, settings, now) != {} then StallDetected(InOrder(StalledNow(s, settings, now)))
    else DispatchOf(Known(ReadySet(s)), settings)
  }

  ghost function AfterTick(s: StoreState, settings: Settings, now: U64): StoreState {
    if settings.careful then s else SweptState(s, Clamped(now), Clamped(settings.stallTimeoutMs))
  }

  lemma NothingStale(s: StoreState, now: I64, ttl: I64)
    requires Known(StaleSet(s, now, ttl)) == {}
    ensures SweptState(s, now, ttl) == s
  {
    match s
    case MemState(tasks) =>
      forall id | id in tasks ensures !MemIsStale(tasks, id, now, ttl) {
        assert id !in MemStale(tasks, now, ttl);
      }
    case LiveState(file, files, isAlive) =>
      if !SomeUnreadable(files) {
        forall k | k in files ensures !StaleFile(files, k, now, ttl, isAlive) {
          assert k !in Known(StaleSet(s, now, ttl));
        }
      }
  }

  lemma EmptyListing(ids: set<string>)
    ensures InOrder(ids) == [] <==> ids == {}
  {
    InOrderSpec(ids);
  }

  /** Some of the ids carry the flag. */
  predicate AnyFlagged(ids: seq<string>, flagged: set<string>) {
    exists id :: id in ids && id in flagged
  }

  lemma ListingMeets(ids: set<string>, flagged: set<string>)
    ensures AnyFlagged(InOrder(ids), flagged) <==> ids * flagged != {}
  {
    InOrderSpec(ids);
    assert forall id :: id in InOrder(ids) <==> id in Members(InOrder(ids));
    if id :| id in InOrder(ids) && id in flagged {
      assert id in ids * flagged;
    }
    if id :| id in ids * flagged {
      assert id in InOrder(ids);
    }
  }

  class Coordinator {
    const store: SchedulerStore
    const roster: TeammateRoster
    var stallTimeoutMs: U64
    var carefulMode: bool
    var continuationTasks: set<string>

    ghost predicate Valid()
      reads this, roster, Footprint(store)
    {
      ValidStore(store)
    }

    ghost function Seen(): Settings
      reads this, roster
    {
      Settings(stallTimeoutMs, carefulMode, continuationTasks, roster.agents)
    }

    constructor (store: SchedulerStore)
      requires ValidStore(store)
      ensures Valid() && this.store == store && fresh(roster)
      ensures Seen() == Settings(300_000, false, {}, map[])
    {
      this.store := store;
      roster := new TeammateRoster();
      stallTimeoutMs, carefulMode, continuationTasks := 300_000, false, {};
    }

    method SetStallTimeoutMs(ms: U64)
      modifies this
      ensures Seen() == old(Seen()).(stallTimeoutMs := ms)
    {
      stallTimeoutMs := ms;
    }

    method SetCarefulMode(on: bool)
      modifies this
      ensures Seen() == old(Seen()).(careful := on)
    {
      carefulMode := on;
    }

    method MarkContinuation(taskId: string)
      modifies this
      ensures Seen() == old(Seen()).(continuations := old(continuationTasks) + {taskId})
    {
      continuationTasks := continuationTasks + {taskId};
    }

    /** A store that fails is logged and read as having nothing. */
    method ReadyOrLog() returns (ids: seq<string>)
      requires Valid()
      ensures StateOf(store) == old(StateOf(store)) && Seen() == old(Seen())
      ensures ids == InOrder(Known(ReadySet(old(StateOf(store)))))
    {
      match store {
        case InMemory(m) =>
          ids := m.ReadyTasks();
        case OnDisk(d) =>
          var ready := d.ReadyTasks();
          InOrderSpec({});
          ids := if ready.Some? then ready.value else [];
      }
    }

    method ReapOrLog(now: I64, ttl: I64) returns (reaped: seq<string>)
      requires Valid()
      modifies Footprint(store)
      ensures Valid() && Seen() == old(Seen())
      ensures reaped == InOrder(Known(StaleSet(old(StateOf(store)), now, ttl)))
      ensures StateOf(store) == SweptState(old(StateOf(store)), now, ttl)
    {
      match store {
        case InMemory(m) =>
          reaped := m.ReapStale(now, ttl);
        case OnDisk(d) =>
          var freed := d.ReapStale(now, ttl);
          InOrderSpec({});
          reaped := if freed.Some? then freed.value else [];
      }
    }

    method Tick(now: U64) returns (outcome: TickOutcome)
      requires Valid()
      modifies Footprint(store)
      ensures Valid() && Seen() == old(Seen())
      ensures outcome == Outcome(old(StateOf(store)), Seen(), now)
      ensures StateOf(store) == AfterTick(old(StateOf(store)), Seen(), now)
    {
      if carefulMode {
        var pending := ReadyOrLog();
        outcome := BlockedByCareful(pending);
      } else {
        outcome := ReapThenDispatch(now);
      }
    }

    /** The reaper comes first: a tick that frees anything dispatches nothing. */
    method ReapThenDispatch(now: U64) returns (outcome: TickOutcome)
      requires Valid() && !carefulMode
      modifies Footprint(store)
      ensures Valid() && Seen() == old(Seen())
      ensures outcome == Outcome(old(StateOf(store)), old(Seen()), now)
      ensures StateOf(store) == AfterTick(old(StateOf(store)), old(Seen()), now)
    {
      ghost var before, settings := StateOf(store), Seen();
      EmptyListing(StalledNow(before, settings, now));
      var reaped := ReapOrLog(Clamped(now), Clamped(stallTimeoutMs));
      if reaped != [] {
        outcome := StallDetected(reaped);
      } else {
        NothingStale(before, Clamped(now), Clamped(settings.stallTimeoutMs));
        outcome := DispatchPass();
      }
    }

    method DispatchPass() returns (outcome: TickOutcome)
      requires Valid()
      ensures outcome == DispatchOf(Known(ReadySet(old(StateOf(store)))), old(Seen()))
    {
      ghost var ready := Known(ReadySet(StateOf(store)));
      var pending := ReadyOrLog();
      outcome := Dispatching(pending, ready);
    }

    method Dispatching(pending: seq<string>, ghost ready: set<string>) returns (outcome: TickOutcome)
      requires pending == InOrder(ready)
      ensures outcome == DispatchOf(ready, old(Seen()))
    {
      EmptyListing(ready);
      if pending == [] {
        return NoOp;
      }
      var reuseContext := AnyFlagged(pending, continuationTasks);
      var assignedAgent := roster.Helping();
      outcome := Dispatched(pending, reuseContext, assignedAgent);
      DispatchParts(ready, Seen(), outcome);
    }
  }

  lemma DispatchParts(ready: set<string>, settings: Settings, outcome: TickOutcome)
    requires ready != {} && outcome.Dispatched? && outcome.taskIds == InOrder(ready)
    requires outcome.reuseContext == AnyFlagged(InOrder(ready), settings.continuations)
    requires outcome.assignedAgent == Helper(settings.agents)
    ensures outcome == DispatchOf(ready, settings)
  {
    ListingMeets(ready, settings.continuations);
  }

  // ---- what a tick promises -----------------------------------------------------------------------------

  /** All dependencies done, and the slot open. */
  ghost predicate MayStart(s: StoreState, id: string) {
    match s
    case MemState(tasks) => MemIsReady(tasks, id)
    case LiveState(file, files, _) => IsReadyNode(NodesOf(file), Members(DoneOf(file)), files, id)
  }

  /** The listing of a set: in order, each id once. */
  ghost predicate Lists(ids: seq<string>, id: string, included: bool) {
    SortedBy(Below, ids) && NoDuplicates(ids) && (id in ids <==> included)
  }

  lemma InOrderLists(ids: set<string>, id: string)
    ensures Lists(InOrder(ids), id, id in ids)
  {
    InOrderSpec(ids);
    assert id in InOrder(ids) <==> id in Members(InOrder(ids));
  }

  /** What is known to be ready: nothing, when the store fails. */
  lemma ReadyMayStart(s: StoreState, id: string)
    ensures id in Known(ReadySet(s)) <==> ReadySet(s).Some? && MayStart(s, id)
  {
    if s.LiveState? && MayStart(s, id) {
      var nodes, done := NodesOf(s.file), Members(DoneOf(s.file));
      var k :| 0 <= k < |nodes| && nodes[k].id == id && Unblocked(nodes[k], done) && SlotOpen(s.files, id);
      IdAt(nodes, k);
    }
  }

  /**
   In careful mode a tick changes nothing and dispatches nothing: it names what it would have dispatched.
   Out of careful mode it never holds back.
   */
  lemma CarefulHoldsBack(s: StoreState, settings: Settings, now: U64, id: string)
    ensures Outcome(s, settings, now).BlockedByCareful? <==> settings.careful
    ensures settings.careful ==>
              && AfterTick(s, settings, now) == s
              && Lists(Outcome(s, settings, now).pending, id, ReadySet(s).Some? && MayStart(s, id))
  {
    InOrderLists(Known(ReadySet(s)), id);
    ReadyMayStart(s, id);
  }

  /** When the task's holder was last heard of; None for a task nobody holds. */
  ghost function HeardAt(s: StoreState, id: string): Option<I64> {
    match s
    case MemState(tasks) =>
      if id in tasks && tasks[id].claim.Some? then Some(tasks[id].claim.value.lastSeenMs) else None
    case LiveState(_, files, _) =>
      if id in files && files[id].Saved? && IsActive(files[id].record.state) then Some(LastSeen(files[id].record))
      else None
  }

  ghost predicate HolderGone(s: StoreState, id: string)
    requires HeardAt(s, id).Some?
  {
    match s
    case MemState(tasks) => !tasks[id].claim.value.pidAlive
    case LiveState(_, files, isAlive) => HolderDead(files[id].record, isAlive)
  }

  /** The holder is gone, or has been silent for longer than the configured timeout. */
  ghost predicate Stalled(s: StoreState, id: string, now: U64, timeout: U64) {
    HeardAt(s, id).Some? && (HolderGone(s, id) || now - HeardAt(s, id).value > timeout)
  }

  ghost predicate ReportsStalled(s: StoreState, settings: Settings, now: U64, id: string) {
    Outcome(s, settings, now).StallDetected? && id in Outcome(s, settings, now).stalled
  }

  /**
   Exactly the claims whose holder is gone or that have expired are reported; and while neither clock
   nor holder's time leaves the range the clamps do not touch, exactly the stalled ones.
   */
  lemma StalledAreReported(s: StoreState, settings: Settings, now: U64, id: string)
    requires !settings.careful && StaleSet(s, Clamped(now), Clamped(settings.stallTimeoutMs)).Some?
    ensures ReportsStalled(s, settings, now, id) <==>
              && HeardAt(s, id).Some?
              && (HolderGone(s, id) || Expired(now, settings.stallTimeoutMs, HeardAt(s, id).value))
    ensures (HeardAt(s, id).Some? ==> HeardAt(s, id).value >= 0 && now <= I64_MAX) ==>
              (ReportsStalled(s, settings, now, id) <==> Stalled(s, id, now, settings.stallTimeoutMs))
    ensures Outcome(s, settings, now).StallDetected? ==>
              Lists(Outcome(s, settings, now).stalled, id, ReportsStalled(s, settings, now, id))
  {
    InOrderLists(StalledNow(s, settings, now), id);
    if HeardAt(s, id).Some? && HeardAt(s, id).value >= 0 {
      ClampsAreHarmless(now, settings.stallTimeoutMs, HeardAt(s, id).value);
    }
  }

  /** With nothing stalled a tick dispatches, unless nothing may start. */
  lemma TickDispatches(s: StoreState, settings: Settings, now: U64)
    requires !settings.careful && StalledNow(s, settings, now) == {}
    ensures Outcome(s, settings, now).NoOp? <==> forall id :: !(ReadySet(s).Some? && MayStart(s, id))
    ensures !Outcome(s, settings, now).NoOp? ==> Outcome(s, settings, now).Dispatched?
  {
    var ready := Known(ReadySet(s));
    forall id ensures id in ready <==> ReadySet(s).Some? && MayStart(s, id) {
      ReadyMayStart(s, id);
    }
    if id :| id in ready {
      assert ready != {};
    }
  }

  /** Context is reused exactly when some dispatched task continues an earlier one. */
  lemma ReuseMeansContinuation(s: StoreState, settings: Settings, now: U64)
    requires Outcome(s, settings, now).Dispatched?
    ensures Outcome(s, settings, now).reuseContext
       <==> exists id :: id in Outcome(s, settings, now).taskIds && id in settings.continuations
    ensures Outcome(s, settings, now).assignedAgent == Helper(settings.agents)
  {
    ListingMeets(Known(ReadySet(s)), settings.continuations);
  }

  /** Whatever a tick dispatches may start, nothing that may start is left out, and nothing was reaped. */
  lemma DispatchIsExact(s: StoreState, settings: Settings, now: U64, id: string)
    requires Outcome(s, settings, now).Dispatched?
    ensures Lists(Outcome(s, settings, now).taskIds, id, MayStart(s, id))
    ensures AfterTick(s, settings, now) == s
  {
    InOrderLists(Known(ReadySet(s)), id);
    ReadyMayStart(s, id);
    NothingStale(s, Clamped(now), Clamped(settings.stallTimeoutMs));
  }

  /** A store that answers at all, once swept, has nothing stale left at that instant. */
  lemma SweepSettles(s: StoreState, now: I64, ttl: I64)
    ensures Known(StaleSet(SweptState(s, now, ttl), now, ttl)) == {}
  {
    var after := SweptState(s, now, ttl);
    match s
    case MemState(tasks) =>
      forall id | id in tasks ensures !MemIsStale(after.tasks, id, now, ttl) {
      }
    case LiveState(file, files, isAlive) =>
      if !SomeUnreadable(files) {
        forall k | k in after.files ensures !StaleFile(after.files, k, now, ttl, isAlive) {
          assert !StaleFile(files, k, now, ttl, isAlive) ==> after.files[k] == files[k];
        }
      }
  }

  ghost predicate OpenSlot(s: StoreState, id: string) {
    match s
    case MemState(tasks) => id in tasks ==> tasks[id].claim.None?
    case LiveState(_, files, _) => SlotOpen(files, id)
  }

  /**
   A tick that found stalls frees every slot it names, and the tick after it, at the same instant,
   finds none and dispatches.
   */
  lemma StallThenDispatch(s: StoreState, settings: Settings, now: U64, id: string)
    requires Outcome(s, settings, now).StallDetected?
    ensures id in Outcome(s, settings, now).stalled ==> OpenSlot(AfterTick(s, settings, now), id)
    ensures Outcome(AfterTick(s, settings, now), settings, now)
        == DispatchOf(Known(ReadySet(AfterTick(s, settings, now))), settings)
  {
    SweepSettles(s, Clamped(now), Clamped(settings.stallTimeoutMs));
    InOrderSpec(StalledNow(s, settings, now));
    assert id in InOrder(StalledNow(s, settings, now)) <==> id in Members(InOrder(StalledNow(s, settings, now)));
  }

  /** With an unreadable record on disk, of whatever task, no tick frees anything. */
  lemma UnreadableStopsTick(s: StoreState, settings: Settings, now: U64, id: string)
    requires s.LiveState? && id in s.files && s.files[id].Unreadable?
    ensures AfterTick(s, settings, now) == s && !Outcome(s, settings, now).StallDetected?
  {
    assert SomeUnreadable(s.files);
  }

  /** Given a stale claim on disk, a tick out of careful mode reports stalls exactly if every record is readable. */
  lemma StallsUnlessUnreadable(s: StoreState, settings: Settings, now: U64, id: string)
    requires s.LiveState? && !settings.careful
    requires StaleFile(s.files, id, Clamped(now), Clamped(settings.stallTimeoutMs), s.isAlive)
    ensures Outcome(s, settings, now).StallDetected? <==> !SomeUnreadable(s.files)
  {
    if !SomeUnreadable(s.files) {
      assert id in StalledNow(s, settings, now);
    }
  }

  // ---- the clamps -----------------------------------------------------------------------------------------

  predicate Expired(now: U64, stall: U64, lastSeen: I64) {
    Clamped(now) > SaturatingAdd(lastSeen, Clamped(stall))
  }

  /** Seen at or after the epoch, a live holder counts as stalled only once the whole timeout has really passed. */
  lemma ClampsAreHarmless(now: U64, stall: U64, lastSeen: I64)
    requires lastSeen >= 0
    ensures Expired(now, stall, lastSeen) <==> Clamped(now) - lastSeen > stall
    ensures Expired(now, stall, lastSeen) ==> now - lastSeen > stall
    ensures now <= I64_MAX ==> (Expired(now, stall, lastSeen) <==> now - lastSeen > stall)
  {
  }

  /** Before the epoch the clamped timeout runs out early in one case, and in no other. */
  lemma ClampsExactly(now: U64, stall: U64, lastSeen: I64)
    ensures (Expired(now, stall, lastSeen) <==> Clamped(now) - lastSeen > stall)
       <==> !(stall > I64_MAX && I64_MAX < Clamped(now) - lastSeen <= stall)
  {
  }

  /** A holder last seen a moment before the epoch, under the longest timeout of all, is one input where they show. */
  lemma ClampsShow()
    ensures Expired(I64_MAX, U64_MAX, -1) && !(I64_MAX - -1 > U64_MAX)
  {
  }
}
