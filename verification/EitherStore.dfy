/**
 The in-memory double and the live adapter side by side: from matching stores, exactly which steps
 keep them matching, and that a coordinator then says the same over either.
 */
module EitherStore {
  import opened Options
  import opened RunStates
  import opened LockedStore
  import opened Claims
  import opened ClaimProtocol
  import opened Cycles
  import opened TaskGraphs
  import opened Reaper
  import opened Stores
  import opened Coordination

  // ---- the two stores agree ------------------------------------------------------------------------------

  ghost predicate NodeAgrees(tasks: Tasks, node: TaskNode) {
    node.id in tasks && tasks[node.id].deps == node.deps
  }

  /** The double's claim is what the record says to the scheduler. */
  ghost predicate ClaimAgrees(claim: Option<InMemClaim>, file: Option<ClaimFile>, isAlive: Probe) {
    if file.Some? && file.value.Saved? && IsActive(file.value.record.state)
    then claim == Some(InMemClaim(LastSeen(file.value.record), !HolderDead(file.value.record, isAlive)))
    else claim == None
  }

  /** A readable record in a state the double can express; a live one belongs to a known task. */
  ghost predicate FileAgrees(tasks: Tasks, id: string, file: ClaimFile) {
    file.Saved? && !file.record.state.RetryQueued? && (IsActive(file.record.state) ==> id in tasks)
  }

  /** The same tasks, dependencies and finished tasks. */
  ghost predicate SameGraph(tasks: Tasks, file: GraphFile) {
    && !file.BadGraph? && DistinctNodes(NodesOf(file)) && IdsOf(NodesOf(file)) == tasks.Keys
    && (forall k :: 0 <= k < |NodesOf(file)| ==> NodeAgrees(tasks, NodesOf(file)[k]))
    && (forall id :: id in DoneOf(file) <==> id in tasks && tasks[id].done)
  }

  /** The same claims. */
  ghost predicate SameClaims(tasks: Tasks, files: map<string, ClaimFile>, isAlive: Probe) {
    && (forall id :: id in files ==> FileAgrees(tasks, id, files[id]))
    && (forall id :: id in tasks ==> ClaimAgrees(tasks[id].claim, Look(files, id), isAlive))
  }

  ghost predicate Matches(tasks: Tasks, live: StoreState)
    requires live.LiveState?
  {
    SameGraph(tasks, live.file) && SameClaims(tasks, live.files, live.isAlive)
  }

  lemma NothingUnreadable(tasks: Tasks, live: StoreState)
    requires live.LiveState? && Matches(tasks, live)
    ensures !SomeUnreadable(live.files)
    ensures !SomeReadyUnreadable(NodesOf(live.file), Members(DoneOf(live.file)), live.files)
  {
    forall id | id in live.files ensures live.files[id].Saved? {
      assert FileAgrees(tasks, id, live.files[id]);
    }
  }

  lemma SameReady(tasks: Tasks, live: StoreState)
    requires live.LiveState? && Matches(tasks, live)
    ensures ReadySet(MemState(tasks)) == ReadySet(live)
  {
    NothingUnreadable(tasks, live);
    var nodes, done := NodesOf(live.file), Members(DoneOf(live.file));
    forall id | id in tasks ensures MemIsReady(tasks, id) <==> IsReadyNode(nodes, done, live.files, id) {
      var k := NodeOf(nodes, id);
      assert NodeAgrees(tasks, nodes[k]);
      SameSlot(tasks, live, id);
      if MemIsReady(tasks, id) {
        assert Unblocked(nodes[k], done);
      }
      if j :| 0 <= j < |nodes| && nodes[j].id == id && Unblocked(nodes[j], done) && SlotOpen(live.files, id) {
        assert j == k;
      }
    }
    assert MemReady(tasks) == set id | id in IdsOf(nodes) && IsReadyNode(nodes, done, live.files, id);
  }

  lemma SameSlot(tasks: Tasks, live: StoreState, id: string)
    requires live.LiveState? && Matches(tasks, live) && id in tasks
    ensures SlotOpen(live.files, id) <==> tasks[id].claim.None?
  {
    assert ClaimAgrees(tasks[id].claim, Look(live.files, id), live.isAlive);
    if id in live.files {
      assert FileAgrees(tasks, id, live.files[id]);
    }
  }

  lemma SameStale(tasks: Tasks, live: StoreState, now: I64, ttl: I64)
    requires live.LiveState? && Matches(tasks, live)
    ensures StaleSet(MemState(tasks), now, ttl) == StaleSet(live, now, ttl)
    ensures forall id :: MemIsStale(tasks, id, now, ttl) <==> StaleFile(live.files, id, now, ttl, live.isAlive)
  {
    NothingUnreadable(tasks, live);
    forall id ensures MemIsStale(tasks, id, now, ttl) <==> StaleFile(live.files, id, now, ttl, live.isAlive) {
      if id in tasks {
        assert ClaimAgrees(tasks[id].claim, Look(live.files, id), live.isAlive);
      }
      if id in live.files {
        assert FileAgrees(tasks, id, live.files[id]);
      }
    }
    assert MemStale(tasks, now, ttl) == set k | k in live.files && StaleFile(live.files, k, now, ttl, live.isAlive);
  }

  lemma SweepMatches(tasks: Tasks, live: StoreState, now: I64, ttl: I64)
    requires live.LiveState? && Matches(tasks, live)
    ensures Matches(MemSwept(tasks, now, ttl), SweptState(live, now, ttl))
  {
    NothingUnreadable(tasks, live);
    SameStale(tasks, live, now, ttl);
    var tasks', live' := MemSwept(tasks, now, ttl), SweptState(live, now, ttl);
    forall k | 0 <= k < |NodesOf(live.file)| ensures NodeAgrees(tasks', NodesOf(live.file)[k]) {
      assert NodeAgrees(tasks, NodesOf(live.file)[k]);
    }
    forall id | id in live'.files ensures FileAgrees(tasks', id, live'.files[id]) {
      assert FileAgrees(tasks, id, live.files[id]);
    }
    forall id | id in tasks' ensures ClaimAgrees(tasks'[id].claim, Look(live'.files, id), live.isAlive) {
      assert ClaimAgrees(tasks[id].claim, Look(live.files, id), live.isAlive);
    }
  }

  // ---- steps ------------------------------------------------------------------------------------------------

  /** What can happen between and during ticks; every tick may find other settings, and processes may end. */
  datatype Op =
    | Ticked(settings: Settings, now: U64)
    | Enqueued(node: TaskNode)
    | MarkedDone(id: string)
    | ClaimedBy(id: string, minted: string, at: I64)
    | Renewed(id: string, token: string, pid: nat, at: I64, pidStartTime: Option<nat>)
    | Reported(id: string, token: string)
    | SetFree(id: string)                    // released whatever it held
    | LivenessBecomes(isAlive: Probe)

  ghost function ClaimStep(files: map<string, ClaimFile>, id: string, op: ClaimOp, env: Env): map<string, ClaimFile> {
    match Decide(id, op, env, Look(files, id))
    case Reply(_) => files
    case Commit(file, _) => Put(files, id, file)
  }

  ghost function MemStep(tasks: Tasks, op: Op): Tasks {
    match op
    case Ticked(settings, now) => AfterTick(MemState(tasks), settings, now).tasks
    case Enqueued(node) => tasks[node.id := InMemTask(node.deps, false, None)]
    case MarkedDone(id) => if id in tasks then tasks[id := tasks[id].(done := true)] else tasks
    case ClaimedBy(id, _, at) => if id in tasks then tasks[id := tasks[id].(claim := Fresh(at))] else tasks
    case Renewed(id, _, _, at, _) => if id in tasks then tasks[id := tasks[id].(claim := Fresh(at))] else tasks
    case Reported(_, _) => tasks
    case SetFree(_) => tasks
    case LivenessBecomes(_) => tasks
  }

  ghost function LiveStep(live: StoreState, op: Op): (live': StoreState)
    requires live.LiveState?
    ensures live'.LiveState?
  {
    match op
    case Ticked(settings, now) => AfterTick(live, settings, now)
    case Enqueued(node) =>
      if live.file.BadGraph? || !Acyclic(Placed(NodesOf(live.file), node)) then live
      else live.(file := Graph(Placed(NodesOf(live.file), node), DoneOf(live.file)))
    case MarkedDone(id) =>
      if live.file.BadGraph? then live
      else live.(file := Graph(NodesOf(live.file), if id in DoneOf(live.file) then DoneOf(live.file)
          else DoneOf(live.file) + [id]))
    case ClaimedBy(id, minted, at) =>
      live.(files := ClaimStep(live.files, id, ClaimOp.TryClaim, Env(minted, at, live.isAlive)))
    case Renewed(id, token, pid, at, start) =>
      live.(files := ClaimStep(live.files, id, Beat(token, pid, at, start), Env("", at, live.isAlive)))
    case Reported(id, token) =>
      live.(files := ClaimStep(live.files, id, Report(token), Env("", 0, live.isAlive)))
    case SetFree(id) => live.(files := ClaimStep(live.files, id, Release, Env("", 0, live.isAlive)))
    case LivenessBecomes(isAlive) => live.(isAlive := isAlive)
  }

  /** The double's own methods take these steps; it has none for the end of a claim, nor for the end of a process. */
  method PerformInMemory(store: InMemoryStore, op: Op)
    requires !op.Ticked?
    modifies store
    ensures store.tasks == MemStep(old(store.tasks), op)
  {
    match op {
      case Enqueued(node) => store.EnqueueWithDeps(node.id, node.deps);
      case MarkedDone(id) => store.MarkDone(id);
      case ClaimedBy(id, _, at) => store.ClaimFresh(id, at);
      case Renewed(id, _, _, at, _) => store.ClaimFresh(id, at);
      case _ =>
    }
  }

  /** And so do the graph's and the claim store's; `next` sees the same files with the processes then alive. */
  method PerformOnDisk(store: DispatchSchedulerStore, op: Op) returns (next: DispatchSchedulerStore)
    requires store.Valid() && !op.Ticked?
    modifies store.graph, store.claims
    ensures next.graph == store.graph && next.claims == store.claims && next.Valid()
    ensures StateOf(OnDisk(next)) == LiveStep(old(StateOf(OnDisk(store))), op)
  {
    next := store;
    match op {
      case Enqueued(node) => var stored := store.graph.AddNode(node);
      case MarkedDone(id) => var stored := store.graph.MarkDone(id);
      case ClaimedBy(id, minted, at) => var answer := store.claims.TryClaim(id, minted, at);
      case Renewed(id, token, pid, at, start) => var answer := store.claims.Heartbeat(id, token, pid, at, start);
      case Reported(id, token) => var answer := store.claims.ReportResult(id, token);
      case SetFree(id) => var answer := store.claims.Release(id);
      case LivenessBecomes(isAlive) => next := new DispatchSchedulerStore(store.graph, store.claims, isAlive);
    }
  }

  // ---- which steps keep the stores matching -------------------------------------------------------------------

  ghost predicate IsLive(files: map<string, ClaimFile>, id: string) {
    id in files && files[id].Saved? && IsActive(files[id].record.state)
  }

  /** The task's claim, if it has one, already looks freshly made at that time. */
  ghost predicate LooksFresh(tasks: Tasks, id: string, at: I64)
    requires id in tasks
  {
    tasks[id].claim == Fresh(at)
  }

  /** A beat of the holder, from a live process and not back in time. */
  ghost predicate HolderBeats(live: StoreState, id: string, pid: nat, at: I64, start: Option<nat>)
    requires live.LiveState?
  {
    && IsLive(live.files, id) && live.isAlive(pid, start)
    && (live.files[id].record.claimedAtMs.Some? ==> live.files[id].record.claimedAtMs.value <= at)
  }

  /** The process that last beat for each live claim is alive as before. */
  ghost predicate HoldersAsBefore(live: StoreState, isAlive: Probe)
    requires live.LiveState?
  {
    forall id :: IsLive(live.files, id) ==>
      (HolderDead(live.files[id].record, isAlive) <==> HolderDead(live.files[id].record, live.isAlive))
  }

  /**
   The step means the same to both stores: nothing cyclic is added, and nothing added again that is
   done or claimed; only known tasks are finished or claimed, a claim or a beat that the files
   refuse would have changed nothing, and no live claim ends but by a sweep.
   */
  ghost predicate Fits(tasks: Tasks, live: StoreState, op: Op)
    requires live.LiveState?
  {
    match op
    case Ticked(_, _) => true
    case Enqueued(node) =>
      && Acyclic(Placed(NodesOf(live.file), node))
      && (node.id in tasks ==> !tasks[node.id].done && tasks[node.id].claim.None?)
    case MarkedDone(id) => id in tasks
    case ClaimedBy(id, _, at) => id in tasks && (tasks[id].claim.None? || LooksFresh(tasks, id, at))
    case Renewed(id, token, pid, at, start) =>
      id in tasks ==>
        if HeldToken(live.files, id) == Some(token) then HolderBeats(live, id, pid, at, start)
        else LooksFresh(tasks, id, at)
    case Reported(id, token) => HeldToken(live.files, id) == Some(token) ==> !IsLive(live.files, id)
    case SetFree(id) => !IsLive(live.files, id)
    case LivenessBecomes(isAlive) => HoldersAsBefore(live, isAlive)
  }

  lemma TickMatches(tasks: Tasks, live: StoreState, settings: Settings, now: U64)
    requires live.LiveState? && Matches(tasks, live)
    ensures Outcome(MemState(tasks), settings, now) == Outcome(live, settings, now)
    ensures Matches(AfterTick(MemState(tasks), settings, now).tasks, AfterTick(live, settings, now))
  {
    SameReady(tasks, live);
    SameStale(tasks, live, Clamped(now), Clamped(settings.stallTimeoutMs));
    SweepMatches(tasks, live, Clamped(now), Clamped(settings.stallTimeoutMs));
  }

  // ---- adding a node

  lemma IdsOfMembers(nodes: seq<TaskNode>, id: string)
    ensures id in IdsOf(nodes) <==> exists n :: n in nodes && n.id == id
  {
    if id in IdsOf(nodes) {
      var k := NodeOf(nodes, id);
      assert nodes[k] in nodes;
    }
    if n :| n in nodes && n.id == id {
      var k :| 0 <= k < |nodes| && nodes[k] == n;
      IdAt(nodes, k);
    }
  }

  lemma PlacedIds(nodes: seq<TaskNode>, node: TaskNode)
    requires DistinctNodes(nodes)
    ensures IdsOf(Placed(nodes, node)) == IdsOf(nodes) + {node.id}
  {
    PlacedKeepsDistinct(nodes, node);
    forall id ensures id in IdsOf(Placed(nodes, node)) <==> id in IdsOf(nodes) + {node.id} {
      IdsOfMembers(nodes, id);
      IdsOfMembers(Placed(nodes, node), id);
      if id == node.id {
        assert node in Placed(nodes, node);
      } else if n :| n in nodes && n.id == id {
        assert n in Placed(nodes, node);
      }
    }
  }

  /** The new node goes in on both sides alike: every node of the graph agrees with its task. */
  lemma PlacedAgrees(tasks: Tasks, nodes: seq<TaskNode>, node: TaskNode)
    requires DistinctNodes(nodes) && forall k :: 0 <= k < |nodes| ==> NodeAgrees(tasks, nodes[k])
    ensures var placed := Placed(nodes, node);
            && DistinctNodes(placed)
            && forall k :: 0 <= k < |placed| ==>
                 NodeAgrees(tasks[node.id := InMemTask(node.deps, false, None)], placed[k])
  {
    PlacedKeepsDistinct(nodes, node);
    var placed := Placed(nodes, node);
    forall k | 0 <= k < |placed| ensures NodeAgrees(tasks[node.id := InMemTask(node.deps, false, None)], placed[k]) {
      assert placed[k] in placed;
      if placed[k] != node {
        var j :| 0 <= j < |nodes| && nodes[j] == placed[k];
        assert NodeAgrees(tasks, nodes[j]);
      }
    }
  }

  /** A task that was not done, put in again, leaves the done ids as they are. */
  lemma DoneUntouched(tasks: Tasks, done: seq<string>, id: string, deps: seq<string>)
    requires forall x :: x in done <==> x in tasks && tasks[x].done
    requires id in tasks ==> !tasks[id].done
    ensures var tasks' := tasks[id := InMemTask(deps, false, None)];
            tasks'.Keys == tasks.Keys + {id} && forall x :: x in done <==> x in tasks' && tasks'[x].done
  {
  }

  lemma PlacedGraphMatches(tasks: Tasks, file: GraphFile, node: TaskNode)
    requires SameGraph(tasks, file) && (node.id in tasks ==> !tasks[node.id].done)
    ensures SameGraph(tasks[node.id := InMemTask(node.deps, false, None)],
                      Graph(Placed(NodesOf(file), node), DoneOf(file)))
  {
    PlacedIds(NodesOf(file), node);
    DoneUntouched(tasks, DoneOf(file), node.id, node.deps);
    PlacedAgrees(tasks, NodesOf(file), node);
  }

  /** A new task without a claim, or a change to a task's other fields, leaves the claims agreeing. */
  lemma ClaimsUntouched(tasks: Tasks, files: map<string, ClaimFile>, isAlive: Probe, id: string, task: InMemTask)
    requires SameClaims(tasks, files, isAlive)
    requires task.claim == if id in tasks then tasks[id].claim else None
    ensures SameClaims(tasks[id := task], files, isAlive)
  {
    var tasks' := tasks[id := task];
    forall x | x in files ensures FileAgrees(tasks', x, files[x]) {
      assert FileAgrees(tasks, x, files[x]);
    }
    forall x | x in tasks' ensures ClaimAgrees(tasks'[x].claim, Look(files, x), isAlive) {
      if x in tasks {
        assert ClaimAgrees(tasks[x].claim, Look(files, x), isAlive);
      } else if x in files {
        assert FileAgrees(tasks, x, files[x]);
      }
    }
  }

  /** Dependencies alone decide whether there is a cycle. */
  lemma SameDepsAcyclic(nodes: seq<TaskNode>, k: nat, node: TaskNode)
    requires Acyclic(nodes) && k < |nodes| && nodes[k].id == node.id && nodes[k].deps == node.deps
    ensures Acyclic(nodes[k := node])
  {
    var order :| IsOrder(nodes, order);
    var nodes' := nodes[k := node];
    forall id ensures id in IdsOf(nodes') <==> id in IdsOf(nodes) {
      SameIds(nodes, nodes', id);
      SameIds(nodes', nodes, id);
    }
    assert IdsOf(nodes') == IdsOf(nodes);
    forall i | 0 <= i < |order| ensures Needs(nodes', order[i]) <= Members(order[..i]) {
      assert Needs(nodes', order[i]) <= Needs(nodes, order[i]) by {
        forall d | d in Needs(nodes', order[i]) ensures d in Needs(nodes, order[i]) {
          assert NeedsId(nodes', order[i], d);
          var j :| 0 <= j < |nodes'| && nodes'[j].id == order[i] && d in nodes'[j].deps;
          assert nodes[j].id == order[i] && d in nodes[j].deps;
          assert NeedsId(nodes, order[i], d);
        }
      }
    }
    assert IsOrder(nodes', order);
  }

  lemma SameIds(a: seq<TaskNode>, b: seq<TaskNode>, id: string)
    requires |a| == |b| && forall j :: 0 <= j < |a| ==> a[j].id == b[j].id
    ensures id in IdsOf(a) ==> id in IdsOf(b)
  {
    if id in IdsOf(a) {
      var j := NodeOf(a, id);
      IdAt(b, j);
    }
  }

  /** A node the graph refuses has other dependencies than the one it has under that id, if any. */
  lemma RefusedDiffers(nodes: seq<TaskNode>, node: TaskNode, k: nat)
    requires DistinctNodes(nodes) && Acyclic(nodes) && !Acyclic(Placed(nodes, node))
    requires k < |nodes| && nodes[k].id == node.id
    ensures nodes[k].deps != node.deps
  {
    PlacedAt(nodes, node, k);
    if nodes[k].deps == node.deps {
      SameDepsAcyclic(nodes, k, node);
    }
  }

  lemma EnqueueFits(tasks: Tasks, live: StoreState, node: TaskNode)
    requires live.LiveState? && Matches(tasks, live) && Acyclic(NodesOf(live.file))
    ensures Matches(MemStep(tasks, Enqueued(node)), LiveStep(live, Enqueued(node)))
       <==> Fits(tasks, live, Enqueued(node))
  {
    if Fits(tasks, live, Enqueued(node)) {
      PlacedGraphMatches(tasks, live.file, node);
      ClaimsUntouched(tasks, live.files, live.isAlive, node.id, InMemTask(node.deps, false, None));
    } else if Matches(MemStep(tasks, Enqueued(node)), LiveStep(live, Enqueued(node))) {
      EnqueueParts(tasks, live, node);
    }
  }

  /** A step that does not fit parts the stores. */
  lemma EnqueueParts(tasks: Tasks, live: StoreState, node: TaskNode)
    requires live.LiveState? && Matches(tasks, live) && Acyclic(NodesOf(live.file))
    requires Matches(MemStep(tasks, Enqueued(node)), LiveStep(live, Enqueued(node)))
    ensures Fits(tasks, live, Enqueued(node))
  {
    var nodes, tasks' := NodesOf(live.file), MemStep(tasks, Enqueued(node));
    assert node.id in tasks' && tasks'[node.id] == InMemTask(node.deps, false, None);
    if !Acyclic(Placed(nodes, node)) {
      assert node.id in IdsOf(nodes);
      var k := NodeOf(nodes, node.id);
      assert NodeAgrees(tasks', nodes[k]);
      RefusedDiffers(nodes, node, k);
    } else if node.id in tasks {
      assert ClaimAgrees(tasks[node.id].claim, Look(live.files, node.id), live.isAlive);
      assert ClaimAgrees(tasks'[node.id].claim, Look(live.files, node.id), live.isAlive);
    }
  }

  // ---- finishing a task

  lemma FinishFits(tasks: Tasks, live: StoreState, id: string)
    requires live.LiveState? && Matches(tasks, live)
    ensures Matches(MemStep(tasks, MarkedDone(id)), LiveStep(live, MarkedDone(id)))
       <==> Fits(tasks, live, MarkedDone(id))
  {
    var tasks', live' := MemStep(tasks, MarkedDone(id)), LiveStep(live, MarkedDone(id));
    if id in tasks {
      assert tasks'.Keys == tasks.Keys;
      forall k | 0 <= k < |NodesOf(live.file)| ensures NodeAgrees(tasks', NodesOf(live.file)[k]) {
        assert NodeAgrees(tasks, NodesOf(live.file)[k]);
      }
      ClaimsUntouched(tasks, live.files, live.isAlive, id, tasks[id].(done := true));
    } else {
      assert id in DoneOf(live'.file) && id !in tasks';
    }
  }

  // ---- claims and beats

  /** A step that changes one task's claim, and that task's record accordingly. */
  lemma OneClaimMatches(tasks: Tasks, live: StoreState, id: string, claim: InMemClaim, record: ClaimRecord)
    requires live.LiveState? && Matches(tasks, live) && id in tasks
    requires IsActive(record.state) && claim == InMemClaim(LastSeen(record), !HolderDead(record, live.isAlive))
    ensures Matches(tasks[id := tasks[id].(claim := Some(claim))], live.(files := live.files[id := Saved(record)]))
  {
    var tasks', live' := tasks[id := tasks[id].(claim := Some(claim))], live.(files := live.files[id := Saved(record)]);
    assert tasks'.Keys == tasks.Keys;
    forall k | 0 <= k < |NodesOf(live.file)| ensures NodeAgrees(tasks', NodesOf(live.file)[k]) {
      assert NodeAgrees(tasks, NodesOf(live.file)[k]);
    }
    forall x | x in live'.files ensures FileAgrees(tasks', x, live'.files[x]) {
      if x != id {
        assert FileAgrees(tasks, x, live.files[x]);
      }
    }
    forall x | x in tasks' ensures ClaimAgrees(tasks'[x].claim, Look(live'.files, x), live.isAlive) {
      if x != id {
        assert ClaimAgrees(tasks[x].claim, Look(live.files, x), live.isAlive);
      }
    }
  }

  /** A record that carries no live claim may change to another that carries none. */
  lemma IdleFileMatches(tasks: Tasks, live: StoreState, id: string, record: ClaimRecord)
    requires live.LiveState? && Matches(tasks, live) && !IsLive(live.files, id)
    requires !IsActive(record.state) && !record.state.RetryQueued?
    ensures Matches(tasks, live.(files := live.files[id := Saved(record)]))
  {
    var live' := live.(files := live.files[id := Saved(record)]);
    forall x | x in live'.files ensures FileAgrees(tasks, x, live'.files[x]) {
      if x != id {
        assert FileAgrees(tasks, x, live.files[x]);
      }
    }
    forall x | x in tasks ensures ClaimAgrees(tasks[x].claim, Look(live'.files, x), live.isAlive) {
      assert ClaimAgrees(tasks[x].claim, Look(live.files, x), live.isAlive);
    }
  }

  lemma ClaimFits(tasks: Tasks, live: StoreState, op: Op)
    requires live.LiveState? && Matches(tasks, live) && op.ClaimedBy?
    ensures Matches(MemStep(tasks, op), LiveStep(live, op)) <==> Fits(tasks, live, op)
  {
    var id, file := op.id, Look(live.files, op.id);
    if file.Some? {
      assert FileAgrees(tasks, id, file.value);
    }
    var record := ClaimRecord(id, Claimed, Some(op.minted), Some(op.at), None);
    if id in tasks {
      assert ClaimAgrees(tasks[id].claim, file, live.isAlive);
      if tasks[id].claim.None? {
        OneClaimMatches(tasks, live, id, InMemClaim(op.at, true), record);
      } else {
        RefusedFits(tasks, live, id, op.at);
      }
    } else {
      assert LiveStep(live, op).files == live.files[id := Saved(record)];
      assert !FileAgrees(tasks, id, LiveStep(live, op).files[id]);
    }
  }

  /** Where the files do not change, the double's fresh claim must be the one it has. */
  lemma RefusedFits(tasks: Tasks, live: StoreState, id: string, at: I64)
    requires live.LiveState? && Matches(tasks, live) && id in tasks
    ensures Matches(tasks[id := tasks[id].(claim := Fresh(at))], live) <==> LooksFresh(tasks, id, at)
  {
    var tasks' := tasks[id := tasks[id].(claim := Fresh(at))];
    assert ClaimAgrees(tasks[id].claim, Look(live.files, id), live.isAlive);
    if LooksFresh(tasks, id, at) {
      assert tasks' == tasks;
    } else {
      assert !ClaimAgrees(tasks'[id].claim, Look(live.files, id), live.isAlive);
    }
  }

  lemma BeatFits(tasks: Tasks, live: StoreState, op: Op)
    requires live.LiveState? && Matches(tasks, live) && op.Renewed?
    ensures Matches(MemStep(tasks, op), LiveStep(live, op)) <==> Fits(tasks, live, op)
  {
    var id, file := op.id, Look(live.files, op.id);
    if file.Some? {
      assert FileAgrees(tasks, id, file.value);
    }
    if HeldToken(live.files, id) == Some(op.token) {
      HolderBeatFits(tasks, live, op);
    } else {
      assert LiveStep(live, op) == live;
      if id in tasks {
        RefusedFits(tasks, live, id, op.at);
      }
    }
  }

  lemma HolderBeatFits(tasks: Tasks, live: StoreState, op: Op)
    requires live.LiveState? && Matches(tasks, live) && op.Renewed?
    requires HeldToken(live.files, op.id) == Some(op.token)
    ensures Matches(MemStep(tasks, op), LiveStep(live, op)) <==> Fits(tasks, live, op)
  {
    var id := op.id;
    assert FileAgrees(tasks, id, live.files[id]);
    var record := Beaten(live.files[id].record, op.pid, op.at, op.pidStartTime);
    assert LiveStep(live, op) == live.(files := live.files[id := Saved(record)]);
    if id !in tasks {
      IdleFileMatches(tasks, live, id, record);
    } else if HolderBeats(live, id, op.pid, op.at, op.pidStartTime) {
      OneClaimMatches(tasks, live, id, InMemClaim(op.at, true), record);
    } else {
      assert !ClaimAgrees(Fresh(op.at), Some(Saved(record)), live.isAlive);
      assert MemStep(tasks, op)[id].claim == Fresh(op.at) && Look(LiveStep(live, op).files, id) == Some(Saved(record));
    }
  }

  // ---- the end of a claim, and of a process

  /** A freed slot matches only where no live claim was. */
  lemma FreeingFits(tasks: Tasks, live: StoreState, id: string)
    requires live.LiveState? && Matches(tasks, live)
    ensures Matches(tasks, live.(files := live.files[id := Saved(FreedRecord(id))])) <==> !IsLive(live.files, id)
  {
    if IsLive(live.files, id) {
      assert FileAgrees(tasks, id, live.files[id]);
      assert ClaimAgrees(tasks[id].claim, Look(live.files, id), live.isAlive);
      assert !ClaimAgrees(tasks[id].claim, Some(Saved(FreedRecord(id))), live.isAlive);
      assert Look(live.files[id := Saved(FreedRecord(id))], id) == Some(Saved(FreedRecord(id)));
    } else {
      IdleFileMatches(tasks, live, id, FreedRecord(id));
    }
  }

  lemma ReportFits(tasks: Tasks, live: StoreState, id: string, token: string)
    requires live.LiveState? && Matches(tasks, live)
    ensures Matches(tasks, LiveStep(live, Reported(id, token))) <==> Fits(tasks, live, Reported(id, token))
  {
    FreeingFits(tasks, live, id);
    if HeldToken(live.files, id) != Some(token) {
      assert LiveStep(live, Reported(id, token)) == live;
    }
  }

  lemma LivenessFits(tasks: Tasks, live: StoreState, isAlive: Probe)
    requires live.LiveState? && Matches(tasks, live)
    ensures Matches(tasks, live.(isAlive := isAlive)) <==> HoldersAsBefore(live, isAlive)
  {
    forall id | id in tasks
      ensures ClaimAgrees(tasks[id].claim, Look(live.files, id), isAlive) <==>
          (IsLive(live.files, id) ==>
              (HolderDead(live.files[id].record, isAlive) <==> HolderDead(live.files[id].record, live.isAlive)))
    {
      assert ClaimAgrees(tasks[id].claim, Look(live.files, id), live.isAlive);
    }
    forall id | IsLive(live.files, id) ensures id in tasks {
      assert FileAgrees(tasks, id, live.files[id]);
    }
  }

  lemma ClaimEndFits(tasks: Tasks, live: StoreState, op: Op)
    requires live.LiveState? && Matches(tasks, live) && (op.Reported? || op.SetFree? || op.LivenessBecomes?)
    ensures Matches(MemStep(tasks, op), LiveStep(live, op)) <==> Fits(tasks, live, op)
  {
    match op
    case Reported(id, token) => ReportFits(tasks, live, id, token);
    case SetFree(id) => FreeingFits(tasks, live, id);
    case LivenessBecomes(isAlive) => LivenessFits(tasks, live, isAlive);
  }

  lemma TickFits(tasks: Tasks, live: StoreState, op: Op)
    requires live.LiveState? && Matches(tasks, live) && op.Ticked?
    ensures Matches(MemStep(tasks, op), LiveStep(live, op)) && Fits(tasks, live, op)
  {
    TickMatches(tasks, live, op.settings, op.now);
  }

  /** From matching stores a step leaves matching stores exactly if it fits. */
  lemma FitsExactly(tasks: Tasks, live: StoreState, op: Op)
    requires live.LiveState? && Matches(tasks, live) && Acyclic(NodesOf(live.file))
    ensures Matches(MemStep(tasks, op), LiveStep(live, op)) <==> Fits(tasks, live, op)
  {
    match op
    case Ticked(_, _) => TickFits(tasks, live, op);
    case Enqueued(node) => EnqueueFits(tasks, live, node);
    case MarkedDone(id) => FinishFits(tasks, live, id);
    case ClaimedBy(_, _, _) => ClaimFits(tasks, live, op);
    case Renewed(_, _, _, _, _) => BeatFits(tasks, live, op);
    case _ => ClaimEndFits(tasks, live, op);
  }

  // ---- whole runs -----------------------------------------------------------------------------------------

  ghost function MemRun(tasks: Tasks, ops: seq<Op>): Tasks {
    if ops == [] then tasks else MemStep(MemRun(tasks, ops[..|ops| - 1]), ops[|ops| - 1])
  }

  ghost function LiveRun(live: StoreState, ops: seq<Op>): (live': StoreState)
    requires live.LiveState?
    ensures live'.LiveState?
  {
    if ops == [] then live else LiveStep(LiveRun(live, ops[..|ops| - 1]), ops[|ops| - 1])
  }

  /** The stores match after the first `n` steps. */
  ghost predicate MatchAfter(tasks: Tasks, live: StoreState, ops: seq<Op>, n: nat)
    requires live.LiveState? && n <= |ops|
  {
    Matches(MemRun(tasks, ops[..n]), LiveRun(live, ops[..n]))
  }

  /** Step `n` fits the stores as they are when it is taken. */
  ghost predicate FitsAt(tasks: Tasks, live: StoreState, ops: seq<Op>, n: nat)
    requires live.LiveState? && n < |ops|
  {
    Fits(MemRun(tasks, ops[..n]), LiveRun(live, ops[..n]), ops[n])
  }

  ghost predicate FittingRun(tasks: Tasks, live: StoreState, ops: seq<Op>)
    requires live.LiveState?
  {
    forall n :: 0 <= n < |ops| ==> FitsAt(tasks, live, ops, n)
  }

  lemma StaysAcyclic(live: StoreState, op: Op)
    requires live.LiveState? && Acyclic(NodesOf(live.file))
    ensures Acyclic(NodesOf(LiveStep(live, op).file))
  {
  }

  lemma {:induction false} RunAcyclic(live: StoreState, ops: seq<Op>)
    requires live.LiveState? && Acyclic(NodesOf(live.file))
    ensures Acyclic(NodesOf(LiveRun(live, ops).file))
  {
    if ops != [] {
      RunAcyclic(live, ops[..|ops| - 1]);
      StaysAcyclic(LiveRun(live, ops[..|ops| - 1]), ops[|ops| - 1]);
    }
  }

  lemma OneMore(tasks: Tasks, live: StoreState, ops: seq<Op>, n: nat)
    requires live.LiveState? && Acyclic(NodesOf(live.file)) && n < |ops| && MatchAfter(tasks, live, ops, n)
    ensures MatchAfter(tasks, live, ops, n + 1) <==> FitsAt(tasks, live, ops, n)
  {
    assert ops[..n + 1][..n] == ops[..n];
    RunAcyclic(live, ops[..n]);
    FitsExactly(MemRun(tasks, ops[..n]), LiveRun(live, ops[..n]), ops[n]);
  }

  lemma {:induction false} FittingMatches(tasks: Tasks, live: StoreState, ops: seq<Op>, n: nat)
    requires live.LiveState? && Matches(tasks, live) && Acyclic(NodesOf(live.file)) && n <= |ops|
    requires FittingRun(tasks, live, ops)
    ensures MatchAfter(tasks, live, ops, n)
    decreases n
  {
    if n > 0 {
      FittingMatches(tasks, live, ops, n - 1);
      OneMore(tasks, live, ops, n - 1);
      assert FitsAt(tasks, live, ops, n - 1);
    }
  }

  /** The stores match after every step exactly when every step fits. */
  lemma MatchThroughout(tasks: Tasks, live: StoreState, ops: seq<Op>)
    requires live.LiveState? && Matches(tasks, live) && Acyclic(NodesOf(live.file))
    ensures (forall n :: 0 <= n <= |ops| ==> MatchAfter(tasks, live, ops, n)) <==> FittingRun(tasks, live, ops)
  {
    if FittingRun(tasks, live, ops) {
      forall n | 0 <= n <= |ops| ensures MatchAfter(tasks, live, ops, n) {
        FittingMatches(tasks, live, ops, n);
      }
    } else {
      var n :| 0 <= n < |ops| && !FitsAt(tasks, live, ops, n);
      if MatchAfter(tasks, live, ops, n) {
        OneMore(tasks, live, ops, n);
      }
    }
  }

  /** And while every step fits, each tick has the same outcome over either store. */
  lemma SameOverEitherStore(tasks: Tasks, live: StoreState, ops: seq<Op>, n: nat)
    requires live.LiveState? && Matches(tasks, live) && Acyclic(NodesOf(live.file)) && FittingRun(tasks, live, ops)
    requires n < |ops| && ops[n].Ticked?
    ensures Outcome(MemState(MemRun(tasks, ops[..n])), ops[n].settings, ops[n].now)
         == Outcome(LiveRun(live, ops[..n]), ops[n].settings, ops[n].now)
  {
    FittingMatches(tasks, live, ops, n);
    TickMatches(MemRun(tasks, ops[..n]), LiveRun(live, ops[..n]), ops[n].settings, ops[n].now);
  }

  /** In particular from two empty stores. */
  lemma EmptyStoresMatch(isAlive: Probe)
    ensures Matches(map[], LiveState(NoGraph, map[], isAlive)) && Acyclic(NodesOf(NoGraph))
  {
    assert IsOrder([], []);
  }

  /** Re-adding a finished task tells the two apart: the double forgets that it is done. */
  lemma RequeueForgets(node: TaskNode, isAlive: Probe, tasks: Tasks, live: StoreState)
    requires node.deps == [] && tasks == map[node.id := InMemTask([], true, None)]
    requires live == LiveState(Graph([node], [node.id]), map[], isAlive)
    ensures Matches(tasks, live) && !Fits(tasks, live, Enqueued(node))
    ensures ReadySet(MemState(MemStep(tasks, Enqueued(node)))) == Some({node.id})
    ensures ReadySet(LiveStep(live, Enqueued(node))) == Some({})
  {
    assert IdsOf([node]) == {node.id} by { assert [node][..0] == []; }
    assert Placed([node], node) == [node];
    assert MemReady(MemStep(tasks, Enqueued(node))) == {node.id};
    var live' := LiveStep(live, Enqueued(node));
    assert live'.file == Graph([node], [node.id]);
    assert node.id in Members([node.id]);
    assert !SomeReadyUnreadable([node], Members([node.id]), map[]);
    assert forall x :: !IsReadyNode([node], Members([node.id]), map[], x);
    assert (set x | x in IdsOf([node]) && IsReadyNode([node], Members([node.id]), map[], x)) == {};
  }

  /**
   Nor does the double learn that a holder reported: it goes on calling the task stalled once the
   timeout has passed, over and done with though it is.
   */
  lemma ReportLingers(task: TaskNode, token: string, at: I64, isAlive: Probe, now: I64, ttl: I64)
    requires task.deps == [] && now > SaturatingAdd(at, ttl)
    ensures var tasks := map[task.id := InMemTask([], false, Fresh(at))];
            var record := ClaimRecord(task.id, Claimed, Some(token), Some(at), None);
            var live := LiveState(Graph([task], []), map[task.id := Saved(record)], isAlive);
            && Matches(tasks, live) && !Fits(tasks, live, Reported(task.id, token))
            && var ops := [Reported(task.id, token), MarkedDone(task.id)];
               && StaleSet(MemState(MemRun(tasks, ops)), now, ttl) == Some({task.id})
               && StaleSet(LiveRun(live, ops), now, ttl) == Some({})
  {
    assert [task][..0] == [] && IdsOf([task]) == {task.id};
    var first, last := Reported(task.id, token), MarkedDone(task.id);
    var tasks := map[task.id := InMemTask([], false, Fresh(at))];
    var record := ClaimRecord(task.id, Claimed, Some(token), Some(at), None);
    var live := LiveState(Graph([task], []), map[task.id := Saved(record)], isAlive);
    RunOfTwo(tasks, live, first, last);
    assert LiveStep(live, first).files == map[task.id := Saved(FreedRecord(task.id))];
    assert MemStale(MemStep(tasks, last), now, ttl) == {task.id};
    FreedNotStale(task.id, now, ttl, isAlive);
  }

  lemma FreedNotStale(id: string, now: I64, ttl: I64, isAlive: Probe)
    ensures LiveStale(map[id := Saved(FreedRecord(id))], now, ttl, isAlive) == Some({})
  {
    var files := map[id := Saved(FreedRecord(id))];
    assert forall k :: !StaleFile(files, k, now, ttl, isAlive);
    assert (set k | k in files && StaleFile(files, k, now, ttl, isAlive)) == {};
  }

  lemma RunOfTwo(tasks: Tasks, live: StoreState, first: Op, last: Op)
    requires live.LiveState?
    ensures MemRun(tasks, [first, last]) == MemStep(MemStep(tasks, first), last)
    ensures LiveRun(live, [first, last]) == LiveStep(LiveStep(live, first), last)
  {
    RunNext(tasks, live, [], first);
    RunNext(tasks, live, [first], last);
    assert [] + [first] == [first] && [first] + [last] == [first, last];
  }

  lemma RunNext(tasks: Tasks, live: StoreState, ops: seq<Op>, op: Op)
    requires live.LiveState?
    ensures MemRun(tasks, ops + [op]) == MemStep(MemRun(tasks, ops), op)
    ensures LiveRun(live, ops + [op]) == LiveStep(LiveRun(live, ops), op)
  {
    assert (ops + [op])[..|ops|] == ops;
  }

  // ---- one unreadable record ---------------------------------------------------------------------------------

  ghost predicate Corrupt(s: StoreState, id: string) {
    s.LiveState? && id in s.files && s.files[id].Unreadable?
  }

  lemma CorruptStays(live: StoreState, op: Op, id: string)
    requires Corrupt(live, id) && op != SetFree(id)
    ensures Corrupt(LiveStep(live, op), id)
  {
    if op.Ticked? {
      assert SomeUnreadable(live.files);
    }
  }

  lemma {:induction false} StaysCorrupt(live: StoreState, ops: seq<Op>, id: string)
    requires Corrupt(live, id) && SetFree(id) !in ops
    ensures Corrupt(LiveRun(live, ops), id)
  {
    if ops != [] {
      StaysCorrupt(live, ops[..|ops| - 1], id);
      CorruptStays(LiveRun(live, ops[..|ops| - 1]), ops[|ops| - 1], id);
    }
  }

  /**
   Until someone releases the task whose record cannot be read, no tick of any run reports or frees a
   stalled claim, of whatever task.
   */
  lemma CorruptStopsReaping(live: StoreState, ops: seq<Op>, id: string, n: nat)
    requires Corrupt(live, id) && n < |ops| && ops[n].Ticked? && SetFree(id) !in ops[..n]
    ensures !Outcome(LiveRun(live, ops[..n]), ops[n].settings, ops[n].now).StallDetected?
    ensures LiveStep(LiveRun(live, ops[..n]), ops[n]) == LiveRun(live, ops[..n])
  {
    StaysCorrupt(live, ops[..n], id);
    UnreadableStopsTick(LiveRun(live, ops[..n]), ops[n].settings, ops[n].now, id);
  }

  /** A release heals it. */
  lemma ReleaseHeals(live: StoreState, id: string)
    requires Corrupt(live, id)
    ensures Look(LiveStep(live, SetFree(id)).files, id) == Some(Saved(FreedRecord(id)))
  {
  }
}
