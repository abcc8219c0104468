/**
 The shared task list of crates/apohara-dispatch/src/task_graph.rs: a persisted DAG of
 tasks, and which of them may be claimed. The graph file is load-modify-save without a
 lock, so it is modelled with a single writer.
 */
module TaskGraphs {
  import opened RunStates
  import opened Sorting
  import opened Claims
  import opened Cycles

  /** `graph.json`: absent, unparsable, or the nodes and the ids that are done. */
  datatype GraphFile = NoGraph | BadGraph | Graph(nodes: seq<TaskNode>, done: seq<string>)

  datatype GraphAnswer = Stored | WouldCycle(node: string) | GraphUnreadable

  datatype Listing = Ids(ids: seq<string>) | GraphFailure | ClaimFailure

  function NodesOf(file: GraphFile): seq<TaskNode> {
    if file.Graph? then file.nodes else []
  }

  function DoneOf(file: GraphFile): seq<string> {
    if file.Graph? then file.done else []
  }

  // ---- placing a node ---------------------------------------------------------------

  /** Re-adding an id replaces its node; a new id goes to the end. */
  ghost function Placed(nodes: seq<TaskNode>, node: TaskNode): seq<TaskNode> {
    if nodes == [] then [node]
    else if nodes[0].id == node.id then [node] + nodes[1..]
    else [nodes[0]] + Placed(nodes[1..], node)
  }

  lemma {:induction false} PlacedAt(nodes: seq<TaskNode>, node: TaskNode, i: nat)
    requires i <= |nodes| && forall j :: 0 <= j < i ==> nodes[j].id != node.id
    requires i < |nodes| ==> nodes[i].id == node.id
    ensures Placed(nodes, node) == if i < |nodes| then nodes[i := node] else nodes + [node]
  {
    if i == 0 {
    } else {
      PlacedAt(nodes[1..], node, i - 1);
      assert nodes == [nodes[0]] + nodes[1..];
    }
  }

  lemma {:induction false} PlacedKeepsDistinct(nodes: seq<TaskNode>, node: TaskNode)
    requires DistinctNodes(nodes)
    ensures DistinctNodes(Placed(nodes, node))
    ensures forall n :: n in Placed(nodes, node) <==> n == node || (n in nodes && n.id != node.id)
  {
    if nodes != [] && nodes[0].id != node.id {
      var rest := nodes[1..];
      assert forall j :: 0 <= j < |rest| ==> rest[j] == nodes[j + 1];
      PlacedKeepsDistinct(rest, node);
      var placed := Placed(rest, node);
      forall j | 0 <= j < |placed| ensures placed[j].id != nodes[0].id {
        assert placed[j] in placed;
      }
    }
  }

  // ---- what may be claimed -------------------------------------------------------------

  predicate Unblocked(node: TaskNode, done: set<string>) {
    node.id !in done && forall d :: d in node.deps ==> d in done
  }

  predicate SlotUnreadable(files: map<string, ClaimFile>, id: string) {
    id in files && files[id].Unreadable?
  }

  /** `ids` is the increasing listing of the nodes that are unblocked and free. */
  ghost predicate ListsClaimable(ids: seq<string>, nodes: seq<TaskNode>, done: set<string>,
      files: map<string, ClaimFile>)
  {
    && SortedBy(Below, ids) && NoDuplicates(ids)
    && forall id :: id in ids <==>
         exists k :: 0 <= k < |nodes| && nodes[k].id == id && Unblocked(nodes[k], done) && SlotOpen(files, id)
  }

  /** Some node that is otherwise unblocked has a record that cannot be read. */
  ghost predicate SomeReadyUnreadable(nodes: seq<TaskNode>, done: set<string>, files: map<string, ClaimFile>) {
    exists k :: 0 <= k < |nodes| && Unblocked(nodes[k], done) && SlotUnreadable(files, nodes[k].id)
  }

  ghost predicate ReadableSoFar(nodes: seq<TaskNode>, done: set<string>, files: map<string, ClaimFile>, k: nat)
    requires k <= |nodes|
  {
    forall j :: 0 <= j < k && Unblocked(nodes[j], done) ==> !SlotUnreadable(files, nodes[j].id)
  }

  lemma ReadableNext(nodes: seq<TaskNode>, done: set<string>, files: map<string, ClaimFile>, k: nat)
    requires k < |nodes| && ReadableSoFar(nodes, done, files, k)
    ensures if Unblocked(nodes[k], done) && SlotUnreadable(files, nodes[k].id)
            then SomeReadyUnreadable(nodes, done, files)
            else ReadableSoFar(nodes, done, files, k + 1)
  {
  }

  /** `out` holds, each once, what is claimable among the first `k` nodes. */
  ghost predicate ListedSoFar(out: seq<string>, nodes: seq<TaskNode>, done: set<string>,
      files: map<string, ClaimFile>, k: nat)
    requires k <= |nodes|
  {
    && NoDuplicates(out)
    && forall id :: id in out <==>
         exists j :: 0 <= j < k && nodes[j].id == id && Unblocked(nodes[j], done) && SlotOpen(files, id)
  }

  lemma ListedNext(out: seq<string>, nodes: seq<TaskNode>, done: set<string>, files: map<string, ClaimFile>, k: nat)
    requires k < |nodes| && DistinctNodes(nodes) && ListedSoFar(out, nodes, done, files, k)
    ensures ListedSoFar(if Unblocked(nodes[k], done) && SlotOpen(files, nodes[k].id) then out + [nodes[k].id] else out,
                        nodes, done, files, k + 1)
  {
  }

  lemma ListedAll(out: seq<string>, nodes: seq<TaskNode>, done: set<string>, files: map<string, ClaimFile>)
    requires ListedSoFar(out, nodes, done, files, |nodes|)
    ensures ListsClaimable(SortIds(out), nodes, done, files)
    ensures ReadableSoFar(nodes, done, files, |nodes|) ==> !SomeReadyUnreadable(nodes, done, files)
  {
    SortIdsSpec(out);
  }

  class TaskGraph {
    var file: GraphFile

    /** Distinct ids, and a topological order of the dependencies among them. */
    ghost predicate Valid()
      reads this
    {
      DistinctNodes(NodesOf(file)) && Acyclic(NodesOf(file)) && NoDuplicates(DoneOf(file))
    }

    constructor ()
      ensures Valid() && file == NoGraph
    {
      file := NoGraph;
      new;
      assert IsOrder([], []);
    }

    /** Accepted exactly when the resulting node set has a topological order; otherwise nothing is saved. */
    method AddNode(node: TaskNode) returns (answer: GraphAnswer)
      requires Valid()
      modifies this
      ensures Valid()
      ensures old(file).BadGraph? ==> answer == GraphUnreadable && file == old(file)
      ensures !old(file).BadGraph? ==>
                if Acyclic(Placed(NodesOf(old(file)), node))
                then answer == Stored && file == Graph(Placed(NodesOf(old(file)), node), DoneOf(old(file)))
                else answer == WouldCycle(node.id) && file == old(file)
    {
      if file.BadGraph? {
        return GraphUnreadable;
      }
      var nodes := NodesOf(file);
      var i := 0;
      while i < |nodes| && nodes[i].id != node.id
        invariant 0 <= i <= |nodes|
        invariant forall j :: 0 <= j < i ==> nodes[j].id != node.id
      {
        i := i + 1;
      }
      PlacedAt(nodes, node, i);
      PlacedKeepsDistinct(nodes, node);
      nodes := if i < |nodes| then nodes[i := node] else nodes + [node];
      var cyclic := HasCycle(nodes);
      if cyclic {
        return WouldCycle(node.id);
      }
      file := Graph(nodes, DoneOf(file));
      return Stored;
    }

    method MarkDone(id: string) returns (answer: GraphAnswer)
      requires Valid()
      modifies this
      ensures Valid()
      ensures old(file).BadGraph? ==> answer == GraphUnreadable && file == old(file)
      ensures !old(file).BadGraph? ==>
                answer == Stored
                && file == Graph(NodesOf(old(file)), if id in DoneOf(old(file)) then DoneOf(old(file))
                    else DoneOf(old(file)) + [id])
    {
      if file.BadGraph? {
        return GraphUnreadable;
      }
      var done := DoneOf(file);
      if id !in done {
        done := done + [id];
      }
      file := Graph(NodesOf(file), done);
      return Stored;
    }

    /**
     The listing of the claimable nodes; it fails only on an unreadable graph, or on the
     unreadable record of a node that is otherwise unblocked.
     */
    method Claimable(store: ClaimStore) returns (listing: Listing)
      requires Valid()
      ensures listing.GraphFailure? <==> file.BadGraph?
      ensures listing.ClaimFailure? <==>
                !file.BadGraph? && SomeReadyUnreadable(NodesOf(file), Members(DoneOf(file)), store.files)
      ensures listing.Ids? ==> ListsClaimable(listing.ids, NodesOf(file), Members(DoneOf(file)), store.files)
    {
      if file.BadGraph? {
        return GraphFailure;
      }
      var nodes := NodesOf(file);
      var done := set d | d in DoneOf(file);
      var out: seq<string> := [];
      for k := 0 to |nodes|
        invariant ListedSoFar(out, nodes, done, store.files, k)
        invariant ReadableSoFar(nodes, done, store.files, k)
      {
        var node := nodes[k];
        ListedNext(out, nodes, done, store.files, k);
        ReadableNext(nodes, done, store.files, k);
        if node.id in done {
          continue;
        }
        if exists d :: d in node.deps && d !in done {
          continue;
        }
        var open := false;
        match store.Load(node.id) {
          case None => open := true;
          case Some(Unreadable) => return ClaimFailure;
          case Some(Saved(record)) => open := IsClaimable(record.state);
        }
        if open {
          out := out + [node.id];
        }
      }
      ListedAll(out, nodes, done, store.files);
      return Ids(SortIds(out));
    }
  }

  // ---- progress -------------------------------------------------------------------------

  /** The ids a round may claim when no slot is held. */
  ghost function UnlockedIds(nodes: seq<TaskNode>, done: set<string>): set<string> {
    set id | id in IdsOf(nodes) && IsUnlocked(nodes, done, id)
  }

  ghost predicate IsUnlocked(nodes: seq<TaskNode>, done: set<string>, id: string) {
    exists k :: 0 <= k < |nodes| && nodes[k].id == id && Unblocked(nodes[k], done)
  }

  lemma AllSlotsOpen(ids: seq<string>, nodes: seq<TaskNode>, done: set<string>, files: map<string, ClaimFile>)
    requires ListsClaimable(ids, nodes, done, files)
    requires forall id :: id in IdsOf(nodes) ==> SlotOpen(files, id)
    ensures Members(ids) == UnlockedIds(nodes, done)
  {
    forall id ensures id in Members(ids) <==> id in UnlockedIds(nodes, done) {
      if k :| 0 <= k < |nodes| && nodes[k].id == id && Unblocked(nodes[k], done) {
        IdAt(nodes, k);
      }
    }
  }

  /** What is done after `n` rounds of "claim everything claimable, finish it, mark it done". */
  ghost function AfterRounds(nodes: seq<TaskNode>, done: set<string>, n: nat): set<string> {
    if n == 0 then done
    else AfterRounds(nodes, done, n - 1) + UnlockedIds(nodes, AfterRounds(nodes, done, n - 1))
  }

  /** Every dependency of an unfinished node is a node or already done. */
  ghost predicate Resolvable(nodes: seq<TaskNode>, done: set<string>) {
    forall k :: 0 <= k < |nodes| ==> DepsKnown(nodes, done, k)
  }

  ghost predicate DepsKnown(nodes: seq<TaskNode>, done: set<string>, k: nat)
    requires k < |nodes|
  {
    nodes[k].id in done || forall d :: d in nodes[k].deps ==> d in IdsOf(nodes) || d in done
  }

  lemma FirstPending(order: seq<string>, done: set<string>, x: string) returns (i: nat)
    requires x in order && x !in done
    ensures i < |order| && order[i] !in done && Members(order[..i]) <= done
  {
    i := 0;
    while order[i] in done
      invariant 0 <= i < |order| && Members(order[..i]) <= done
      invariant exists j :: i <= j < |order| && order[j] == x
      decreases |order| - i
    {
      assert order[..i + 1] == order[..i] + [order[i]];
      i := i + 1;
    }
  }

  /** While something is pending in a resolvable DAG, something is unlocked. */
  lemma SomethingUnlocked(nodes: seq<TaskNode>, done: set<string>, x: string)
    requires DistinctNodes(nodes) && Acyclic(nodes) && Resolvable(nodes, done)
    requires x in IdsOf(nodes) && x !in done
    ensures UnlockedIds(nodes, done) != {}
  {
    var order :| IsOrder(nodes, order);
    assert x in Members(order);
    var i := FirstPending(order, done, x);
    assert order[i] in Members(order);
    var k := NodeOf(nodes, order[i]);
    assert Needs(nodes, order[i]) <= done && DepsKnown(nodes, done, k);
    forall d | d in nodes[k].deps ensures d in done {
      if d in IdsOf(nodes) {
        assert NeedsId(nodes, order[i], d);
        assert d in Needs(nodes, order[i]);
      }
    }
    assert Unblocked(nodes[k], done);
    assert order[i] in UnlockedIds(nodes, done);
  }

  lemma {:induction false} RoundsAddNodes(nodes: seq<TaskNode>, done: set<string>, n: nat)
    ensures done <= AfterRounds(nodes, done, n) <= done + IdsOf(nodes)
  {
    if n > 0 {
      RoundsAddNodes(nodes, done, n - 1);
    }
  }

  lemma ResolvableGrows(nodes: seq<TaskNode>, done: set<string>, more: set<string>)
    requires Resolvable(nodes, done) && done <= more
    ensures Resolvable(nodes, more)
  {
    forall k | 0 <= k < |nodes| ensures DepsKnown(nodes, more, k) {
      assert DepsKnown(nodes, done, k);
    }
  }

  lemma RoundAdvances(nodes: seq<TaskNode>, done: set<string>)
    requires DistinctNodes(nodes) && Acyclic(nodes) && Resolvable(nodes, done)
    ensures var after := done + UnlockedIds(nodes, done);
            if IdsOf(nodes) <= done then IdsOf(nodes) <= after else |IdsOf(nodes) * after| > |IdsOf(nodes) * done|
  {
    if x :| x in IdsOf(nodes) && x !in done {
      SomethingUnlocked(nodes, done, x);
      UnlockedPending(nodes, done);
      MoreFinished(IdsOf(nodes), done, UnlockedIds(nodes, done));
    }
  }

  lemma MoreFinished(ids: set<string>, done: set<string>, unlocked: set<string>)
    requires unlocked != {} && unlocked <= ids - done
    ensures |ids * (done + unlocked)| > |ids * done|
  {
    var u :| u in unlocked;
    SubsetSize(ids * done + {u}, ids * (done + unlocked));
  }

  lemma UnlockedPending(nodes: seq<TaskNode>, done: set<string>)
    ensures UnlockedIds(nodes, done) <= IdsOf(nodes) - done
  {
  }

  /** All of `ids` are finished, or at least `n` of them. */
  ghost predicate FinishedAtLeast(ids: set<string>, done: set<string>, n: nat) {
    ids <= done || |ids * done| >= n
  }

  lemma OneRound(nodes: seq<TaskNode>, before: set<string>, n: nat)
    requires DistinctNodes(nodes) && Acyclic(nodes) && Resolvable(nodes, before)
    requires FinishedAtLeast(IdsOf(nodes), before, n)
    ensures FinishedAtLeast(IdsOf(nodes), before + UnlockedIds(nodes, before), n + 1)
  {
    RoundAdvances(nodes, before);
  }

  /** Each round but the last finishes at least one more node. */
  lemma {:induction false} RoundsAdvance(nodes: seq<TaskNode>, done: set<string>, n: nat)
    requires DistinctNodes(nodes) && Acyclic(nodes) && Resolvable(nodes, done)
    ensures FinishedAtLeast(IdsOf(nodes), AfterRounds(nodes, done, n), n)
  {
    if n > 0 {
      var before := AfterRounds(nodes, done, n - 1);
      RoundsAdvance(nodes, done, n - 1);
      RoundsAddNodes(nodes, done, n - 1);
      ResolvableGrows(nodes, done, before);
      OneRound(nodes, before, n - 1);
      assert AfterRounds(nodes, done, n) == before + UnlockedIds(nodes, before);
    }
  }

  /** A node that waits for an unknown, unfinished dependency is never unlocked. */
  lemma {:induction false} NeverUnlocked(nodes: seq<TaskNode>, done: set<string>, n: nat, k: nat, d: string)
    requires DistinctNodes(nodes) && k < |nodes| && nodes[k].id !in done
    requires d in nodes[k].deps && d !in IdsOf(nodes) && d !in done
    ensures nodes[k].id !in AfterRounds(nodes, done, n)
  {
    if n > 0 {
      NeverUnlocked(nodes, done, n - 1, k, d);
      RoundsAddNodes(nodes, done, n - 1);
    }
  }

  /**
   Claiming all that is claimable, finishing it and marking it done completes a graph of n
   nodes within n rounds exactly when every dependency of an unfinished node is a node or done.
   */
  lemma RoundsFinish(nodes: seq<TaskNode>, done: set<string>)
    requires DistinctNodes(nodes) && Acyclic(nodes)
    ensures IdsOf(nodes) <= AfterRounds(nodes, done, |nodes|) <==> Resolvable(nodes, done)
  {
    if Resolvable(nodes, done) {
      RoundsAdvance(nodes, done, |nodes|);
      NodeCount(nodes);
      SubsetSize(IdsOf(nodes) * AfterRounds(nodes, done, |nodes|), IdsOf(nodes));
    } else {
      var k :| 0 <= k < |nodes| && !DepsKnown(nodes, done, k);
      var d :| d in nodes[k].deps && d !in IdsOf(nodes) && d !in done;
      NeverUnlocked(nodes, done, |nodes|, k, d);
      IdAt(nodes, k);
    }
  }

  /** A list whose dependencies all point backwards is a DAG, in list order. */
  lemma BackwardDepsAcyclic(nodes: seq<TaskNode>, names: seq<string>)
    requires DistinctNodes(nodes) && |names| == |nodes| && forall i :: 0 <= i < |nodes| ==> names[i] == nodes[i].id
    requires forall i, d :: 0 <= i < |nodes| && d in nodes[i].deps && d in IdsOf(nodes) ==> d in names[..i]
    ensures Acyclic(nodes)
  {
    forall x ensures x in Members(names) <==> x in IdsOf(nodes) {
      if x in IdsOf(nodes) {
        var k := NodeOf(nodes, x);
        assert names[k] == x;
      }
      if x in names {
        var i :| 0 <= i < |names| && names[i] == x;
        IdAt(nodes, i);
      }
    }
    forall i | 0 <= i < |names| ensures Needs(nodes, names[i]) <= Members(names[..i]) {
      NeedsOfNode(nodes, i);
    }
    assert IsOrder(nodes, names);
  }
}
