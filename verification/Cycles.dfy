/**
 The cycle check of crates/apohara-dispatch/src/task_graph.rs (Kahn's algorithm), against
 two independent readings of its answer: a closed dependency walk, and a topological order.
 */
module Cycles {
  import opened Sorting

  datatype TaskNode = TaskNode(id: string, title: string, deps: seq<string>)

  ghost predicate DistinctNodes(nodes: seq<TaskNode>) {
    forall i, j :: 0 <= i < j < |nodes| ==> nodes[i].id != nodes[j].id
  }

  function IdsOf(nodes: seq<TaskNode>): set<string> {
    if nodes == [] then {} else IdsOf(nodes[..|nodes| - 1]) + {nodes[|nodes| - 1].id}
  }

  lemma {:induction false} IdAt(nodes: seq<TaskNode>, k: nat)
    requires k < |nodes|
    ensures nodes[k].id in IdsOf(nodes)
  {
    if k < |nodes| - 1 {
      IdAt(nodes[..|nodes| - 1], k);
    }
  }

  lemma {:induction false} NodeOf(nodes: seq<TaskNode>, id: string) returns (k: nat)
    requires id in IdsOf(nodes)
    ensures k < |nodes| && nodes[k].id == id
  {
    k := |nodes| - 1;
    if nodes[k].id != id {
      k := NodeOf(nodes[..|nodes| - 1], id);
    }
  }

  /** The listed ids that `id` depends on; references to absent ids are forward references and do not count. */
  ghost predicate NeedsId(nodes: seq<TaskNode>, id: string, dep: string) {
    dep in IdsOf(nodes) && exists k :: 0 <= k < |nodes| && nodes[k].id == id && dep in nodes[k].deps
  }

  ghost function Needs(nodes: seq<TaskNode>, id: string): set<string> {
    set dep | dep in IdsOf(nodes) && NeedsId(nodes, id, dep)
  }

  /** A closed walk along dependencies among the listed ids. */
  ghost predicate IsCycle(nodes: seq<TaskNode>, walk: seq<string>) {
    && |walk| >= 2 && walk[0] == walk[|walk| - 1]
    && IsWalk(nodes, walk)
  }

  ghost predicate IsWalk(nodes: seq<TaskNode>, walk: seq<string>) {
    && (forall i :: 0 <= i < |walk| ==> walk[i] in IdsOf(nodes))
    && (forall i :: 0 <= i < |walk| - 1 ==> NeedsId(nodes, walk[i], walk[i + 1]))
  }

  ghost function Members(s: seq<string>): set<string> {
    set x | x in s
  }

  /** Every id once, each after everything it needs. */
  ghost predicate IsOrder(nodes: seq<TaskNode>, order: seq<string>) {
    && NoDuplicates(order) && Members(order) == IdsOf(nodes)
    && Upward(nodes, order)
  }

  ghost predicate Upward(nodes: seq<TaskNode>, order: seq<string>) {
    forall i :: 0 <= i < |order| ==> Needs(nodes, order[i]) <= Members(order[..i])
  }

  ghost predicate Acyclic(nodes: seq<TaskNode>) {
    exists order :: IsOrder(nodes, order)
  }

  // ---- counting -------------------------------------------------------------------

  lemma {:induction false} DistinctLength(s: seq<string>)
    ensures |Members(s)| <= |s|
    ensures NoDuplicates(s) <==> |Members(s)| == |s|
  {
    if s == [] {
    } else {
      var t := s[1..];
      DistinctLength(t);
      assert s == [s[0]] + t;
      NoDuplicatesHead(s[0], t);
      assert Members(s) == Members(t) + {s[0]};
    }
  }

  lemma {:induction false} SubsetSize(a: set<string>, b: set<string>)
    requires a <= b
    ensures |a| <= |b|
    ensures |a| == |b| ==> a == b
  {
    if x :| x in a {
      SubsetSize(a - {x}, b - {x});
    } else if a != b {
      var x :| x in b;
      assert |b| == |b - {x}| + 1;
    }
  }

  lemma {:induction false} NodeCount(nodes: seq<TaskNode>)
    requires DistinctNodes(nodes)
    ensures |IdsOf(nodes)| == |nodes|
  {
    if nodes == [] {
    } else {
      var rest, last := nodes[..|nodes| - 1], nodes[|nodes| - 1].id;
      NodeCount(rest);
      if last in IdsOf(rest) {
        var k := NodeOf(rest, last);
      }
    }
  }

  lemma NeedsOfNode(nodes: seq<TaskNode>, k: nat)
    requires DistinctNodes(nodes) && k < |nodes|
    ensures Needs(nodes, nodes[k].id) == set d | d in nodes[k].deps && d in IdsOf(nodes)
  {
  }

  // ---- an order rules cycles out; a stuck set holds one ------------------------------

  ghost function Position(order: seq<string>, x: string): (i: nat)
    requires x in order
    ensures i < |order| && order[i] == x
  {
    if order[0] == x then 0 else 1 + Position(order[1..], x)
  }

  /** Along a walk the position in an order only falls. */
  lemma {:induction false} WalkDescends(nodes: seq<TaskNode>, order: seq<string>, walk: seq<string>, i: nat)
    requires IsOrder(nodes, order) && IsWalk(nodes, walk) && 0 < i < |walk|
    ensures walk[0] in order && walk[i] in order && Position(order, walk[i]) < Position(order, walk[0])
    decreases i
  {
    assert forall j :: 0 <= j < |walk| ==> walk[j] in Members(order);
    var at := Position(order, walk[i - 1]);
    assert NeedsId(nodes, walk[i - 1], walk[(i - 1) + 1]);
    assert walk[i] in Needs(nodes, walk[i - 1]);
    var j :| 0 <= j < at && order[..at][j] == walk[i];
    assert order[j] == walk[i] && Position(order, walk[i]) == j;
    if i > 1 {
      WalkDescends(nodes, order, walk, i - 1);
    }
  }

  lemma OrderedHasNoCycle(nodes: seq<TaskNode>, order: seq<string>, walk: seq<string>)
    requires IsOrder(nodes, order)
    ensures !IsCycle(nodes, walk)
  {
    if IsCycle(nodes, walk) {
      WalkDescends(nodes, order, walk, |walk| - 1);
    }
  }

  lemma WalkExtends(nodes: seq<TaskNode>, walk: seq<string>, next: string)
    requires walk != [] && IsWalk(nodes, walk) && NeedsId(nodes, walk[|walk| - 1], next)
    ensures IsWalk(nodes, walk + [next])
  {
  }

  lemma WalkSuffix(nodes: seq<TaskNode>, walk: seq<string>, i: nat)
    requires i < |walk| && IsWalk(nodes, walk)
    ensures IsWalk(nodes, walk[i..])
  {
    var tail := walk[i..];
    forall j | 0 <= j < |tail| - 1 ensures NeedsId(nodes, tail[j], tail[j + 1]) {
      assert tail[j] == walk[i + j] && NeedsId(nodes, walk[i + j], walk[(i + j) + 1]);
    }
  }

  lemma WalkCloses(nodes: seq<TaskNode>, walk: seq<string>, next: string, i: nat)
    requires i < |walk| && walk[i] == next && IsWalk(nodes, walk + [next])
    ensures IsCycle(nodes, (walk + [next])[i..])
  {
    WalkSuffix(nodes, walk + [next], i);
  }

  ghost predicate Stuck(nodes: seq<TaskNode>, stuck: set<string>) {
    && stuck <= IdsOf(nodes)
    && forall x {:trigger HasNext(nodes, stuck, x)} :: x in stuck ==> HasNext(nodes, stuck, x)
  }

  ghost predicate HasNext(nodes: seq<TaskNode>, stuck: set<string>, x: string) {
    exists next :: next in stuck && NeedsId(nodes, x, next)
  }

  /** If every id of a nonempty set needs another of the set, following needs must close a cycle. */
  lemma {:induction false} StuckHasCycle(nodes: seq<TaskNode>, stuck: set<string>, walk: seq<string>)
      returns (cycle: seq<string>)
    requires Stuck(nodes, stuck)
    requires walk != [] && NoDuplicates(walk) && Members(walk) <= stuck && IsWalk(nodes, walk)
    ensures IsCycle(nodes, cycle)
    decreases |stuck| - |walk|
  {
    var last := walk[|walk| - 1];
    assert last in Members(walk);
    assert HasNext(nodes, stuck, last);
    var next :| next in stuck && NeedsId(nodes, last, next);
    WalkExtends(nodes, walk, next);
    if next in walk {
      var i :| 0 <= i < |walk| && walk[i] == next;
      cycle := (walk + [next])[i..];
      WalkCloses(nodes, walk, next, i);
    } else {
      Longer(walk, next, stuck);
      cycle := StuckHasCycle(nodes, stuck, walk + [next]);
    }
  }

  lemma Longer(walk: seq<string>, next: string, ids: set<string>)
    requires NoDuplicates(walk) && Members(walk) <= ids && next in ids && next !in walk
    ensures NoDuplicates(walk + [next]) && Members(walk + [next]) <= ids && |walk| < |ids|
  {
    var longer := walk + [next];
    assert Members(longer) == Members(walk) + {next};
    DistinctLength(longer);
    SubsetSize(Members(longer), ids);
  }

  // ---- Kahn's algorithm ---------------------------------------------------------------

  /** How many listed dependencies of `id` are still unresolved. */
  ghost function Waiting(nodes: seq<TaskNode>, id: string, resolved: set<string>): nat {
    |Needs(nodes, id) - resolved|
  }

  lemma NothingWaiting(nodes: seq<TaskNode>, id: string, resolved: set<string>)
    ensures Waiting(nodes, id, resolved) == 0 <==> Needs(nodes, id) <= resolved
  {
    if Waiting(nodes, id, resolved) == 0 {
      forall x | x in Needs(nodes, id) ensures x in resolved {
        assert x in resolved || x in Needs(nodes, id) - resolved;
      }
    } else {
      var x :| x in Needs(nodes, id) - resolved;
    }
  }

  /** The in-degree map Kahn's algorithm should hold once `resolved` are done. */
  ghost function Degrees(nodes: seq<TaskNode>, resolved: set<string>): map<string, nat> {
    map x | x in IdsOf(nodes) :: Waiting(nodes, x, resolved)
  }

  /** Resolving one more id takes one from each of its dependents and nothing from the others. */
  ghost predicate Drops(nodes: seq<TaskNode>, before: map<string, nat>, after: map<string, nat>, dep: string) {
    forall k :: 0 <= k < |nodes| ==> DropsAt(before, after, nodes[k], dep)
  }

  ghost predicate DropsAt(before: map<string, nat>, after: map<string, nat>, node: TaskNode, dep: string) {
    && node.id in before && node.id in after
    && before[node.id] == after[node.id] + (if dep in node.deps then 1 else 0)
  }

  lemma DegreeKeys(nodes: seq<TaskNode>, resolved: set<string>)
    ensures Degrees(nodes, resolved).Keys == IdsOf(nodes)
  {
  }

  lemma MembersNext(order: seq<string>, id: string)
    ensures Members(order + [id]) == Members(order) + {id}
  {
  }

  lemma DegreeAt(nodes: seq<TaskNode>, resolved: set<string>, k: nat)
    requires k < |nodes|
    ensures nodes[k].id in Degrees(nodes, resolved)
    ensures Degrees(nodes, resolved)[nodes[k].id] == Waiting(nodes, nodes[k].id, resolved)
  {
    IdAt(nodes, k);
  }

  lemma WaitingDrops(needs: set<string>, resolved: set<string>, dep: string)
    requires dep !in resolved
    ensures |needs - resolved| == |needs - (resolved + {dep})| + (if dep in needs then 1 else 0)
  {
    if dep in needs {
      assert needs - resolved == (needs - (resolved + {dep})) + {dep};
    } else {
      assert needs - resolved == needs - (resolved + {dep});
    }
  }

  lemma DegreesDrop(nodes: seq<TaskNode>, resolved: set<string>, dep: string)
    requires DistinctNodes(nodes) && dep in IdsOf(nodes) && dep !in resolved
    ensures Drops(nodes, Degrees(nodes, resolved), Degrees(nodes, resolved + {dep}), dep)
  {
    forall k | 0 <= k < |nodes|
      ensures DropsAt(Degrees(nodes, resolved), Degrees(nodes, resolved + {dep}), nodes[k], dep)
    {
      OneDegreeDrops(nodes, resolved, dep, k);
    }
  }

  lemma OneDegreeDrops(nodes: seq<TaskNode>, resolved: set<string>, dep: string, k: nat)
    requires DistinctNodes(nodes) && dep in IdsOf(nodes) && dep !in resolved && k < |nodes|
    ensures DropsAt(Degrees(nodes, resolved), Degrees(nodes, resolved + {dep}), nodes[k], dep)
  {
    NeedsOfNode(nodes, k);
    WaitingDrops(Needs(nodes, nodes[k].id), resolved, dep);
    DegreeAt(nodes, resolved, k);
    DegreeAt(nodes, resolved + {dep}, k);
  }

  /** The nodes before number `k` have been told; the others have not. */
  ghost predicate Told(nodes: seq<TaskNode>, indegree: map<string, nat>, before: map<string, nat>,
      after: map<string, nat>, k: nat)
    requires k <= |nodes|
  {
    && indegree.Keys == before.Keys == after.Keys
    && (forall j :: 0 <= j < k ==> nodes[j].id in indegree && indegree[nodes[j].id] == after[nodes[j].id])
    && (forall j :: k <= j < |nodes| ==> nodes[j].id in indegree && indegree[nodes[j].id] == before[nodes[j].id])
  }

  lemma ToldAll(nodes: seq<TaskNode>, indegree: map<string, nat>, before: map<string, nat>, after: map<string, nat>)
    requires Told(nodes, indegree, before, after, |nodes|) && indegree.Keys == IdsOf(nodes)
    ensures indegree == after
  {
    forall x | x in indegree ensures indegree[x] == after[x] {
      var j := NodeOf(nodes, x);
    }
  }

  /** The queue and the resolved ids are exactly the ids with nothing left to wait for. */
  ghost predicate Queued(indegree: map<string, nat>, order: seq<string>, queue: seq<string>) {
    && NoDuplicates(order + queue)
    && (forall x :: x in order + queue <==> x in indegree && indegree[x] == 0)
  }

  lemma QueuedDrop(indegree: map<string, nat>, order: seq<string>, queue: seq<string>, x: string)
    requires Queued(indegree, order, queue) && x in indegree && indegree[x] >= 1
    ensures Queued(indegree[x := indegree[x] - 1], order, if indegree[x] == 1 then queue + [x] else queue)
  {
    if indegree[x] == 1 {
      PushZero(order, queue, x);
    }
  }

  lemma PushZero(order: seq<string>, queue: seq<string>, x: string)
    requires NoDuplicates(order + queue) && x !in order + queue
    ensures NoDuplicates(order + (queue + [x]))
    ensures forall y :: y in order + (queue + [x]) <==> y in order + queue || y == x
  {
    assert order + (queue + [x]) == (order + queue) + [x];
  }

  /** Moving the last queued id to the resolved ones keeps the queue exact. */
  lemma PopQueued(indegree: map<string, nat>, order: seq<string>, queue: seq<string>)
    requires queue != [] && Queued(indegree, order, queue)
    ensures var id := queue[|queue| - 1];
            && id !in order && id in indegree && indegree[id] == 0 && |order| < |indegree.Keys|
            && Queued(indegree, order + [id], queue[..|queue| - 1])
  {
    var id, rest := queue[|queue| - 1], queue[..|queue| - 1];
    var both, moved := order + queue, (order + [id]) + rest;
    assert both == order + rest + [id];
    assert both[|both| - 1] == id;
    assert forall i :: 0 <= i < |order| ==> both[i] == order[i];
    assert Members(both) == Members(moved);
    DistinctLength(both);
    DistinctLength(moved);
    assert forall x :: x in moved <==> x in Members(moved);
    assert forall x :: x in both <==> x in Members(both);
    SubsetSize(Members(both), indegree.Keys);
  }

  lemma PopUpward(nodes: seq<TaskNode>, order: seq<string>, id: string)
    requires Upward(nodes, order) && Needs(nodes, id) <= Members(order)
    ensures Upward(nodes, order + [id])
  {
    var longer := order + [id];
    forall i | 0 <= i < |longer| ensures Needs(nodes, longer[i]) <= Members(longer[..i]) {
      assert longer[..i] == order[..i];
      assert order[..|order|] == order;
    }
  }

  /** The resolved ids when the queue runs dry. */
  ghost predicate Drained(nodes: seq<TaskNode>, order: seq<string>) {
    && NoDuplicates(order) && Members(order) <= IdsOf(nodes) && Upward(nodes, order)
    && forall x :: x in IdsOf(nodes) && Needs(nodes, x) <= Members(order) ==> x in order
  }

  lemma DrainedAll(nodes: seq<TaskNode>, order: seq<string>)
    requires DistinctNodes(nodes) && Drained(nodes, order) && |order| == |nodes|
    ensures Acyclic(nodes)
    ensures !exists walk :: IsCycle(nodes, walk)
  {
    NodeCount(nodes);
    DistinctLength(order);
    SubsetSize(Members(order), IdsOf(nodes));
    assert IsOrder(nodes, order);
    forall walk ensures !IsCycle(nodes, walk) {
      OrderedHasNoCycle(nodes, order, walk);
    }
  }

  lemma LeftoversStuck(nodes: seq<TaskNode>, order: seq<string>)
    requires Drained(nodes, order)
    ensures Stuck(nodes, IdsOf(nodes) - Members(order))
  {
    var stuck := IdsOf(nodes) - Members(order);
    forall x | x in stuck ensures HasNext(nodes, stuck, x) {
      assert x !in order;
      assert !(Needs(nodes, x) <= Members(order));
      var next :| next in Needs(nodes, x) && next !in Members(order);
      assert next in stuck;
    }
  }

  lemma StartsWalk(nodes: seq<TaskNode>, stuck: set<string>, start: string)
    requires stuck <= IdsOf(nodes) && start in stuck
    ensures NoDuplicates([start]) && Members([start]) <= stuck && IsWalk(nodes, [start])
  {
  }

  /** With the queue dry, the ids left over are stuck on one another. */
  lemma DrainedSome(nodes: seq<TaskNode>, order: seq<string>)
    requires DistinctNodes(nodes) && Drained(nodes, order) && |order| != |nodes|
    ensures exists walk :: IsCycle(nodes, walk)
    ensures !Acyclic(nodes)
  {
    NodeCount(nodes);
    DistinctLength(order);
    LeftoversStuck(nodes, order);
    var stuck := IdsOf(nodes) - Members(order);
    assert IdsOf(nodes) == Members(order) + stuck;
    var start :| start in stuck;
    StartsWalk(nodes, stuck, start);
    var walk := StuckHasCycle(nodes, stuck, [start]);
    CycleForbidsOrder(nodes, walk);
  }

  lemma CycleForbidsOrder(nodes: seq<TaskNode>, walk: seq<string>)
    requires IsCycle(nodes, walk)
    ensures !Acyclic(nodes)
  {
    if order :| IsOrder(nodes, order) {
      OrderedHasNoCycle(nodes, order, walk);
    }
  }

  /** A dependency listed twice counts once. */
  function Degree(node: TaskNode, ids: set<string>): nat {
    |set d | d in node.deps && d in ids|
  }

  lemma DegreeOfNode(nodes: seq<TaskNode>, k: nat)
    requires DistinctNodes(nodes) && k < |nodes|
    ensures nodes[k].id in IdsOf(nodes) && Waiting(nodes, nodes[k].id, {}) == Degree(nodes[k], IdsOf(nodes))
  {
    NeedsOfNode(nodes, k);
    IdAt(nodes, k);
    assert Needs(nodes, nodes[k].id) - {} == Needs(nodes, nodes[k].id);
  }

  lemma DegreesAtStart(nodes: seq<TaskNode>)
    requires DistinctNodes(nodes)
    ensures Degrees(nodes, {}).Keys == IdsOf(nodes)
    ensures forall k :: 0 <= k < |nodes| ==>
              nodes[k].id in Degrees(nodes, {}) && Degrees(nodes, {})[nodes[k].id] == Degree(nodes[k], IdsOf(nodes))
  {
    forall k | 0 <= k < |nodes|
      ensures nodes[k].id in Degrees(nodes, {}) && Degrees(nodes, {})[nodes[k].id] == Degree(nodes[k], IdsOf(nodes))
    {
      DegreeAt(nodes, {}, k);
      DegreeOfNode(nodes, k);
    }
  }

  method InDegrees(nodes: seq<TaskNode>, ghost degrees: map<string, nat>) returns (indegree: map<string, nat>)
    requires degrees.Keys == IdsOf(nodes)
    requires forall k :: 0 <= k < |nodes| ==>
        nodes[k].id in degrees && degrees[nodes[k].id] == Degree(nodes[k], IdsOf(nodes))
    ensures indegree == degrees
  {
    var ids := IdsOf(nodes);
    indegree := map[];
    for k := 0 to |nodes|
      invariant forall x :: x in indegree ==> x in degrees && indegree[x] == degrees[x]
      invariant forall j :: 0 <= j < k ==> nodes[j].id in indegree
    {
      var degree := Degree(nodes[k], ids);
      indegree := indegree[nodes[k].id := degree];
    }
    forall x | x in degrees ensures x in indegree {
      var j := NodeOf(nodes, x);
    }
  }

  /** A hash map lists its keys in any order. */
  method ReadyQueue(indegree: map<string, nat>) returns (queue: seq<string>)
    ensures Queued(indegree, [], queue)
  {
    queue := [];
    var keys := indegree.Keys;
    while keys != {}
      invariant keys <= indegree.Keys
      invariant NoDuplicates([] + queue)
      invariant forall x :: x in [] + queue <==> x in indegree && x !in keys && indegree[x] == 0
    {
      var key :| key in keys;
      keys := keys - {key};
      if indegree[key] == 0 {
        PushZero([], queue, key);
        queue := queue + [key];
      }
    }
  }

  /** Tell every dependent of `id` that it resolved, queueing those it was the last to hold back. */
  method Release(nodes: seq<TaskNode>, indegree: map<string, nat>, queue: seq<string>, id: string,
                 ghost order: seq<string>, ghost after: map<string, nat>)
    returns (indegree': map<string, nat>, queue': seq<string>)
    requires DistinctNodes(nodes) && indegree.Keys == after.Keys == IdsOf(nodes)
    requires Drops(nodes, indegree, after, id)
    requires Queued(indegree, order, queue)
    ensures indegree' == after
    ensures Queued(indegree', order, queue')
  {
    indegree', queue' := indegree, queue;
    assert Told(nodes, indegree', indegree, after, 0) by {
      forall j | 0 <= j < |nodes| ensures nodes[j].id in indegree {
        assert DropsAt(indegree, after, nodes[j], id);
      }
    }
    for k := 0 to |nodes|
      invariant Told(nodes, indegree', indegree, after, k)
      invariant Queued(indegree', order, queue')
    {
      assert DropsAt(indegree, after, nodes[k], id);
      if id in nodes[k].deps {
        if nodes[k].id in indegree' {
          QueuedDrop(indegree', order, queue', nodes[k].id);
          var deg := indegree'[nodes[k].id];
          indegree' := indegree'[nodes[k].id := deg - 1];
          if deg - 1 == 0 {
            queue' := queue' + [nodes[k].id];
          }
        }
      }
    }
    ToldAll(nodes, indegree', indegree, after);
  }

  method HasCycle(nodes: seq<TaskNode>) returns (cyclic: bool)
    requires DistinctNodes(nodes)
    ensures cyclic <==> exists walk :: IsCycle(nodes, walk)
    ensures !cyclic <==> Acyclic(nodes)
  {
    DegreesAtStart(nodes);
    var indegree := InDegrees(nodes, Degrees(nodes, {}));
    var queue := ReadyQueue(indegree);
    var resolved := 0;
    ghost var order: seq<string> := [];
    assert Members(order) == {};
    while queue != []
      invariant resolved == |order|
      invariant indegree == Degrees(nodes, Members(order))
      invariant Queued(indegree, order, queue)
      invariant Upward(nodes, order)
      decreases |IdsOf(nodes)| - |order|
    {
      var id := queue[|queue| - 1];
      Resolves(nodes, indegree, order, queue);
      ResolvesDegrees(nodes, order, id);
      order, resolved := order + [id], resolved + 1;
      indegree, queue := Release(nodes, indegree, queue[..|queue| - 1], id, order, Degrees(nodes, Members(order)));
    }
    cyclic := resolved != |nodes|;
    QueueDry(nodes, indegree, order);
    if |order| == |nodes| {
      DrainedAll(nodes, order);
    } else {
      DrainedSome(nodes, order);
    }
  }

  /** Popping an id off the queue extends the order. */
  lemma Resolves(nodes: seq<TaskNode>, indegree: map<string, nat>, order: seq<string>, queue: seq<string>)
    requires queue != []
    requires indegree == Degrees(nodes, Members(order)) && Queued(indegree, order, queue) && Upward(nodes, order)
    ensures var id := queue[|queue| - 1];
            && Queued(indegree, order + [id], queue[..|queue| - 1]) && Upward(nodes, order + [id])
            && id in IdsOf(nodes) && id !in order && |order| < |IdsOf(nodes)|
  {
    assert indegree.Keys == IdsOf(nodes);
    PopQueued(indegree, order, queue);
    NothingWaiting(nodes, queue[|queue| - 1], Members(order));
    PopUpward(nodes, order, queue[|queue| - 1]);
  }

  /** And tells `Release` which counters to reach. */
  lemma ResolvesDegrees(nodes: seq<TaskNode>, order: seq<string>, id: string)
    requires DistinctNodes(nodes) && id in IdsOf(nodes) && id !in order
    ensures Drops(nodes, Degrees(nodes, Members(order)), Degrees(nodes, Members(order + [id])), id)
    ensures Degrees(nodes, Members(order)).Keys == Degrees(nodes, Members(order + [id])).Keys == IdsOf(nodes)
  {
    MembersNext(order, id);
    DegreesDrop(nodes, Members(order), id);
    DegreeKeys(nodes, Members(order));
    DegreeKeys(nodes, Members(order + [id]));
  }

  lemma QueueDry(nodes: seq<TaskNode>, indegree: map<string, nat>, order: seq<string>)
    requires indegree == Degrees(nodes, Members(order)) && Queued(indegree, order, []) && Upward(nodes, order)
    ensures Drained(nodes, order)
  {
    assert order + [] == order;
    forall x | x in IdsOf(nodes) && Needs(nodes, x) <= Members(order) ensures x in order {
      NothingWaiting(nodes, x, Members(order));
      assert indegree[x] == 0;
    }
  }
}
