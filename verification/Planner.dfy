/**
 The master plan of crates/apohara-dispatch/src/planner.rs. The heuristics that derive work
 areas from an objective are a parameter; everything after them is modelled.
 */
module Planner {
  import opened Sorting
  import opened Cycles
  import opened Slugs
  import opened TaskGraphs

  ghost predicate IsLinear(objective: string, nodes: seq<TaskNode>) {
    nodes == [
      TaskNode("plan", "Plan: " + objective, []),
      TaskNode("implement", "Implement: " + objective, ["plan"]),
      TaskNode("verify", "Verify the implementation", ["implement"])]
  }

  /** The id of a slice: the first candidate for its area that no earlier slice took. */
  ghost predicate IsSliceId(area: string, taken: seq<string>, id: string) {
    exists n :: TakesCandidate(area, taken, id, n)
  }

  ghost predicate TakesCandidate(area: string, taken: seq<string>, id: string, n: nat) {
    && n >= 1 && id == Candidate(SlugOf(area), n) && id !in taken
    && forall m :: 1 <= m < n ==> Candidate(SlugOf(area), m) in taken
  }

  /** One slice per area, in order, each gated on "plan" alone; `ids` are the slice ids. */
  ghost predicate AreSlices(areas: seq<string>, ids: seq<string>, slices: seq<TaskNode>) {
    && |slices| == |ids| == |areas|
    && forall i :: 0 <= i < |ids| ==>
         IsSliceId(areas[i], ids[..i], ids[i]) && slices[i] == TaskNode(ids[i], "Implement: " + areas[i], ["plan"])
  }

  ghost predicate IsFanOut(objective: string, areas: seq<string>, ids: seq<string>, nodes: seq<TaskNode>) {
    && |nodes| == |areas| + 2
    && nodes[0] == TaskNode("plan", "Plan: " + objective, [])
    && AreSlices(areas, ids, nodes[1..|areas| + 1])
    && nodes[|areas| + 1] == TaskNode("integrate", "Integrate all slices", ids)
  }

  ghost predicate IsPlan(objective: string, areas: seq<string>, nodes: seq<TaskNode>) {
    if |areas| < 2 then IsLinear(objective, nodes) else exists ids :: IsFanOut(objective, areas, ids, nodes)
  }

  /** Try candidates until one is free: there are infinitely many, and only finitely many are used. */
  method UniqueId(area: string, taken: seq<string>) returns (id: string)
    ensures IsSliceId(area, taken, id)
  {
    var slug := Slug(area);
    id := "impl-" + slug;
    var n := 1;
    var used := set x | x in taken;
    ghost var tried: set<string> := {};
    while id in used
      invariant n >= 1 && id == Candidate(slug, n)
      invariant forall m :: 1 <= m < n ==> Candidate(slug, m) in taken
      invariant tried <= used && forall x :: x in tried ==> exists m :: 1 <= m < n && x == Candidate(slug, m)
      decreases |used - tried|
    {
      if id in tried {
        var m :| 1 <= m < n && id == Candidate(slug, m);
        CandidateInjective(slug, m, n);
      }
      ghost var left := used - tried;
      tried := tried + {id};
      assert used - tried == left - {id};
      n := n + 1;
      id := "impl-" + slug + "-" + Decimal(n);
    }
    assert TakesCandidate(area, taken, id, n);
  }

  /** Explicit areas win over derived ones; fewer than two areas give the three-step chain. */
  method PlanMaster(objective: string, areas: seq<string>, derive: string -> seq<string>) returns (nodes: seq<TaskNode>)
    ensures IsPlan(objective, if areas == [] then derive(objective) else areas, nodes)
  {
    var derived := if areas == [] then derive(objective) else areas;
    var plan := TaskNode("plan", "Plan: " + objective, []);
    if |derived| < 2 {
      return [plan,
              TaskNode("implement", "Implement: " + objective, ["plan"]),
              TaskNode("verify", "Verify the implementation", ["implement"])];
    }
    nodes := [plan];
    var ids: seq<string> := [];
    for i := 0 to |derived|
      invariant |nodes| == i + 1 && nodes[0] == plan
      invariant AreSlices(derived[..i], ids, nodes[1..])
    {
      var id := UniqueId(derived[i], ids);
      SliceAdded(derived[..i], ids, nodes[1..], derived[i], id);
      assert derived[..i + 1] == derived[..i] + [derived[i]];
      var slice := TaskNode(id, "Implement: " + derived[i], ["plan"]);
      assert (nodes + [slice])[1..] == nodes[1..] + [slice];
      nodes := nodes + [slice];
      ids := ids + [id];
    }
    assert derived[..|derived|] == derived;
    assert (nodes + [TaskNode("integrate", "Integrate all slices", ids)])[1..|derived| + 1] == nodes[1..];
    nodes := nodes + [TaskNode("integrate", "Integrate all slices", ids)];
    assert IsFanOut(objective, derived, ids, nodes);
  }

  lemma SliceAdded(areas: seq<string>, ids: seq<string>, slices: seq<TaskNode>, area: string, id: string)
    requires AreSlices(areas, ids, slices) && IsSliceId(area, ids, id)
    ensures AreSlices(areas + [area], ids + [id], slices + [TaskNode(id, "Implement: " + area, ["plan"])])
  {
    var areas', ids' := areas + [area], ids + [id];
    forall i | 0 <= i < |ids'| ensures IsSliceId(areas'[i], ids'[..i], ids'[i]) {
      if i < |ids| {
        assert ids'[..i] == ids[..i];
      } else {
        assert ids'[..i] == ids;
      }
    }
  }

  /** What the steps are called: after the objective, after their areas, or after what closes the plan. */
  lemma PlanTitles(objective: string, areas: seq<string>, nodes: seq<TaskNode>)
    requires IsPlan(objective, areas, nodes)
    ensures |nodes| == (if |areas| < 2 then 3 else |areas| + 2)
    ensures nodes[0].title == "Plan: " + objective
    ensures |areas| < 2 ==> nodes[1].title == "Implement: " + objective && nodes[2].title == "Verify the implementation"
    ensures |areas| >= 2 ==>
              && (forall i :: 0 <= i < |areas| ==> nodes[i + 1].title == "Implement: " + areas[i])
              && nodes[|areas| + 1].title == "Integrate all slices"
  {
    if |areas| >= 2 {
      var ids :| IsFanOut(objective, areas, ids, nodes);
      forall i | 0 <= i < |areas| ensures nodes[i + 1].title == "Implement: " + areas[i] {
        assert nodes[i + 1] == nodes[1..|areas| + 1][i];
      }
    }
  }

  /**
   A slice is named after its area, bare unless an earlier slice has that name, and then with the first
   number from 2 up that no earlier slice has.
   */
  lemma SliceNames(objective: string, areas: seq<string>, ids: seq<string>, nodes: seq<TaskNode>, i: nat)
    requires IsFanOut(objective, areas, ids, nodes) && i < |areas|
    ensures |ids| == |areas| && nodes[i + 1].id == ids[i] && ids[i] !in ids[..i]
    ensures var stem := "impl-" + SlugOf(areas[i]);
            if stem !in ids[..i] then ids[i] == stem else exists n: nat :: IsNumbered(stem, ids[..i], ids[i], n)
  {
    assert nodes[i + 1] == nodes[1..|areas| + 1][i];
    assert IsSliceId(areas[i], ids[..i], ids[i]);
    var n: nat :| TakesCandidate(areas[i], ids[..i], ids[i], n);
    var stem := "impl-" + SlugOf(areas[i]);
    assert Candidate(SlugOf(areas[i]), 1) == stem;
    forall m | 2 <= m < n ensures stem + "-" + Decimal(m) in ids[..i] {
      assert Candidate(SlugOf(areas[i]), m) == stem + "-" + Decimal(m);
    }
    if n > 1 {
      assert IsNumbered(stem, ids[..i], ids[i], n);
    }
  }

  ghost predicate IsNumbered(stem: string, taken: seq<string>, id: string, n: nat) {
    n >= 2 && id == stem + "-" + Decimal(n) && forall m :: 2 <= m < n ==> stem + "-" + Decimal(m) in taken
  }

  // ---- every plan is a DAG in list order ----------------------------------------------------

  ghost function Names(nodes: seq<TaskNode>): (names: seq<string>)
    ensures |names| == |nodes| && forall i :: 0 <= i < |nodes| ==> names[i] == nodes[i].id
  {
    seq(|nodes|, i requires 0 <= i < |nodes| => nodes[i].id)
  }

  /** Distinct ids, and every dependency earlier in the list. */
  ghost predicate Backward(nodes: seq<TaskNode>) {
    && DistinctNodes(nodes)
    && forall i :: 0 <= i < |nodes| ==> forall d :: d in nodes[i].deps ==> d in Names(nodes)[..i]
  }

  lemma SliceIdsDistinct(areas: seq<string>, ids: seq<string>, slices: seq<TaskNode>)
    requires AreSlices(areas, ids, slices)
    ensures NoDuplicates(ids)
    ensures forall i :: 0 <= i < |ids| ==> |ids[i]| >= 5 && ids[i][..5] == "impl-"
  {
    forall i | 0 <= i < |ids| ensures |ids[i]| >= 5 && ids[i][..5] == "impl-" {
      assert IsSliceId(areas[i], ids[..i], ids[i]);
      var n :| TakesCandidate(areas[i], ids[..i], ids[i], n);
    }
    forall i, j | 0 <= i < j < |ids| ensures ids[i] != ids[j] {
      assert IsSliceId(areas[j], ids[..j], ids[j]);
      assert ids[..j][i] == ids[i];
    }
  }

  /** Slice ids begin like no other id of a plan. */
  lemma NotASlice(id: string)
    requires |id| >= 5 && id[..5] == "impl-"
    ensures id != "plan" && id != "integrate"
  {
    assert id[..5][0] == id[0] && id[..5][1] == id[1];
    assert "plan"[0] == 'p' && "integrate"[1] == 'n';
  }

  lemma FanOutNames(objective: string, areas: seq<string>, ids: seq<string>, nodes: seq<TaskNode>)
    requires IsFanOut(objective, areas, ids, nodes)
    ensures Names(nodes) == ["plan"] + ids + ["integrate"]
    ensures NoDuplicates(Names(nodes))
  {
    var slices := nodes[1..|areas| + 1];
    var names := Names(nodes);
    SliceIdsDistinct(areas, ids, slices);
    assert forall i :: 0 <= i < |ids| ==> nodes[i + 1] == slices[i];
    assert names == ["plan"] + ids + ["integrate"];
    forall i | 0 <= i < |ids| ensures ids[i] != "plan" && ids[i] != "integrate" {
      NotASlice(ids[i]);
    }
    BetweenEnds("plan", ids, "integrate");
  }

  lemma BetweenEnds(first: string, ids: seq<string>, last: string)
    requires NoDuplicates(ids) && first !in ids && last !in ids && first != last
    ensures NoDuplicates([first] + ids + [last])
  {
    var all := [first] + ids + [last];
    forall i, j | 0 <= i < j < |all| ensures all[i] != all[j] {
      assert 0 < i && j <= |ids| ==> all[i] == ids[i - 1] && all[j] == ids[j - 1];
    }
  }

  lemma FanOutBackward(objective: string, areas: seq<string>, ids: seq<string>, nodes: seq<TaskNode>)
    requires IsFanOut(objective, areas, ids, nodes)
    ensures Backward(nodes)
    ensures Names(nodes) == ["plan"] + ids + ["integrate"]
  {
    FanOutNames(objective, areas, ids, nodes);
    var names := Names(nodes);
    forall i, j | 0 <= i < j < |nodes| ensures nodes[i].id != nodes[j].id {
      assert names[i] == nodes[i].id && names[j] == nodes[j].id;
    }
    forall i | 0 <= i < |nodes| ensures forall d :: d in nodes[i].deps ==> d in names[..i] {
      if 0 < i <= |ids| {
        assert nodes[i] == nodes[1..|areas| + 1][i - 1];
        assert names[..i][0] == "plan";
      } else if i > 0 {
        assert names[..i] == ["plan"] + ids;
      }
    }
  }

  lemma PlanBackward(objective: string, areas: seq<string>, nodes: seq<TaskNode>)
    requires IsPlan(objective, areas, nodes)
    ensures Backward(nodes) && |nodes| >= 3
  {
    if |areas| < 2 {
      assert "plan"[0] == 'p' && "implement"[0] == 'i' && "verify"[0] == 'v';
      assert Names(nodes) == ["plan", "implement", "verify"];
      assert Names(nodes)[..1] == ["plan"] && Names(nodes)[..2] == ["plan", "implement"];
    } else {
      var ids :| IsFanOut(objective, areas, ids, nodes);
      FanOutBackward(objective, areas, ids, nodes);
    }
  }

  lemma BackwardPrefix(nodes: seq<TaskNode>, n: nat)
    requires Backward(nodes) && n <= |nodes|
    ensures Backward(nodes[..n]) && Acyclic(nodes[..n])
  {
    var part := nodes[..n];
    forall i | 0 <= i < n ensures Names(part)[..i] == Names(nodes)[..i] {
    }
    BackwardDepsAcyclic(part, Names(part));
  }

  // ---- putting a plan into a graph ------------------------------------------------------------

  /** The graph after the plan's nodes went in one by one. */
  ghost function PlacedAll(nodes: seq<TaskNode>, plan: seq<TaskNode>): seq<TaskNode> {
    if plan == [] then nodes else Placed(PlacedAll(nodes, plan[..|plan| - 1]), plan[|plan| - 1])
  }

  lemma PlacedAllNext(nodes: seq<TaskNode>, plan: seq<TaskNode>, i: nat)
    requires i < |plan|
    ensures Placed(PlacedAll(nodes, plan[..i]), plan[i]) == PlacedAll(nodes, plan[..i + 1])
  {
    assert plan[..i + 1][..i] == plan[..i];
  }

  /** The plan's nodes, and every other node as it was. */
  lemma {:induction false} PlacedAllMembers(nodes: seq<TaskNode>, plan: seq<TaskNode>)
    requires DistinctNodes(nodes) && DistinctNodes(plan)
    ensures DistinctNodes(PlacedAll(nodes, plan))
    ensures forall n :: n in PlacedAll(nodes, plan) <==> n in plan || (n in nodes && n.id !in Names(plan))
  {
    if plan == [] {
    } else {
      var rest, last := plan[..|plan| - 1], plan[|plan| - 1];
      PlacedAllMembers(nodes, rest);
      PlacedKeepsDistinct(PlacedAll(nodes, rest), last);
      NamesNext(rest, last);
      assert plan == rest + [last];
      forall n | n in rest ensures n.id != last.id {
        var j :| 0 <= j < |rest| && rest[j] == n;
        assert plan[j] == n;
      }
    }
  }

  lemma NamesNext(nodes: seq<TaskNode>, node: TaskNode)
    ensures Names(nodes + [node]) == Names(nodes) + [node.id]
  {
  }

  /** Nothing moves: each place keeps its id, and its node too unless the plan has one of that id. */
  lemma {:induction false} PlacedAllInPlace(nodes: seq<TaskNode>, plan: seq<TaskNode>, k: nat)
    requires k < |nodes|
    ensures k < |PlacedAll(nodes, plan)| && PlacedAll(nodes, plan)[k].id == nodes[k].id
    ensures nodes[k].id !in Names(plan) ==> PlacedAll(nodes, plan)[k] == nodes[k]
  {
    if plan == [] {
    } else {
      var rest, last := plan[..|plan| - 1], plan[|plan| - 1];
      PlacedAllInPlace(nodes, rest, k);
      NamesNext(rest, last);
      assert plan == rest + [last];
      PlacedInPlace(PlacedAll(nodes, rest), last, k);
    }
  }

  lemma {:induction false} PlacedInPlace(nodes: seq<TaskNode>, node: TaskNode, k: nat)
    requires k < |nodes|
    ensures k < |Placed(nodes, node)| && Placed(nodes, node)[k].id == nodes[k].id
    ensures nodes[k].id != node.id ==> Placed(nodes, node)[k] == nodes[k]
  {
    if k > 0 && nodes[0].id != node.id {
      PlacedInPlace(nodes[1..], node, k - 1);
    }
  }

  /** Into an empty graph a plan goes as it is. */
  lemma {:induction false} PlacedAllIntoEmpty(plan: seq<TaskNode>)
    requires DistinctNodes(plan)
    ensures PlacedAll([], plan) == plan
  {
    if plan == [] {
    } else {
      var rest, last := plan[..|plan| - 1], plan[|plan| - 1];
      assert forall i :: 0 <= i < |rest| ==> rest[i] == plan[i];
      PlacedAllIntoEmpty(rest);
      PlacedAt(rest, last, |rest|);
      assert plan == rest + [last];
    }
  }

  // ---- no plan closes a cycle, whatever the graph holds -----------------------------------------

  /** The ids of the order that are not in `gone`. */
  ghost function Without(order: seq<string>, gone: set<string>): (kept: seq<string>)
    ensures forall x :: x in kept <==> x in order && x !in gone
  {
    if order == [] then []
    else
      var rest, last := Without(order[..|order| - 1], gone), order[|order| - 1];
      assert order == order[..|order| - 1] + [last];
      if last in gone then rest else rest + [last]
  }

  lemma {:induction false} WithoutDistinct(order: seq<string>, gone: set<string>)
    requires NoDuplicates(order)
    ensures NoDuplicates(Without(order, gone))
  {
    if order != [] {
      assert forall i :: 0 <= i < |order| - 1 ==> order[..|order| - 1][i] == order[i];
      WithoutDistinct(order[..|order| - 1], gone);
    }
  }

  /** What comes before a kept id is what was kept of all that came before it. */
  lemma {:induction false} KeptFrom(order: seq<string>, gone: set<string>, j: nat) returns (i: nat)
    requires j < |Without(order, gone)|
    ensures i < |order| && order[i] == Without(order, gone)[j]
    ensures Without(order, gone)[..j] == Without(order[..i], gone)
  {
    var rest := order[..|order| - 1];
    if j < |Without(rest, gone)| {
      i := KeptFrom(rest, gone, j);
      assert rest[..i] == order[..i];
      assert Without(order, gone)[..j] == Without(rest, gone)[..j];
    } else {
      i := |order| - 1;
    }
  }

  /** A new order: the plan first, then what is left of the old one. */
  ghost function Reordered(plan: seq<TaskNode>, order: seq<string>): seq<string> {
    Names(plan) + Without(order, Members(Names(plan)))
  }

  lemma IdsOfMembers(nodes: seq<TaskNode>, id: string)
    ensures id in IdsOf(nodes) <==> exists n :: n in nodes && n.id == id
  {
    if id in IdsOf(nodes) {
      var k := NodeOf(nodes, id);
      assert nodes[k] in nodes;
    }
    if n :| n in nodes && n.id == id {
      var k :| 0 <= k < |nodes| && nodes[k] == n;
      IdAt(nodes, k);
    }
  }

  lemma NamesDistinct(plan: seq<TaskNode>)
    requires DistinctNodes(plan)
    ensures NoDuplicates(Names(plan))
  {
    forall i, j | 0 <= i < j < |plan| ensures Names(plan)[i] != Names(plan)[j] {
      assert plan[i].id != plan[j].id;
    }
  }

  lemma DistinctJoin(a: seq<string>, b: seq<string>)
    requires NoDuplicates(a) && NoDuplicates(b) && forall x :: x in b ==> x !in a
    ensures NoDuplicates(a + b)
  {
    forall i, j | 0 <= i < j < |a + b| ensures (a + b)[i] != (a + b)[j] {
      if i < |a| <= j {
        assert b[j - |a|] in b;
      }
    }
  }

  lemma ReorderedHasAll(nodes: seq<TaskNode>, plan: seq<TaskNode>, order: seq<string>)
    requires DistinctNodes(nodes) && DistinctNodes(plan) && IsOrder(nodes, order)
    ensures NoDuplicates(Reordered(plan, order)) && Members(Reordered(plan, order)) == IdsOf(PlacedAll(nodes, plan))
  {
    var names, kept := Names(plan), Without(order, Members(Names(plan)));
    WithoutDistinct(order, Members(names));
    NamesDistinct(plan);
    DistinctJoin(names, kept);
    PlacedAllMembers(nodes, plan);
    forall x ensures x in Reordered(plan, order) <==> x in IdsOf(PlacedAll(nodes, plan)) {
      IdsOfMembers(PlacedAll(nodes, plan), x);
      IdsOfMembers(nodes, x);
      assert x in order <==> x in Members(order);
      PlanIds(plan, x);
    }
  }

  lemma PlanIds(plan: seq<TaskNode>, x: string)
    ensures x in Names(plan) <==> exists n :: n in plan && n.id == x
  {
    if x in Names(plan) {
      var j :| 0 <= j < |plan| && Names(plan)[j] == x;
      assert plan[j] in plan;
    }
    if n :| n in plan && n.id == x {
      var j :| 0 <= j < |plan| && plan[j] == n;
      assert Names(plan)[j] == x;
    }
  }

  /** Only the plan's own nodes come before one of them. */
  lemma PlanNeeds(nodes: seq<TaskNode>, plan: seq<TaskNode>, i: nat)
    requires DistinctNodes(nodes) && Backward(plan) && i < |plan|
    ensures Needs(PlacedAll(nodes, plan), plan[i].id) <= Members(Names(plan)[..i])
  {
    var all := PlacedAll(nodes, plan);
    PlacedAllMembers(nodes, plan);
    forall d | d in Needs(all, plan[i].id) ensures d in Names(plan)[..i] {
      var k :| 0 <= k < |all| && all[k].id == plan[i].id && d in all[k].deps;
      assert all[k] in all && Names(plan)[i] == plan[i].id;
      var j :| 0 <= j < |plan| && plan[j] == all[k];
      assert j == i;
    }
  }

  /** What an old node needs came before it already, or is the plan's. */
  lemma OldNeeds(nodes: seq<TaskNode>, plan: seq<TaskNode>, order: seq<string>, i: nat, d: string)
    requires DistinctNodes(nodes) && DistinctNodes(plan) && IsOrder(nodes, order)
    requires i < |order| && order[i] !in Names(plan) && NeedsId(PlacedAll(nodes, plan), order[i], d)
    ensures d in Names(plan) || d in Without(order[..i], Members(Names(plan)))
  {
    var all := PlacedAll(nodes, plan);
    PlacedAllMembers(nodes, plan);
    var k :| 0 <= k < |all| && all[k].id == order[i] && d in all[k].deps;
    assert all[k] in all;
    PlanIds(plan, order[i]);
    if d !in Names(plan) {
      IdsOfMembers(all, d);
      IdsOfMembers(nodes, d);
      PlanIds(plan, d);
      var j :| 0 <= j < |nodes| && nodes[j] == all[k];
      assert NeedsId(nodes, order[i], d);
      assert d in Needs(nodes, order[i]);
    }
  }

  lemma PlanUpward(nodes: seq<TaskNode>, plan: seq<TaskNode>, order: seq<string>, i: nat)
    requires DistinctNodes(nodes) && Backward(plan) && i < |plan|
    ensures Needs(PlacedAll(nodes, plan), Reordered(plan, order)[i]) <= Members(Reordered(plan, order)[..i])
  {
    PlanNeeds(nodes, plan, i);
    assert Reordered(plan, order)[..i] == Names(plan)[..i];
  }

  lemma OldUpward(nodes: seq<TaskNode>, plan: seq<TaskNode>, order: seq<string>, j: nat)
    requires DistinctNodes(nodes) && DistinctNodes(plan) && IsOrder(nodes, order)
    requires j < |Without(order, Members(Names(plan)))|
    ensures Needs(PlacedAll(nodes, plan), Without(order, Members(Names(plan)))[j])
         <= Members(Names(plan) + Without(order, Members(Names(plan)))[..j])
  {
    var gone := Members(Names(plan));
    var x := Without(order, gone)[j];
    var o := KeptFrom(order, gone, j);
    assert x in Without(order, gone) && x !in gone;
    forall d | d in Needs(PlacedAll(nodes, plan), x) ensures d in Names(plan) + Without(order, gone)[..j] {
      OldNeeds(nodes, plan, order, o, d);
    }
  }

  lemma ReorderedUpward(nodes: seq<TaskNode>, plan: seq<TaskNode>, order: seq<string>, i: nat)
    requires DistinctNodes(nodes) && Backward(plan) && IsOrder(nodes, order) && i < |Reordered(plan, order)|
    ensures Needs(PlacedAll(nodes, plan), Reordered(plan, order)[i]) <= Members(Reordered(plan, order)[..i])
  {
    var kept := Without(order, Members(Names(plan)));
    if i < |plan| {
      PlanUpward(nodes, plan, order, i);
    } else {
      OldUpward(nodes, plan, order, i - |plan|);
      assert Reordered(plan, order)[..i] == Names(plan) + kept[..i - |plan|];
    }
  }

  /** The plan depends on nothing but itself, so it cannot close a cycle through the nodes already there. */
  lemma ReplanAcyclic(nodes: seq<TaskNode>, plan: seq<TaskNode>)
    requires DistinctNodes(nodes) && Acyclic(nodes) && Backward(plan)
    ensures Acyclic(PlacedAll(nodes, plan))
  {
    var order :| IsOrder(nodes, order);
    ReorderedHasAll(nodes, plan, order);
    forall i | 0 <= i < |Reordered(plan, order)|
      ensures Needs(PlacedAll(nodes, plan), Reordered(plan, order)[i]) <= Members(Reordered(plan, order)[..i])
    {
      ReorderedUpward(nodes, plan, order, i);
    }
    assert IsOrder(PlacedAll(nodes, plan), Reordered(plan, order));
  }

  /** Each node of the plan in turn is accepted. */
  lemma PlanStep(nodes: seq<TaskNode>, plan: seq<TaskNode>, i: nat)
    requires DistinctNodes(nodes) && Acyclic(nodes) && Backward(plan) && i < |plan|
    ensures Placed(PlacedAll(nodes, plan[..i]), plan[i]) == PlacedAll(nodes, plan[..i + 1])
    ensures Acyclic(Placed(PlacedAll(nodes, plan[..i]), plan[i]))
    ensures Names(plan)[..i + 1] == Names(plan)[..i] + [plan[i].id]
  {
    BackwardPrefix(plan, i + 1);
    PlacedAllNext(nodes, plan, i);
    ReplanAcyclic(nodes, plan[..i + 1]);
  }

  /** The graph once the first `i` nodes of the plan went in; none goes into an unreadable one. */
  ghost predicate PlanSoFar(before: GraphFile, plan: seq<TaskNode>, i: nat, file: GraphFile)
    requires i <= |plan|
  {
    if i == 0 then file == before
    else !before.BadGraph? && file == Graph(PlacedAll(NodesOf(before), plan[..i]), DoneOf(before))
  }

  /** The next node is accepted, unless the graph cannot be read. */
  lemma PlanGoesOn(before: GraphFile, plan: seq<TaskNode>, i: nat, file: GraphFile)
    requires DistinctNodes(NodesOf(before)) && Acyclic(NodesOf(before)) && Backward(plan)
    requires i < |plan| && PlanSoFar(before, plan, i, file)
    ensures before.BadGraph? ==> file == before
    ensures !before.BadGraph? ==>
              && !file.BadGraph? && Acyclic(Placed(NodesOf(file), plan[i]))
              && PlanSoFar(before, plan, i + 1, Graph(Placed(NodesOf(file), plan[i]), DoneOf(file)))
    ensures Names(plan)[..i + 1] == Names(plan)[..i] + [plan[i].id]
  {
    assert plan[..0] == [];
    PlanStep(NodesOf(before), plan, i);
  }

  lemma PlanIsIn(before: GraphFile, plan: seq<TaskNode>, file: GraphFile)
    requires DistinctNodes(plan) && plan != [] && PlanSoFar(before, plan, |plan|, file)
    ensures !before.BadGraph? && file == Graph(PlacedAll(NodesOf(before), plan), DoneOf(before))
    ensures before.NoGraph? ==> file == Graph(plan, [])
  {
    assert plan[..|plan|] == plan;
    PlacedAllIntoEmpty(plan);
  }

  datatype PlanAnswer = Planned(ids: seq<string>) | Rejected(answer: GraphAnswer)

  /** The nodes of a plan go in one by one. */
  method PlaceNodes(graph: TaskGraph, plan: seq<TaskNode>) returns (answer: PlanAnswer)
    requires graph.Valid() && Backward(plan) && plan != []
    modifies graph
    ensures graph.Valid()
    ensures old(graph.file).BadGraph? ==> answer == Rejected(GraphUnreadable) && graph.file == old(graph.file)
    ensures !old(graph.file).BadGraph? ==>
              answer == Planned(Names(plan)) && PlanSoFar(old(graph.file), plan, |plan|, graph.file)
  {
    ghost var before := graph.file;
    var ids: seq<string> := [];
    for i := 0 to |plan|
      invariant graph.Valid() && ids == Names(plan)[..i]
      invariant PlanSoFar(before, plan, i, graph.file)
    {
      PlanGoesOn(before, plan, i, graph.file);
      var stored := graph.AddNode(plan[i]);
      if stored != Stored {
        return Rejected(stored);
      }
      ids := ids + [plan[i].id];
    }
    return Planned(ids);
  }

  /**
   Into any readable graph a plan goes in whole, in place of nodes that bear its ids; no node of
   it is ever rejected, and what is done stays done.
   */
  method BuildMasterPlan(graph: TaskGraph, objective: string, areas: seq<string>, derive: string -> seq<string>)
    returns (answer: PlanAnswer, ghost nodes: seq<TaskNode>)
    requires graph.Valid()
    modifies graph
    ensures graph.Valid()
    ensures IsPlan(objective, if areas == [] then derive(objective) else areas, nodes)
    ensures old(graph.file).BadGraph? ==> answer == Rejected(GraphUnreadable) && graph.file == old(graph.file)
    ensures !old(graph.file).BadGraph? ==>
              && answer == Planned(Names(nodes))
              && graph.file == Graph(PlacedAll(NodesOf(old(graph.file)), nodes), DoneOf(old(graph.file)))
    ensures old(graph.file).NoGraph? ==> graph.file == Graph(nodes, [])
  {
    ghost var before := graph.file;
    var plan := PlanMaster(objective, areas, derive);
    nodes := plan;
    PlanBackward(objective, if areas == [] then derive(objective) else areas, nodes);
    answer := PlaceNodes(graph, plan);
    if !before.BadGraph? {
      PlanIsIn(before, plan, graph.file);
    }
  }

  // ---- the order in which a plan unlocks ------------------------------------------------------

  /** In a backward list, exactly the pending nodes whose dependencies are done are unlocked. */
  lemma UnlockedAre(nodes: seq<TaskNode>, done: set<string>, expected: set<string>)
    requires forall k :: 0 <= k < |nodes| ==> (Unblocked(nodes[k], done) <==> nodes[k].id in expected)
    requires DistinctNodes(nodes) && expected <= IdsOf(nodes)
    ensures UnlockedIds(nodes, done) == expected
  {
    forall id ensures id in UnlockedIds(nodes, done) <==> id in expected {
      if id in IdsOf(nodes) {
        var k := NodeOf(nodes, id);
        assert Unblocked(nodes[k], done) ==> IsUnlocked(nodes, done, id);
      }
    }
  }

  /** What a fan-out looks like to the scheduler. */
  ghost predicate FanShape(ids: seq<string>, nodes: seq<TaskNode>) {
    && |nodes| == |ids| + 2 && |ids| > 0 && DistinctNodes(nodes)
    && "plan" !in ids && "integrate" !in ids
    && nodes[0].id == "plan" && nodes[0].deps == []
    && (forall k :: 1 <= k <= |ids| ==> nodes[k].id in ids && nodes[k].deps == ["plan"])
    && nodes[|ids| + 1].id == "integrate" && nodes[|ids| + 1].deps == ids
    && IdsOf(nodes) == {"plan"} + Members(ids) + {"integrate"}
  }

  lemma IdsAreNames(nodes: seq<TaskNode>)
    ensures IdsOf(nodes) == Members(Names(nodes))
  {
    var names := Names(nodes);
    forall x | x in IdsOf(nodes) ensures x in names {
      var k := NodeOf(nodes, x);
      assert names[k] == x;
    }
    forall x | x in names ensures x in IdsOf(nodes) {
      var k :| 0 <= k < |names| && names[k] == x;
      IdAt(nodes, k);
    }
  }

  lemma FanOutShape(objective: string, areas: seq<string>, ids: seq<string>, nodes: seq<TaskNode>)
    requires IsFanOut(objective, areas, ids, nodes) && |areas| >= 2
    ensures FanShape(ids, nodes)
  {
    FanOutBackward(objective, areas, ids, nodes);
    FanOutNames(objective, areas, ids, nodes);
    IdsAreNames(nodes);
    NamesBetween(ids, Names(nodes));
    forall k | 1 <= k <= |ids| ensures nodes[k].id in ids && nodes[k].deps == ["plan"] {
      assert nodes[k] == nodes[1..|areas| + 1][k - 1];
    }
  }

  lemma NamesBetween(ids: seq<string>, names: seq<string>)
    requires names == ["plan"] + ids + ["integrate"] && NoDuplicates(names)
    ensures "plan" !in ids && "integrate" !in ids
    ensures Members(names) == {"plan"} + Members(ids) + {"integrate"}
  {
    forall i | 0 <= i < |ids| ensures ids[i] != "plan" && ids[i] != "integrate" {
      assert names[i + 1] == ids[i] && names[0] == "plan" && names[|ids| + 1] == "integrate";
    }
  }

  lemma FirstWave(ids: seq<string>, nodes: seq<TaskNode>)
    requires FanShape(ids, nodes)
    ensures UnlockedIds(nodes, {}) == {"plan"}
  {
    assert "plan" in ["plan"] && ids[0] in ids;
    UnlockedAre(nodes, {}, {"plan"});
  }

  lemma SecondWave(ids: seq<string>, nodes: seq<TaskNode>)
    requires FanShape(ids, nodes)
    ensures UnlockedIds(nodes, {"plan"}) == Members(ids)
  {
    assert ids[0] in ids;
    UnlockedAre(nodes, {"plan"}, Members(ids));
  }

  lemma ThirdWave(ids: seq<string>, nodes: seq<TaskNode>)
    requires FanShape(ids, nodes)
    ensures UnlockedIds(nodes, {"plan"} + Members(ids)) == {"integrate"}
    ensures UnlockedIds(nodes, {"plan"} + Members(ids) + {"integrate"}) == {}
  {
    UnlockedAre(nodes, {"plan"} + Members(ids), {"integrate"});
    UnlockedAre(nodes, {"plan"} + Members(ids) + {"integrate"}, {});
  }

  /** A fan-out unlocks the plan, then all slices at once, then the integration. */
  lemma FanOutWaves(objective: string, areas: seq<string>, ids: seq<string>, nodes: seq<TaskNode>)
    requires IsFanOut(objective, areas, ids, nodes) && |areas| >= 2
    ensures UnlockedIds(nodes, {}) == {"plan"}
    ensures UnlockedIds(nodes, {"plan"}) == Members(ids)
    ensures UnlockedIds(nodes, {"plan"} + Members(ids)) == {"integrate"}
    ensures UnlockedIds(nodes, {"plan"} + Members(ids) + {"integrate"}) == {}
  {
    FanOutShape(objective, areas, ids, nodes);
    FirstWave(ids, nodes);
    SecondWave(ids, nodes);
    ThirdWave(ids, nodes);
  }

  lemma LinearWaves(objective: string, nodes: seq<TaskNode>)
    requires IsLinear(objective, nodes)
    ensures UnlockedIds(nodes, {}) == {"plan"}
    ensures UnlockedIds(nodes, {"plan"}) == {"implement"}
    ensures UnlockedIds(nodes, {"plan", "implement"}) == {"verify"}
    ensures UnlockedIds(nodes, {"plan", "implement", "verify"}) == {}
  {
    assert "plan"[0] == 'p' && "implement"[0] == 'i' && "verify"[0] == 'v';
    IdAt(nodes, 0);
    IdAt(nodes, 1);
    IdAt(nodes, 2);
    assert "plan" in nodes[1].deps && "implement" in nodes[2].deps;
    UnlockedAre(nodes, {}, {"plan"});
    UnlockedAre(nodes, {"plan"}, {"implement"});
    UnlockedAre(nodes, {"plan", "implement"}, {"verify"});
    UnlockedAre(nodes, {"plan", "implement", "verify"}, {});
  }
}
