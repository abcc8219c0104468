/**
 The storage the coordinator schedules over: the in-memory double of
 crates/apohara-coordinator/src/store.rs and the live adapter over the task graph and the claim
 store of crates/apohara-dispatch/src/scheduler_store.rs.
 */
module Stores {
  import opened Options
  import opened Sorting
  import opened Claims
  import opened Cycles
  import opened TaskGraphs
  import opened Reaper

  // ---- sorted listings of a set ----------------------------------------------------------------

  ghost function Elements(s: set<string>): (ids: seq<string>)
    ensures Members(ids) == s && NoDuplicates(ids)
    decreases |s|
  {
    if s == {} then []
    else
      var x :| x in s;
      var rest := Elements(s - {x});
      NoDuplicatesHead(x, rest);
      assert x !in rest by { assert x !in Members(rest); }
      assert Members([x] + rest) == {x} + Members(rest);
      [x] + rest
  }

  /** The ids of the set in increasing order. */
  ghost function InOrder(s: set<string>): seq<string> {
    SortIds(Elements(s))
  }

  lemma InOrderSpec(s: set<string>)
    ensures SortedBy(Below, InOrder(s)) && NoDuplicates(InOrder(s)) && Members(InOrder(s)) == s
    ensures InOrder(s) == [] <==> s == {}
  {
    SortIdsSpec(Elements(s));
    assert Members(InOrder(s)) == Members(Elements(s));
    if InOrder(s) != [] {
      assert InOrder(s)[0] in Members(InOrder(s));
    }
  }

  /** There is only one increasing listing of a set. */
  lemma OnlyListing(ids: seq<string>, s: set<string>)
    requires SortedBy(Below, ids) && NoDuplicates(ids) && Members(ids) == s
    ensures ids == InOrder(s)
  {
    var other := InOrder(s);
    InOrderSpec(s);
    assert forall x :: x in ids <==> x in Members(ids);
    assert forall x :: x in other <==> x in Members(other);
    DuplicateFree(ids);
    DuplicateFree(other);
    assert multiset(ids) == multiset(other) by {
      forall x ensures multiset(ids)[x] == multiset(other)[x] {
        assert x in ids <==> x in multiset(ids);
        assert x in other <==> x in multiset(other);
      }
    }
    BelowIsOrder();
    SortedUnique(Below, ids, other);
  }

  lemma SortingLists(out: seq<string>, s: set<string>)
    requires NoDuplicates(out) && forall id :: id in out <==> id in s
    ensures SortIds(out) == InOrder(s)
  {
    SortIdsSpec(out);
    assert forall id :: id in Members(SortIds(out)) <==> id in SortIds(out);
    OnlyListing(SortIds(out), s);
  }

  // ---- the in-memory double -----------------------------------------------------------------------

  datatype InMemClaim = InMemClaim(lastSeenMs: I64, pidAlive: bool)
  datatype InMemTask = InMemTask(deps: seq<string>, done: bool, claim: Option<InMemClaim>)

  type Tasks = map<string, InMemTask>

  predicate MemIsReady(tasks: Tasks, id: string) {
    && id in tasks && !tasks[id].done && tasks[id].claim.None?
    && forall d :: d in tasks[id].deps ==> d in tasks && tasks[d].done
  }

  predicate MemIsStale(tasks: Tasks, id: string, now: I64, ttl: I64) {
    && id in tasks && tasks[id].claim.Some?
    && (now > SaturatingAdd(tasks[id].claim.value.lastSeenMs, ttl) || !tasks[id].claim.value.pidAlive)
  }

  ghost function MemReady(tasks: Tasks): set<string> {
    set id | id in tasks && MemIsReady(tasks, id)
  }

  ghost function MemStale(tasks: Tasks, now: I64, ttl: I64): set<string> {
    set id | id in tasks && MemIsStale(tasks, id, now, ttl)
  }

  ghost function MemSwept(tasks: Tasks, now: I64, ttl: I64): Tasks {
    map id | id in tasks :: if MemIsStale(tasks, id, now, ttl) then tasks[id].(claim := None) else tasks[id]
  }

  function Fresh(now: I64): Option<InMemClaim> {
    Some(InMemClaim(now, true))
  }

  class InMemoryStore {
    var tasks: Tasks

    constructor ()
      ensures tasks == map[]
    {
      tasks := map[];
    }

    method EnqueueWithDeps(id: string, deps: seq<string>)
      modifies this
      ensures tasks == old(tasks)[id := InMemTask(deps, false, None)]
    {
      tasks := tasks[id := InMemTask(deps, false, None)];
    }

    method MarkDone(id: string)
      modifies this
      ensures tasks == if id in old(tasks) then old(tasks)[id := old(tasks)[id].(done := true)] else old(tasks)
    {
      if id in tasks {
        tasks := tasks[id := tasks[id].(done := true)];
      }
    }

    method ClaimFresh(id: string, now: I64)
      modifies this
      ensures tasks == if id in old(tasks) then old(tasks)[id := old(tasks)[id].(claim := Fresh(now))] else old(tasks)
    {
      if id in tasks {
        tasks := tasks[id := tasks[id].(claim := Fresh(now))];
      }
    }

    /** The map is visited in any order; the listing comes out the same. */
    method ReadyTasks() returns (ids: seq<string>)
      ensures ids == InOrder(MemReady(tasks))
    {
      var done := set id | id in tasks && tasks[id].done;
      var out: seq<string> := [];
      var names := tasks.Keys;
      while names != {}
        invariant names <= tasks.Keys && NoDuplicates(out)
        invariant forall id :: id in out <==> id !in names && MemIsReady(tasks, id)
      {
        var id :| id in names;
        names := names - {id};
        var task := tasks[id];
        if !task.done && task.claim.None? && forall d :: d in task.deps ==> d in done {
          out := out + [id];
        }
      }
      SortingLists(out, MemReady(tasks));
      return SortIds(out);
    }

    method ReapStale(now: I64, ttl: I64) returns (reaped: seq<string>)
      modifies this
      ensures reaped == InOrder(MemStale(old(tasks), now, ttl))
      ensures tasks == MemSwept(old(tasks), now, ttl)
    {
      ghost var before := tasks;
      reaped := [];
      var names := tasks.Keys;
      while names != {}
        invariant names <= before.Keys && NoDuplicates(reaped)
        invariant forall id :: id in reaped <==> id !in names && MemIsStale(before, id, now, ttl)
        invariant tasks == map id | id in before :: if id in names then before[id] else MemSwept(before, now, ttl)[id]
      {
        var id :| id in names;
        names := names - {id};
        if tasks[id].claim.Some? {
          var claim := tasks[id].claim.value;
          var deadline := SaturatingAdd(claim.lastSeenMs, ttl);
          if now > deadline || !claim.pidAlive {
            tasks := tasks[id := tasks[id].(claim := None)];
            reaped := reaped + [id];
          }
        }
      }
      SortingLists(reaped, MemStale(before, now, ttl));
      reaped := SortIds(reaped);
    }
  }

  // ---- the live adapter -----------------------------------------------------------------------------

  ghost predicate IsReadyNode(nodes: seq<TaskNode>, done: set<string>, files: map<string, ClaimFile>, id: string) {
    exists k :: 0 <= k < |nodes| && nodes[k].id == id && Unblocked(nodes[k], done) && SlotOpen(files, id)
  }

  /** None when the graph, or the record of a node that is otherwise unblocked, cannot be read. */
  ghost function LiveReady(file: GraphFile, files: map<string, ClaimFile>): Option<set<string>> {
    var nodes, done := NodesOf(file), Members(DoneOf(file));
    if file.BadGraph? || SomeReadyUnreadable(nodes, done, files) then None
    else Some(set id | id in IdsOf(nodes) && IsReadyNode(nodes, done, files, id))
  }

  /** The listing fails on a graph that does not parse, and on an unreadable record of a node it has to look at. */
  lemma ListingFails(file: GraphFile, files: map<string, ClaimFile>)
    ensures LiveReady(file, files).None? <==>
              || file.BadGraph?
              || exists k :: 0 <= k < |NodesOf(file)| && Unblocked(NodesOf(file)[k], Members(DoneOf(file)))
                   && NodesOf(file)[k].id in files && files[NodesOf(file)[k].id].Unreadable?
  {
  }

  ghost predicate SomeUnreadable(files: map<string, ClaimFile>) {
    exists k :: k in files && files[k].Unreadable?
  }

  /** None when any record at all cannot be read: the directory listing fails. */
  ghost function LiveStale(files: map<string, ClaimFile>, now: I64, ttl: I64, isAlive: Probe): Option<set<string>> {
    if SomeUnreadable(files) then None
    else Some(set k | k in files && StaleFile(files, k, now, ttl, isAlive))
  }

  ghost function LiveSwept(files: map<string, ClaimFile>, now: I64, ttl: I64, isAlive: Probe): map<string, ClaimFile> {
    if SomeUnreadable(files) then files else Swept(files, files.Keys, now, ttl, isAlive)
  }

  class DispatchSchedulerStore {
    const graph: TaskGraph
    const claims: ClaimStore
    const isAlive: Probe

    constructor (graph: TaskGraph, claims: ClaimStore, isAlive: Probe)
      ensures this.graph == graph && this.claims == claims && this.isAlive == isAlive
    {
      this.graph, this.claims, this.isAlive := graph, claims, isAlive;
    }

    ghost predicate Valid()
      reads graph, claims
    {
      graph.Valid() && claims.Valid()
    }

    method ReadyTasks() returns (ids: Option<seq<string>>)
      requires Valid()
      ensures ids == match LiveReady(graph.file, claims.files) {
                       case None => None
                       case Some(ready) => Some(InOrder(ready))
                     }
    {
      var listing := graph.Claimable(claims);
      match listing {
        case Ids(out) =>
          ghost var nodes, done := NodesOf(graph.file), Members(DoneOf(graph.file));
          ghost var ready := set id | id in IdsOf(nodes) && IsReadyNode(nodes, done, claims.files, id);
          ListsReady(out, nodes, done, claims.files);
          OnlyListing(out, ready);
          return Some(out);
        case _ => return None;
      }
    }

    method ReapStale(now: I64, ttl: I64) returns (reaped: Option<seq<string>>)
      requires Valid()
      modifies claims
      ensures Valid()
      ensures reaped == match LiveStale(old(claims.files), now, ttl, isAlive) {
                          case None => None
                          case Some(stale) => Some(InOrder(stale))
                        }
      ensures claims.files == LiveSwept(old(claims.files), now, ttl, isAlive)
    {
      ghost var before := claims.files;
      var records := claims.List();
      if records.None? {
        return None;
      }
      var ids := seq(|records.value|, i requires 0 <= i < |records.value| => records.value[i].taskId);
      ListsAllNames(before, records.value, ids);
      var freed := ReapStaleClaims(claims, ids, now, ttl, isAlive);
      assert Members(freed) == set k | k in before && StaleFile(before, k, now, ttl, isAlive);
      OnlyListing(freed, set k | k in before && StaleFile(before, k, now, ttl, isAlive));
      return Some(freed);
    }
  }

  lemma ListsReady(out: seq<string>, nodes: seq<TaskNode>, done: set<string>, files: map<string, ClaimFile>)
    requires ListsClaimable(out, nodes, done, files)
    ensures Members(out) == set id | id in IdsOf(nodes) && IsReadyNode(nodes, done, files, id)
  {
    forall id | IsReadyNode(nodes, done, files, id) ensures id in IdsOf(nodes) {
      var k :| 0 <= k < |nodes| && nodes[k].id == id && Unblocked(nodes[k], done) && SlotOpen(files, id);
      IdAt(nodes, k);
    }
  }

  lemma ListsAllNames(files: map<string, ClaimFile>, records: seq<ClaimRecord>, ids: seq<string>)
    requires WellNamed(files) && IsListing(files, records) && !SomeUnreadable(files)
    requires |ids| == |records| && forall i :: 0 <= i < |ids| ==> ids[i] == records[i].taskId
    ensures (set id | id in ids) == files.Keys
  {
    forall k | k in files ensures k in ids {
      assert files[k].Saved?;
      assert files[k].record in records;
      var i :| 0 <= i < |records| && records[i] == files[k].record;
      assert ids[i] == k;
    }
    forall k | k in ids ensures k in files {
      var i :| 0 <= i < |ids| && ids[i] == k;
      assert records[i] in records;
    }
  }
}
