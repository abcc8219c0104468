/**
 Working a graph of crates/apohara-dispatch/src/task_graph.rs off by its own operations: list what is
 claimable, claim it, report it, mark it done, and again.
 */
module Rounds {
  import opened Sorting
  import opened Claims
  import opened Cycles
  import opened TaskGraphs

  ghost predicate AllOpen(files: map<string, ClaimFile>, nodes: seq<TaskNode>) {
    forall id :: id in IdsOf(nodes) ==> SlotOpen(files, id)
  }

  lemma OpenIsReadable(files: map<string, ClaimFile>, nodes: seq<TaskNode>)
    requires AllOpen(files, nodes)
    ensures forall k :: 0 <= k < |nodes| ==> !SlotUnreadable(files, nodes[k].id)
  {
    forall k | 0 <= k < |nodes| ensures !SlotUnreadable(files, nodes[k].id) {
      IdAt(nodes, k);
    }
  }

  ghost function MarkedDone(done: seq<string>, id: string): seq<string> {
    if id in done then done else done + [id]
  }

  lemma MarkedMembers(done: seq<string>, id: string)
    ensures Members(MarkedDone(done, id)) == Members(done) + {id}
  {
  }

  lemma MemberAt(ids: seq<string>, i: nat)
    requires i < |ids|
    ensures ids[i] in Members(ids) && Members(ids[..i + 1]) == Members(ids[..i]) + {ids[i]}
  {
    assert ids[..i + 1] == ids[..i] + [ids[i]];
  }

  lemma StaysOpen(files: map<string, ClaimFile>, nodes: seq<TaskNode>, id: string)
    requires AllOpen(files, nodes)
    ensures AllOpen(files[id := Saved(FreedRecord(id))], nodes)
  {
    forall x | x in IdsOf(nodes) ensures SlotOpen(files[id := Saved(FreedRecord(id))], x) {
      assert SlotOpen(files, x);
    }
  }

  /** One task from open slot to open slot: the claim is granted and the report accepted. */
  method WorkOff(graph: TaskGraph, claims: ClaimStore, id: string, token: string, now: I64)
      returns (claimed: Answer, reported: Answer)
    requires graph.Valid() && claims.Valid() && !graph.file.BadGraph? && SlotOpen(claims.files, id)
    modifies graph, claims
    ensures graph.Valid() && claims.Valid()
    ensures graph.file == Graph(NodesOf(old(graph.file)), MarkedDone(DoneOf(old(graph.file)), id))
    ensures claims.files == old(claims.files)[id := Saved(FreedRecord(id))]
    ensures claimed == Acquired(token) && reported == Accepted
  {
    claimed := claims.TryClaim(id, token, now);
    reported := claims.ReportResult(id, token);
    var marked := graph.MarkDone(id);
  }

  /** All slots are open, and beyond `before` the first `n` of the ids are done. */
  ghost predicate Standing(file: GraphFile, files: map<string, ClaimFile>, nodes: seq<TaskNode>, before: set<string>,
      ids: seq<string>, n: nat)
    requires n <= |ids|
  {
    && !file.BadGraph? && NodesOf(file) == nodes && AllOpen(files, nodes)
    && Members(DoneOf(file)) == before + Members(ids[..n])
  }

  lemma StandingNext(file: GraphFile, files: map<string, ClaimFile>, nodes: seq<TaskNode>, before: set<string>,
      ids: seq<string>, n: nat)
    requires n < |ids| && Standing(file, files, nodes, before, ids, n) && Members(ids) <= IdsOf(nodes)
    ensures SlotOpen(files, ids[n])
    ensures Standing(Graph(NodesOf(file), MarkedDone(DoneOf(file), ids[n])),
                     files[ids[n] := Saved(FreedRecord(ids[n]))], nodes, before, ids, n + 1)
  {
    MemberAt(ids, n);
    MarkedMembers(DoneOf(file), ids[n]);
    StaysOpen(files, nodes, ids[n]);
  }

  lemma StandingAll(file: GraphFile, files: map<string, ClaimFile>, nodes: seq<TaskNode>, before: set<string>,
      ids: seq<string>)
    requires Standing(file, files, nodes, before, ids, |ids|)
    ensures !file.BadGraph? && NodesOf(file) == nodes && AllOpen(files, nodes)
    ensures Members(DoneOf(file)) == before + Members(ids)
  {
    assert ids[..|ids|] == ids;
  }

  /** `n` claims attempted, each granted, and its report accepted. */
  predicate AllGranted(claimed: seq<Answer>, reported: seq<Answer>, n: nat) {
    && |claimed| == |reported| == n
    && (forall i :: 0 <= i < n ==> claimed[i].Acquired?)
    && (forall i :: 0 <= i < n ==> reported[i].Accepted?)
  }

  lemma GrantedNext(claimed: seq<Answer>, reported: seq<Answer>, n: nat, claim: Answer, report: Answer)
    requires AllGranted(claimed, reported, n) && claim.Acquired? && report.Accepted?
    ensures AllGranted(claimed + [claim], reported + [report], n + 1)
  {
  }

  /** A whole round: every listed task is worked off and every slot is open again. */
  method WorkOffAll(graph: TaskGraph, claims: ClaimStore, ids: seq<string>, mint: nat -> string, now: I64)
      returns (claimed: seq<Answer>, reported: seq<Answer>)
    requires graph.Valid() && claims.Valid() && !graph.file.BadGraph? && AllOpen(claims.files, NodesOf(graph.file))
    requires Members(ids) <= IdsOf(NodesOf(graph.file))
    modifies graph, claims
    ensures graph.Valid() && claims.Valid()
    ensures !graph.file.BadGraph? && NodesOf(graph.file) == NodesOf(old(graph.file))
    ensures AllOpen(claims.files, NodesOf(old(graph.file)))
    ensures Members(DoneOf(graph.file)) == Members(DoneOf(old(graph.file))) + Members(ids)
    ensures AllGranted(claimed, reported, |ids|)
  {
    claimed, reported := [], [];
    ghost var nodes, before := NodesOf(graph.file), Members(DoneOf(graph.file));
    assert Members(ids[..0]) == {};
    for i := 0 to |ids|
      invariant graph.Valid() && claims.Valid()
      invariant Standing(graph.file, claims.files, nodes, before, ids, i)
      invariant AllGranted(claimed, reported, i)
    {
      StandingNext(graph.file, claims.files, nodes, before, ids, i);
      var claim, report := WorkOff(graph, claims, ids[i], mint(i), now);
      GrantedNext(claimed, reported, i, claim, report);
      claimed, reported := claimed + [claim], reported + [report];
    }
    StandingAll(graph.file, claims.files, nodes, before, ids);
  }

  /** What is listed with every slot open is what unlocks, and none of it is done. */
  lemma ListedUnlocks(ids: seq<string>, nodes: seq<TaskNode>, done: set<string>, files: map<string, ClaimFile>)
    requires ListsClaimable(ids, nodes, done, files) && AllOpen(files, nodes)
    ensures Members(ids) == UnlockedIds(nodes, done) <= IdsOf(nodes) - done
    ensures ids == [] <==> UnlockedIds(nodes, done) == {}
  {
    AllSlotsOpen(ids, nodes, done, files);
    UnlockedPending(nodes, done);
    if ids != [] {
      assert ids[0] in Members(ids);
    }
  }

  /** Each newly finished node is worked off once. */
  lemma CountedWork(ids: seq<string>, start: set<string>, done: set<string>)
    requires NoDuplicates(ids) && start <= done && Members(ids) !! done
    ensures |(done + Members(ids)) - start| == |done - start| + |ids|
  {
    DistinctLength(ids);
    assert (done + Members(ids)) - start == (done - start) + Members(ids);
  }

  lemma GrantedTwice(claimed: seq<Answer>, reported: seq<Answer>, n: nat, more: seq<Answer>, moreReported: seq<Answer>,
      m: nat)
    requires AllGranted(claimed, reported, n) && AllGranted(more, moreReported, m)
    ensures AllGranted(claimed + more, reported + moreReported, n + m)
  {
  }

  /** Before the last round every round adds a finished node. */
  lemma CountedRound(ids: set<string>, done: set<string>, unlocked: set<string>, rounds: nat)
    requires unlocked != {} && unlocked <= ids - done && rounds <= |ids * done|
    ensures rounds + 1 <= |ids * (done + unlocked)| <= |ids|
    ensures ids - (done + unlocked) < ids - done
  {
    MoreFinished(ids, done, unlocked);
    SubsetSize(ids * (done + unlocked), ids);
    var u :| u in unlocked;
    assert u in ids - done && u !in ids - (done + unlocked);
  }

  /** Once nothing unlocks, everything is done exactly when every dependency was known. */
  lemma DoneExactly(nodes: seq<TaskNode>, done: set<string>, rounds: nat)
    requires DistinctNodes(nodes) && Acyclic(nodes)
    requires UnlockedIds(nodes, AfterRounds(nodes, done, rounds)) == {}
    ensures IdsOf(nodes) <= AfterRounds(nodes, done, rounds) <==> Resolvable(nodes, done)
  {
    var after := AfterRounds(nodes, done, rounds);
    if Resolvable(nodes, done) {
      RoundsAddNodes(nodes, done, rounds);
      ResolvableGrows(nodes, done, after);
      if x :| x in IdsOf(nodes) && x !in after {
        SomethingUnlocked(nodes, after, x);
      }
    } else {
      var k :| 0 <= k < |nodes| && !DepsKnown(nodes, done, k);
      var d :| d in nodes[k].deps && d !in IdsOf(nodes) && d !in done;
      NeverUnlocked(nodes, done, rounds, k, d);
      IdAt(nodes, k);
    }
  }

  /** After `rounds` rounds: so much is done, and each newly done node was claimed and reported once. */
  ghost predicate Worked(nodes: seq<TaskNode>, start: set<string>, done: set<string>, rounds: nat,
      claimed: seq<Answer>, reported: seq<Answer>)
  {
    && done == AfterRounds(nodes, start, rounds) && start <= done
    && rounds <= |IdsOf(nodes) * done|
    && AllGranted(claimed, reported, |done - start|)
  }

  lemma WorkedNext(nodes: seq<TaskNode>, start: set<string>, done: set<string>, rounds: nat, claimed: seq<Answer>,
      reported: seq<Answer>, ids: seq<string>, more: seq<Answer>, moreReported: seq<Answer>)
    requires Worked(nodes, start, done, rounds, claimed, reported)
    requires ids != [] && NoDuplicates(ids) && Members(ids) == UnlockedIds(nodes, done)
    requires AllGranted(more, moreReported, |ids|)
    ensures Worked(nodes, start, done + Members(ids), rounds + 1, claimed + more, reported + moreReported)
    ensures IdsOf(nodes) - (done + Members(ids)) < IdsOf(nodes) - done
  {
    assert ids[0] in Members(ids);
    UnlockedPending(nodes, done);
    CountedRound(IdsOf(nodes), done, UnlockedIds(nodes, done), rounds);
    CountedWork(ids, start, done);
    GrantedTwice(claimed, reported, |done - start|, more, moreReported, |ids|);
  }

  /** Once nothing unlocks. */
  lemma WorkedToTheEnd(nodes: seq<TaskNode>, start: set<string>, done: set<string>, rounds: nat, claimed: seq<Answer>,
      reported: seq<Answer>)
    requires DistinctNodes(nodes) && Acyclic(nodes)
    requires Worked(nodes, start, done, rounds, claimed, reported) && UnlockedIds(nodes, done) == {}
    ensures rounds <= |nodes| && done == AfterRounds(nodes, start, rounds)
    ensures IdsOf(nodes) <= done <==> Resolvable(nodes, start)
    ensures AllGranted(claimed, reported, |done - start|)
  {
    SubsetSize(IdsOf(nodes) * done, IdsOf(nodes));
    NodeCount(nodes);
    DoneExactly(nodes, start, rounds);
  }

  lemma WorkedAtFirst(nodes: seq<TaskNode>, start: set<string>)
    ensures Worked(nodes, start, start, 0, [], [])
  {
    assert start - start == {};
  }

  /** One round: list, claim, report and mark done whatever is unlocked. */
  method OneRound(graph: TaskGraph, claims: ClaimStore, mint: nat -> string, now: I64)
      returns (ids: seq<string>, claimed: seq<Answer>, reported: seq<Answer>)
    requires graph.Valid() && claims.Valid() && !graph.file.BadGraph? && AllOpen(claims.files, NodesOf(graph.file))
    modifies graph, claims
    ensures graph.Valid() && claims.Valid() && !graph.file.BadGraph?
    ensures NodesOf(graph.file) == NodesOf(old(graph.file)) && AllOpen(claims.files, NodesOf(graph.file))
    ensures NoDuplicates(ids)
    ensures Members(ids) == UnlockedIds(NodesOf(old(graph.file)), Members(DoneOf(old(graph.file))))
    ensures Members(DoneOf(graph.file)) == Members(DoneOf(old(graph.file))) + Members(ids)
    ensures ids == [] ==> Members(ids) == {} && Members(DoneOf(graph.file)) == Members(DoneOf(old(graph.file)))
    ensures AllGranted(claimed, reported, |ids|)
  {
    var listing := graph.Claimable(claims);
    OpenIsReadable(claims.files, NodesOf(graph.file));
    ids := listing.ids;
    ListedUnlocks(ids, NodesOf(graph.file), Members(DoneOf(graph.file)), claims.files);
    claimed, reported := WorkOffAll(graph, claims, ids, mint, now);
  }

  /** Round after round, until a listing is empty. */
  method WorkOn(graph: TaskGraph, claims: ClaimStore, mint: nat -> string, now: I64)
      returns (rounds: nat, claimed: seq<Answer>, reported: seq<Answer>)
    requires graph.Valid() && claims.Valid() && !graph.file.BadGraph? && AllOpen(claims.files, NodesOf(graph.file))
    modifies graph, claims
    ensures graph.Valid() && claims.Valid() && NodesOf(graph.file) == NodesOf(old(graph.file))
    ensures AllOpen(claims.files, NodesOf(graph.file))
    ensures Worked(NodesOf(old(graph.file)), Members(DoneOf(old(graph.file))), Members(DoneOf(graph.file)), rounds,
                   claimed, reported)
    ensures UnlockedIds(NodesOf(old(graph.file)), Members(DoneOf(graph.file))) == {}
  {
    ghost var nodes, start := NodesOf(graph.file), Members(DoneOf(graph.file));
    rounds, claimed, reported := 0, [], [];
    WorkedAtFirst(nodes, start);
    var more := true;
    while more
      invariant graph.Valid() && claims.Valid() && !graph.file.BadGraph?
      invariant NodesOf(graph.file) == nodes && AllOpen(claims.files, nodes)
      invariant Worked(nodes, start, Members(DoneOf(graph.file)), rounds, claimed, reported)
      invariant !more ==> UnlockedIds(nodes, Members(DoneOf(graph.file))) == {}
      decreases IdsOf(nodes) - Members(DoneOf(graph.file)), more
    {
      ghost var done := Members(DoneOf(graph.file));
      var ids, claim, report := OneRound(graph, claims, mint, now);
      more := ids != [];
      if more {
        WorkedNext(nodes, start, done, rounds, claimed, reported, ids, claim, report);
        rounds, claimed, reported := rounds + 1, claimed + claim, reported + report;
      }
    }
  }
  /**
   From open slots, listing, claiming, reporting and marking done comes to an end within as many
   rounds as there are nodes, and leaves everything done exactly when every dependency of an
   unfinished node was a node or done. Each newly done node was claimed once; every claim was
   granted, and every report accepted.
   */
  method WorkThrough(graph: TaskGraph, claims: ClaimStore, mint: nat -> string, now: I64)
      returns (rounds: nat, claimed: seq<Answer>, reported: seq<Answer>)
    requires graph.Valid() && claims.Valid() && !graph.file.BadGraph? && AllOpen(claims.files, NodesOf(graph.file))
    modifies graph, claims
    ensures graph.Valid() && claims.Valid() && NodesOf(graph.file) == NodesOf(old(graph.file))
    ensures AllOpen(claims.files, NodesOf(graph.file)) && rounds <= |NodesOf(graph.file)|
    ensures Members(DoneOf(graph.file)) == AfterRounds(NodesOf(graph.file), Members(DoneOf(old(graph.file))), rounds)
    ensures IdsOf(NodesOf(graph.file)) <= Members(DoneOf(graph.file))
       <==> Resolvable(NodesOf(graph.file), Members(DoneOf(old(graph.file))))
    ensures AllGranted(claimed, reported, |Members(DoneOf(graph.file)) - Members(DoneOf(old(graph.file)))|)
  {
    ghost var nodes, start := NodesOf(graph.file), Members(DoneOf(graph.file));
    rounds, claimed, reported := WorkOn(graph, claims, mint, now);
    WorkedToTheEnd(nodes, start, Members(DoneOf(graph.file)), rounds, claimed, reported);
  }
}
