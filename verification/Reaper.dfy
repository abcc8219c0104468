/**
 The stale-claim reaper of crates/apohara-dispatch/src/task_graph.rs: the sweep itself,
 and any number of sweeps interleaved with the claim operations of other processes.
 */
module Reaper {
  import opened LockedStore
  import opened Options
  import opened RunStates
  import opened Sorting
  import opened Claims
  import opened ClaimProtocol

  // ---- the sweep on its own -------------------------------------------------------

  ghost predicate StaleFile(files: map<string, ClaimFile>, k: string, now: I64, ttl: I64, isAlive: Probe) {
    k in files && files[k].Saved? && IsStale(files[k].record, now, ttl, isAlive)
  }

  ghost function Swept(files: map<string, ClaimFile>, ids: set<string>, now: I64, ttl: I64,
      isAlive: Probe): map<string, ClaimFile>
  {
    map k | k in files :: if k in ids && StaleFile(files, k, now, ttl, isAlive) then Saved(FreedRecord(k)) else files[k]
  }

  /**
   Exactly the stale records among `ids` are released, whatever the order, repetitions or
   unreadable records in the list; the released ids come back sorted, each once.
   */
  method ReapStaleClaims(store: ClaimStore, ids: seq<string>, now: I64, ttl: I64, isAlive: Probe)
      returns (reaped: seq<string>)
    requires store.Valid()
    modifies store
    ensures store.Valid()
    ensures store.files == Swept(old(store.files), (set id | id in ids), now, ttl, isAlive)
    ensures SortedBy(Below, reaped) && NoDuplicates(reaped)
    ensures forall k :: k in reaped <==> k in ids && StaleFile(old(store.files), k, now, ttl, isAlive)
  {
    reaped := [];
    ghost var before := store.files;
    ghost var visited: set<string> := {};
    for i := 0 to |ids|
      invariant store.Valid()
      invariant visited == (set id | id in ids[..i])
      invariant store.files == Swept(before, visited, now, ttl, isAlive)
      invariant NoDuplicates(reaped)
      invariant forall k :: k in reaped <==> k in visited && StaleFile(before, k, now, ttl, isAlive)
    {
      var id := ids[i];
      assert ids[..i + 1] == ids[..i] + [id];
      ghost var visited' := visited + {id};
      match store.Load(id) {
        case Some(Saved(record)) =>
          if record.state == Claimed || record.state == Running {
            var answer := store.ReleaseIfStillStale(id, now, ttl, isAlive);
            if answer == Reaped(true) {
              assert id !in visited;
              NoDuplicatesTail(reaped, id);
              reaped := reaped + [id];
            }
          }
        case _ =>
      }
      assert store.files == Swept(before, visited', now, ttl, isAlive);
      visited := visited';
    }
    assert ids[..|ids|] == ids;
    SortIdsSpec(reaped);
    reaped := SortIds(reaped);
  }

  lemma NoDuplicatesTail(s: seq<string>, x: string)
    requires NoDuplicates(s) && x !in s
    ensures NoDuplicates(s + [x])
  {
  }

  // ---- sweeps among other processes -------------------------------------------------

  /** How one id of a sweep was dealt with. */
  datatype Verdict =
    | Skipped(seen: Option<ClaimFile>)   // the lock-free read showed no live claim
    | Unread                             // the lock-free read failed
    | Examined(call: CallId)             // re-checked under the lock, or the attempt failed

  datatype Sweep = Sweep(
    ids: seq<string>, now: I64, ttl: I64,
    started: nat,                        // operations decided before the sweep began
    waiting: Option<CallId>,
    verdicts: seq<Verdict>,
    reaped: seq<string>)

  datatype System = System(store: ClaimState, sweeps: map<nat, Sweep>)

  datatype SystemLabel =
    | Other(l: ClaimLabel)
    | Start(k: nat, ids: seq<string>, now: I64, ttl: I64)
    | Filter(k: nat, c: CallId)
    | Miss(k: nat)
    | Collect(k: nat)

  ghost predicate LiveClaim(file: Option<ClaimFile>) {
    file.Some? && file.value.Saved? && IsActive(file.value.record.state)
  }

  ghost predicate SystemNext(y: System, l: SystemLabel, y': System) {
    match l
    case Other(step) =>
      Next(CLAIMS, y.store, step, y'.store) && y'.sweeps == y.sweeps
    case Start(k, ids, now, ttl) =>
      k !in y.sweeps && y' == y.(sweeps := y.sweeps[k := Sweep(ids, now, ttl, |y.store.log|, None, [], [])])
    case Filter(k, c) =>
      && k in y.sweeps && y.sweeps[k].waiting.None? && |y.sweeps[k].verdicts| < |y.sweeps[k].ids|
      && var w := y.sweeps[k];
         var id := w.ids[|w.verdicts|];
         var seen := Look(y.store.disk, id);
         if LiveClaim(seen)
         then Next(CLAIMS, y.store, Open(c, id, ReleaseIfStale(w.now, w.ttl)), y'.store)
              && y'.sweeps == y.sweeps[k := w.(waiting := Some(c))]
         else y' == y.(sweeps := y.sweeps[k := w.(verdicts := w.verdicts + [Skipped(seen)])])
    case Miss(k) =>
      && k in y.sweeps && y.sweeps[k].waiting.None? && |y.sweeps[k].verdicts| < |y.sweeps[k].ids|
      && y' == y.(sweeps := y.sweeps[k := y.sweeps[k].(verdicts := y.sweeps[k].verdicts + [Unread])])
    case Collect(k) =>
      && k in y.sweeps && y.sweeps[k].waiting.Some? && y.sweeps[k].waiting.value in y.store.calls
      && |y.sweeps[k].verdicts| < |y.sweeps[k].ids|
      && var w := y.sweeps[k];
         var phase := y.store.calls[w.waiting.value].phase;
         && (phase.Returned? || phase.Failed?)
         && var freed := phase.Returned? && phase.res == Reaped(true);
            y' == y.(sweeps := y.sweeps[k := w.(
              waiting := None,
              verdicts := w.verdicts + [Examined(w.waiting.value)],
              reaped := if freed then w.reaped + [w.ids[|w.verdicts|]] else w.reaped)])
  }

  ghost predicate SystemInit(y: System) {
    Init(y.store) && y.sweeps == map[]
  }

  /** Call `c` is sweep `w`'s conditional release of its id number `p`. */
  ghost predicate ReapCall(s: ClaimState, w: Sweep, p: nat, c: CallId)
    requires p < |w.ids|
  {
    && c in s.calls && s.calls[c].key == w.ids[p]
    && (!s.calls[c].phase.Failed? && !s.calls[c].phase.Crashed? ==> s.calls[c].phase.op == ReleaseIfStale(w.now, w.ttl))
    && (forall i :: 0 <= i < |s.log| && s.log[i].call == c ==>
        i >= w.started && s.log[i].op == ReleaseIfStale(w.now, w.ttl))
  }

  /** The released id was released by a call of this sweep that found it stale. */
  ghost predicate Justified(s: ClaimState, w: Sweep, id: string) {
    exists i :: w.started <= i < |s.log| && FoundStale(s.log[i], id, w.now, w.ttl)
  }

  ghost predicate FoundStale(e: ClaimEntry, id: string, now: I64, ttl: I64) {
    && e.key == id && e.op == ReleaseIfStale(now, ttl) && e.res == Reaped(true)
    && e.pre.Some? && e.pre.value.Saved? && IsStale(e.pre.value.record, now, ttl, e.env.isAlive)
  }

  ghost predicate VerdictOk(s: ClaimState, w: Sweep, p: nat)
    requires p < |w.verdicts| <= |w.ids|
  {
    match w.verdicts[p]
    case Skipped(seen) => !LiveClaim(seen)
    case Unread => true
    case Examined(c) => ReapCall(s, w, p, c) && (s.calls[c].phase.Returned? || s.calls[c].phase.Failed?)
  }

  ghost predicate SweepInv(s: ClaimState, w: Sweep) {
    && w.started <= |s.log| && |w.verdicts| <= |w.ids|
    && (w.waiting.Some? ==> |w.verdicts| < |w.ids| && ReapCall(s, w, |w.verdicts|, w.waiting.value))
    && (forall p :: 0 <= p < |w.verdicts| ==> VerdictOk(s, w, p))
    && (forall id :: id in w.reaped ==> Justified(s, w, id))
  }

  ghost predicate SystemInv(y: System) {
    && Inv(CLAIMS, y.store)
    && (forall k :: k in y.sweeps ==> SweepInv(y.store, y.sweeps[k]))
  }

  lemma ReapCallSurvives(s: ClaimState, l: ClaimLabel, s': ClaimState, w: Sweep, p: nat, c: CallId)
    requires Inv(CLAIMS, s) && Next(CLAIMS, s, l, s')
    requires w.started <= |s.log| && p < |w.ids| && ReapCall(s, w, p, c)
    ensures ReapCall(s', w, p, c)
  {
    OthersKept(CLAIMS, s, l, s');
    EntryAdded(CLAIMS, s, l, s');
    if l.c == c {
      OpKept(s, l, s');
    }
  }

  lemma OpKept(s: ClaimState, l: ClaimLabel, s': ClaimState)
    requires Next(CLAIMS, s, l, s') && l.c in s.calls
    ensures !s.calls[l.c].phase.Failed? && !s.calls[l.c].phase.Crashed?
    ensures !s'.calls[l.c].phase.Failed? && !s'.calls[l.c].phase.Crashed? ==>
        s'.calls[l.c].phase.op == s.calls[l.c].phase.op
    ensures |s'.log| > |s.log| ==> s'.log[|s.log|].op == s.calls[l.c].phase.op
  {
  }

  /** A step of the store keeps every sweep's bookkeeping. */
  lemma SweepSurvives(s: ClaimState, l: ClaimLabel, s': ClaimState, w: Sweep)
    requires Inv(CLAIMS, s) && Next(CLAIMS, s, l, s') && SweepInv(s, w)
    ensures SweepInv(s', w)
  {
    assert s.log <= s'.log;
    if w.waiting.Some? {
      ReapCallSurvives(s, l, s', w, |w.verdicts|, w.waiting.value);
    }
    forall p | 0 <= p < |w.verdicts| ensures VerdictOk(s', w, p) {
      assert VerdictOk(s, w, p);
      if w.verdicts[p].Examined? {
        ReapCallSurvives(s, l, s', w, p, w.verdicts[p].call);
      }
    }
    forall id | id in w.reaped ensures Justified(s', w, id) {
      var i :| w.started <= i < |s.log| && FoundStale(s.log[i], id, w.now, w.ttl);
      assert s'.log[i] == s.log[i];
    }
  }

  /** A sweep call that answers yes has its own log entry, and the entry says why. */
  lemma YesIsJustified(s: ClaimState, w: Sweep, p: nat, c: CallId)
    requires Inv(CLAIMS, s) && p < |w.ids| && ReapCall(s, w, p, c)
    requires s.calls[c].phase.Returned? && s.calls[c].phase.res == Reaped(true)
    ensures Justified(s, w, w.ids[p])
  {
    assert Pointed(CLAIMS, s, c);
    var at := s.calls[c].phase.point.value;
    assert EntryOk(s, at) && LegalAt(CLAIMS, s.init, s.log, at);
    assert FoundStale(s.log[at], w.ids[p], w.now, w.ttl);
  }

  lemma FilterStep(y: System, k: nat, c: CallId, y': System)
    requires SystemInv(y) && SystemNext(y, Filter(k, c), y')
    ensures SystemInv(y')
  {
    var w := y.sweeps[k];
    assert SweepInv(y.store, w);
    var id := w.ids[|w.verdicts|];
    if LiveClaim(Look(y.store.disk, id)) {
      var l := Open(c, id, ReleaseIfStale(w.now, w.ttl));
      StepInv(CLAIMS, y.store, l, y'.store);
      forall j | j in y.sweeps ensures SweepInv(y'.store, y.sweeps[j]) {
        SweepSurvives(y.store, l, y'.store, y.sweeps[j]);
      }
      forall i | 0 <= i < |y.store.log| ensures y.store.log[i].call != c {
        assert EntryOk(y.store, i);
      }
      assert ReapCall(y'.store, w, |w.verdicts|, c);
      assert SweepInv(y'.store, y'.sweeps[k]) by {
        KeepsVerdicts(y'.store, w, w.(waiting := Some(c)));
      }
    } else {
      KeepsVerdicts(y.store, w, y'.sweeps[k]);
    }
  }

  /** Judging one more id leaves the earlier judgements standing. */
  lemma KeepsVerdicts(s: ClaimState, w: Sweep, w': Sweep)
    requires w' == w.(waiting := w'.waiting, verdicts := w'.verdicts, reaped := w'.reaped)
    requires w.verdicts <= w'.verdicts && |w'.verdicts| <= |w'.ids| && w.reaped <= w'.reaped
    requires SweepInv(s, w)
    ensures forall p :: 0 <= p < |w.verdicts| ==> VerdictOk(s, w', p)
    ensures forall id :: id in w.reaped ==> Justified(s, w', id)
  {
    forall p | 0 <= p < |w.verdicts| ensures VerdictOk(s, w', p) {
      assert VerdictOk(s, w, p);
    }
    forall id | id in w.reaped ensures Justified(s, w', id) {
      assert Justified(s, w, id);
    }
  }

  lemma CollectedInv(s: ClaimState, w: Sweep, w': Sweep)
    requires Inv(CLAIMS, s) && SweepInv(s, w) && w.waiting.Some? && |w.verdicts| < |w.ids|
    requires s.calls[w.waiting.value].phase.Returned? || s.calls[w.waiting.value].phase.Failed?
    requires w'.verdicts == w.verdicts + [Examined(w.waiting.value)] && w'.waiting.None?
    requires w' == w.(waiting := w'.waiting, verdicts := w'.verdicts, reaped := w'.reaped)
    requires w'.reaped == w.reaped
             || (&& s.calls[w.waiting.value].phase.Returned? && s.calls[w.waiting.value].phase.res == Reaped(true)
                 && w'.reaped == w.reaped + [w.ids[|w.verdicts|]])
    ensures SweepInv(s, w')
  {
    KeepsVerdicts(s, w, w');
    if w'.reaped != w.reaped {
      YesIsJustified(s, w, |w.verdicts|, w.waiting.value);
      assert Justified(s, w', w.ids[|w.verdicts|]);
    }
  }

  lemma CollectStep(y: System, k: nat, y': System)
    requires SystemInv(y) && SystemNext(y, Collect(k), y')
    ensures SystemInv(y')
  {
    assert SweepInv(y.store, y.sweeps[k]);
    CollectedInv(y.store, y.sweeps[k], y'.sweeps[k]);
  }

  lemma SystemStepInv(y: System, l: SystemLabel, y': System)
    requires SystemInv(y) && SystemNext(y, l, y')
    ensures SystemInv(y')
  {
    match l
    case Other(step) =>
      StepInv(CLAIMS, y.store, step, y'.store);
      forall j | j in y.sweeps ensures SweepInv(y'.store, y.sweeps[j]) {
        SweepSurvives(y.store, step, y'.store, y.sweeps[j]);
      }
    case Start(_, _, _, _) =>
    case Filter(k, c) => FilterStep(y, k, c, y');
    case Miss(k) => KeepsVerdicts(y.store, y.sweeps[k], y'.sweeps[k]);
    case Collect(k) => CollectStep(y, k, y');
  }

  ghost predicate SystemRun(ys: seq<System>, ls: seq<SystemLabel>) {
    && |ys| == |ls| + 1
    && SystemInit(ys[0])
    && forall i :: 0 <= i < |ls| ==> SystemNext(ys[i], ls[i], ys[i + 1])
  }

  lemma {:induction false} SystemRunInv(ys: seq<System>, ls: seq<SystemLabel>, t: nat)
    requires SystemRun(ys, ls) && t < |ys|
    ensures SystemInv(ys[t])
    decreases t
  {
    if t == 0 {
      InitInv(CLAIMS, ys[0].store);
    } else {
      SystemRunInv(ys, ls, t - 1);
      SystemStepInv(ys[t - 1], ls[t - 1], ys[t]);
    }
  }

  // ---- what a sweep guarantees -----------------------------------------------------

  /** An operation is decided only while its call holds the lock of its key. */
  lemma DecidedUnderLock(s: ClaimState, l: ClaimLabel, s': ClaimState)
    requires Inv(CLAIMS, s) && Next(CLAIMS, s, l, s') && |s'.log| > |s.log|
    ensures var e := s'.log[|s.log|];
            e.key in s.holder && s.holder[e.key] == e.call == l.c && e.pre == Look(s.disk, e.key)
  {
  }

  ghost predicate Writes(e: ClaimEntry) {
    Decide(e.key, e.op, e.env, e.pre).Commit?
  }

  lemma {:induction false} LastWriteStands(init: map<Key, ClaimFile>, log: seq<ClaimEntry>, k: Key, i: nat, n: nat)
    requires Legal(CLAIMS, init, log) && i <= n <= |log|
    requires forall j :: i <= j < n && log[j].key == k ==> !Writes(log[j])
    ensures Look(DiskAt(CLAIMS, init, log, n), k) == Look(DiskAt(CLAIMS, init, log, i), k)
    decreases n
  {
    if i < n {
      LastWriteStands(init, log, k, i, n - 1);
      EntryStep(CLAIMS, init, log, n - 1);
    }
  }

  /**
   A beat that is the last write before a sweep decides on the task, by a process the probe
   finds alive, within `ttl` of the sweep's `now`, always saves the claim.
   */
  lemma FreshBeatSpares(init: map<Key, ClaimFile>, log: seq<ClaimEntry>, i: nat, j: nat)
    requires Legal(CLAIMS, init, log) && i < j < |log| && log[i].key == log[j].key
    requires log[i].op.Beat? && log[i].res.Accepted? && log[j].op.ReleaseIfStale?
    requires forall m :: i < m < j && log[m].key == log[i].key ==> !Writes(log[m])
    requires log[j].op.now - log[j].op.ttl <= log[i].op.now
    requires log[j].env.isAlive(log[i].op.pid, log[i].op.pidStartTime)
    ensures log[j].res == Reaped(false) && DiskAt(CLAIMS, init, log, j + 1) == DiskAt(CLAIMS, init, log, j)
  {
    EntryStep(CLAIMS, init, log, i);
    EntryStep(CLAIMS, init, log, j);
    LastWriteStands(init, log, log[i].key, i + 1, j);
    var op := log[i].op;
    var record := Beaten(log[i].pre.value.record, op.pid, op.now, op.pidStartTime);
    assert Look(DiskAt(CLAIMS, init, log, i + 1), log[i].key) == Some(Saved(record));
    BeatWithinTtlIsFresh(record, log[j].op.now, log[j].op.ttl, log[j].env.isAlive);
  }

  /**
   A sweep goes on whatever its next file holds: any unused call id takes it past an id with
   no readable live claim at once, and into the lock-held check otherwise.
   */
  lemma SweepGoesOn(y: System, k: nat, c: CallId) returns (y': System)
    requires SystemInv(y) && k in y.sweeps && y.sweeps[k].waiting.None?
    requires |y.sweeps[k].verdicts| < |y.sweeps[k].ids| && c !in y.store.calls
    ensures SystemNext(y, Filter(k, c), y') && k in y'.sweeps
    ensures var w := y.sweeps[k];
            var seen := Look(y.store.disk, w.ids[|w.verdicts|]);
            y'.sweeps[k] == if LiveClaim(seen) then w.(waiting := Some(c))
                            else w.(verdicts := w.verdicts + [Skipped(seen)])
  {
    var w := y.sweeps[k];
    var id := w.ids[|w.verdicts|];
    var seen := Look(y.store.disk, id);
    if LiveClaim(seen) {
      var calls := y.store.calls[c := Call(id, Opened(ReleaseIfStale(w.now, w.ttl)))];
      y' := System(y.store.(calls := calls), y.sweeps[k := w.(waiting := Some(c))]);
    } else {
      y' := y.(sweeps := y.sweeps[k := w.(verdicts := w.verdicts + [Skipped(seen)])]);
    }
  }

  /** And an answered or failed check never stops it either. */
  lemma SweepCollects(y: System, k: nat) returns (y': System)
    requires SystemInv(y) && k in y.sweeps && y.sweeps[k].waiting.Some?
    requires var phase := y.store.calls[y.sweeps[k].waiting.value].phase; phase.Returned? || phase.Failed?
    ensures SystemNext(y, Collect(k), y') && k in y'.sweeps
    ensures |y'.sweeps[k].verdicts| == |y.sweeps[k].verdicts| + 1 && y'.sweeps[k].waiting.None?
  {
    var w := y.sweeps[k];
    assert SweepInv(y.store, w);
    var phase := y.store.calls[w.waiting.value].phase;
    var freed := phase.Returned? && phase.res == Reaped(true);
    y' := y.(sweeps := y.sweeps[k := w.(
      waiting := None,
      verdicts := w.verdicts + [Examined(w.waiting.value)],
      reaped := if freed then w.reaped + [w.ids[|w.verdicts|]] else w.reaped)]);
  }
}
