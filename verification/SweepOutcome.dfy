/**
 What a sweep of crates/apohara-dispatch/src/task_graph.rs has achieved when it ends, whatever other
 processes did meanwhile; and that it can always end.
 */
module SweepOutcome {
  import opened LockedStore
  import opened Options
  import opened RunStates
  import opened Claims
  import opened ClaimProtocol
  import opened Reaper

  // ---- what the verdicts rest on -------------------------------------------------------

  /** The conditional release behind verdict `p` answered that it released. */
  ghost predicate SaidYes(s: ClaimState, w: Sweep, p: nat)
    requires p < |w.verdicts|
  {
    && w.verdicts[p].Examined? && w.verdicts[p].call in s.calls
    && s.calls[w.verdicts[p].call].phase.Returned?
    && s.calls[w.verdicts[p].call].phase.res == Reaped(true)
  }

  /** And it failed. */
  ghost predicate CheckFailed(s: ClaimState, w: Sweep, p: nat)
    requires p < |w.verdicts|
  {
    && w.verdicts[p].Examined? && w.verdicts[p].call in s.calls
    && s.calls[w.verdicts[p].call].phase.Failed?
  }

  /** Some verdict on `id` was yes. */
  ghost predicate YesFor(s: ClaimState, w: Sweep, id: string, p: nat)
    requires |w.verdicts| <= |w.ids|
  {
    p < |w.verdicts| && w.ids[p] == id && SaidYes(s, w, p)
  }

  /** After the first `n` operations, and not before the sweep began, this was on disk. */
  ghost predicate OnDiskAt(s: ClaimState, w: Sweep, id: string, seen: Option<ClaimFile>, n: nat) {
    w.started <= n <= |s.log| && Look(DiskAt(CLAIMS, s.init, s.log, n), id) == seen
  }

  ghost predicate SeenOnDisk(s: ClaimState, w: Sweep, p: nat)
    requires p < |w.verdicts| <= |w.ids|
  {
    w.verdicts[p].Skipped? ==> exists n :: OnDiskAt(s, w, w.ids[p], w.verdicts[p].seen, n)
  }

  ghost predicate Accounted(s: ClaimState, w: Sweep) {
    && |w.verdicts| <= |w.ids|
    && (forall p :: 0 <= p < |w.verdicts| ==> SeenOnDisk(s, w, p))
    && (forall p :: 0 <= p < |w.verdicts| && SaidYes(s, w, p) ==> w.ids[p] in w.reaped)
    && (forall id :: id in w.reaped ==> exists p :: YesFor(s, w, id, p))
  }

  // ---- every step keeps the account ------------------------------------------------------

  /** A call that is over stays as it is. */
  lemma OverStays(s: ClaimState, l: ClaimLabel, s': ClaimState, c: CallId)
    requires Next(CLAIMS, s, l, s') && c in s.calls && (s.calls[c].phase.Returned? || s.calls[c].phase.Failed?)
    ensures c in s'.calls && s'.calls[c] == s.calls[c]
  {
    OthersKept(CLAIMS, s, l, s');
  }

  /** What was on disk stays part of the history. */
  lemma HistoryKept(s: ClaimState, l: ClaimLabel, s': ClaimState, n: nat)
    requires Next(CLAIMS, s, l, s') && n <= |s.log|
    ensures s'.init == s.init && n <= |s'.log|
    ensures DiskAt(CLAIMS, s'.init, s'.log, n) == DiskAt(CLAIMS, s.init, s.log, n)
  {
    EntryAdded(CLAIMS, s, l, s');
    assert s'.log[..n] == s.log[..n];
  }

  lemma AccountSurvives(s: ClaimState, l: ClaimLabel, s': ClaimState, w: Sweep)
    requires Next(CLAIMS, s, l, s') && SweepInv(s, w) && Accounted(s, w)
    ensures Accounted(s', w)
  {
    forall p | 0 <= p < |w.verdicts| ensures SeenOnDisk(s', w, p) {
      assert SeenOnDisk(s, w, p);
      if w.verdicts[p].Skipped? {
        var n :| OnDiskAt(s, w, w.ids[p], w.verdicts[p].seen, n);
        HistoryKept(s, l, s', n);
        assert OnDiskAt(s', w, w.ids[p], w.verdicts[p].seen, n);
      }
    }
    forall p | 0 <= p < |w.verdicts| && w.verdicts[p].Examined? ensures SaidYes(s', w, p) <==> SaidYes(s, w, p) {
      assert VerdictOk(s, w, p);
      OverStays(s, l, s', w.verdicts[p].call);
    }
    forall id | id in w.reaped ensures exists p :: YesFor(s', w, id, p) {
      var p :| YesFor(s, w, id, p);
      assert YesFor(s', w, id, p);
    }
  }

  /** One verdict more, with what it found, in the report exactly when it was yes. */
  lemma AccountNext(s: ClaimState, w: Sweep, w': Sweep)
    requires Accounted(s, w) && |w.verdicts| < |w.ids|
    requires |w'.verdicts| == |w.verdicts| + 1 && w'.verdicts[..|w.verdicts|] == w.verdicts
    requires w' == w.(waiting := w'.waiting, verdicts := w'.verdicts, reaped := w'.reaped)
    requires SeenOnDisk(s, w', |w.verdicts|)
    requires w'.reaped == if SaidYes(s, w', |w.verdicts|) then w.reaped + [w.ids[|w.verdicts|]] else w.reaped
    ensures Accounted(s, w')
  {
    var last := |w.verdicts|;
    forall p | 0 <= p < last
      ensures w'.verdicts[p] == w.verdicts[p] && SeenOnDisk(s, w', p) && (SaidYes(s, w', p) <==> SaidYes(s, w, p))
    {
      assert w'.verdicts[..last][p] == w'.verdicts[p];
      assert SeenOnDisk(s, w, p);
      if w.verdicts[p].Skipped? {
        var n :| OnDiskAt(s, w, w.ids[p], w.verdicts[p].seen, n);
        assert OnDiskAt(s, w', w.ids[p], w.verdicts[p].seen, n);
      }
    }
    forall id | id in w'.reaped ensures exists p :: YesFor(s, w', id, p) {
      if id in w.reaped {
        var p :| YesFor(s, w, id, p);
        assert YesFor(s, w', id, p);
      } else {
        assert YesFor(s, w', id, last);
      }
    }
  }

  ghost predicate AllAccounted(y: System) {
    forall k :: k in y.sweeps ==> Accounted(y.store, y.sweeps[k])
  }

  lemma StoreStepAccounts(y: System, l: ClaimLabel, y': System, k: nat)
    requires SystemInv(y) && AllAccounted(y) && Next(CLAIMS, y.store, l, y'.store) && k in y.sweeps
    ensures Accounted(y'.store, y.sweeps[k])
  {
    assert SweepInv(y.store, y.sweeps[k]) && Accounted(y.store, y.sweeps[k]);
    AccountSurvives(y.store, l, y'.store, y.sweeps[k]);
  }

  lemma FilterAccounts(y: System, k: nat, c: CallId, y': System)
    requires SystemInv(y) && AllAccounted(y) && SystemNext(y, Filter(k, c), y')
    ensures AllAccounted(y')
  {
    var w := y.sweeps[k];
    var id := w.ids[|w.verdicts|];
    var seen := Look(y.store.disk, id);
    assert SweepInv(y.store, w) && Accounted(y.store, w);
    if LiveClaim(seen) {
      forall j | j in y.sweeps ensures Accounted(y'.store, y.sweeps[j]) {
        StoreStepAccounts(y, Open(c, id, ReleaseIfStale(w.now, w.ttl)), y', j);
      }
      WaitingAccounts(y'.store, w, Some(c));
    } else {
      assert y.store.log[..|y.store.log|] == y.store.log;
      assert OnDiskAt(y.store, w, id, seen, |y.store.log|);
      assert OnDiskAt(y.store, y'.sweeps[k], id, seen, |y.store.log|);
      AccountNext(y.store, w, y'.sweeps[k]);
    }
  }

  lemma WaitingAccounts(s: ClaimState, w: Sweep, waiting: Option<CallId>)
    requires Accounted(s, w)
    ensures Accounted(s, w.(waiting := waiting))
  {
    var w' := w.(waiting := waiting);
    forall p | 0 <= p < |w.verdicts| ensures SeenOnDisk(s, w', p) && (SaidYes(s, w', p) <==> SaidYes(s, w, p)) {
      assert SeenOnDisk(s, w, p);
      if w.verdicts[p].Skipped? {
        var n :| OnDiskAt(s, w, w.ids[p], w.verdicts[p].seen, n);
        assert OnDiskAt(s, w', w.ids[p], w.verdicts[p].seen, n);
      }
    }
    forall id | id in w.reaped ensures exists p :: YesFor(s, w', id, p) {
      var p :| YesFor(s, w, id, p);
      assert YesFor(s, w', id, p);
    }
  }

  lemma StepAccounts(y: System, l: SystemLabel, y': System)
    requires SystemInv(y) && AllAccounted(y) && SystemNext(y, l, y')
    ensures AllAccounted(y')
  {
    match l
    case Other(step) =>
      forall k | k in y'.sweeps ensures Accounted(y'.store, y'.sweeps[k]) {
        StoreStepAccounts(y, step, y', k);
      }
    case Start(_, _, _, _) =>
    case Filter(k, c) =>
      FilterAccounts(y, k, c, y');
    case Miss(k) =>
      assert Accounted(y.store, y.sweeps[k]);
      AccountNext(y.store, y.sweeps[k], y'.sweeps[k]);
    case Collect(k) =>
      assert Accounted(y.store, y.sweeps[k]);
      AccountNext(y.store, y.sweeps[k], y'.sweeps[k]);
  }

  lemma {:induction false} RunAccounts(ys: seq<System>, ls: seq<SystemLabel>, t: nat)
    requires SystemRun(ys, ls) && t < |ys|
    ensures AllAccounted(ys[t])
    decreases t
  {
    if t > 0 {
      RunAccounts(ys, ls, t - 1);
      SystemRunInv(ys, ls, t - 1);
      StepAccounts(ys[t - 1], ls[t - 1], ys[t]);
    }
  }

  // ---- the stretch of the run a sweep takes ---------------------------------------------------

  /** Step `b` of the run began the sweep. */
  ghost predicate Began(ys: seq<System>, ls: seq<SystemLabel>, b: nat, k: nat, w: Sweep) {
    b < |ls| < |ys| && ls[b] == Start(k, w.ids, w.now, w.ttl) && |ys[b].store.log| == w.started
  }

  lemma {:induction false} EverySweepBegan(ys: seq<System>, ls: seq<SystemLabel>, t: nat, k: nat) returns (b: nat)
    requires SystemRun(ys, ls) && t < |ys| && k in ys[t].sweeps
    ensures b < t && Began(ys, ls, b, k, ys[t].sweeps[k])
    decreases t
  {
    assert SystemNext(ys[t - 1], ls[t - 1], ys[t]);
    if k in ys[t - 1].sweeps {
      b := EverySweepBegan(ys, ls, t - 1, k);
    } else {
      b := t - 1;
    }
  }

  /** The stores of a run: the log grows by at most one operation a step, and explains the disk. */
  ghost predicate Growing(ss: seq<ClaimState>) {
    && (forall i :: 0 <= i < |ss| ==> Explained(ss[i]))
    && (forall i :: 0 < i < |ss| ==> GrewInto(ss, i))
  }

  ghost predicate Explained(s: ClaimState) {
    s.disk == Replay(CLAIMS, s.init, s.log)
  }

  ghost predicate GrewInto(ss: seq<ClaimState>, i: nat)
    requires 0 < i < |ss|
  {
    ss[i].init == ss[i - 1].init && ss[i - 1].log <= ss[i].log && |ss[i].log| <= |ss[i - 1].log| + 1
  }

  lemma {:induction false} LogsKept(ss: seq<ClaimState>, b: nat, t: nat)
    requires Growing(ss) && b <= t < |ss|
    ensures ss[t].init == ss[b].init && ss[b].log <= ss[t].log
    decreases t
  {
    if b < t {
      LogsKept(ss, b, t - 1);
      assert GrewInto(ss, t);
    }
  }

  /** So each disk of the history was the disk of some state. */
  lemma {:induction false} MomentOf(ss: seq<ClaimState>, b: nat, t: nat, n: nat) returns (u: nat)
    requires Growing(ss) && b <= t < |ss| && |ss[b].log| <= n <= |ss[t].log|
    ensures b <= u <= t && ss[u].disk == DiskAt(CLAIMS, ss[t].init, ss[t].log, n)
    decreases t
  {
    if n == |ss[t].log| {
      u := t;
      assert ss[t].log[..n] == ss[t].log && Explained(ss[t]);
    } else {
      assert GrewInto(ss, t);
      u := MomentOf(ss, b, t - 1, n);
      assert ss[t].log[..n] == ss[t - 1].log[..n];
    }
  }

  ghost function StoresOf(ys: seq<System>): (ss: seq<ClaimState>)
    ensures |ss| == |ys| && forall i :: 0 <= i < |ys| ==> ss[i] == ys[i].store
  {
    seq(|ys|, i requires 0 <= i < |ys| => ys[i].store)
  }

  lemma RunGrows(ys: seq<System>, ls: seq<SystemLabel>)
    requires SystemRun(ys, ls)
    ensures Growing(StoresOf(ys))
  {
    var ss := StoresOf(ys);
    forall i | 0 <= i < |ss| ensures Explained(ss[i]) {
      SystemRunInv(ys, ls, i);
    }
    forall i | 0 < i < |ss| ensures GrewInto(ss, i) {
      LogKept(ys[i - 1], ls[i - 1], ys[i]);
    }
  }

  lemma LogKept(y: System, l: SystemLabel, y': System)
    requires SystemNext(y, l, y')
    ensures y'.store.init == y.store.init && y.store.log <= y'.store.log && |y'.store.log| <= |y.store.log| + 1
  {
    match l
    case Other(step) => EntryAdded(CLAIMS, y.store, step, y'.store);
    case _ =>
  }

  // ---- the outcome ------------------------------------------------------------------------------

  /** An operation of the sweep itself found the record of `id` stale and released it. */
  ghost predicate OwnRelease(s: ClaimState, w: Sweep, id: string, i: nat) {
    w.started <= i < |s.log| && FoundStale(s.log[i], id, w.now, w.ttl) && OwnCall(w, s.log[i].call)
  }

  /**
   A sweep reports exactly the ids one of its own conditional releases answered yes to, and those
   are the ids it released: what it released it reports, and what it reports it released.
   */
  lemma ReportedIsReleased(ys: seq<System>, ls: seq<SystemLabel>, t: nat, k: nat, id: string)
    requires SystemRun(ys, ls) && t < |ys| && k in ys[t].sweeps
    ensures |ys[t].sweeps[k].verdicts| <= |ys[t].sweeps[k].ids|
    ensures id in ys[t].sweeps[k].reaped <==> exists p :: YesFor(ys[t].store, ys[t].sweeps[k], id, p)
    ensures id in ys[t].sweeps[k].reaped <==> exists i :: OwnRelease(ys[t].store, ys[t].sweeps[k], id, i)
  {
    SystemRunInv(ys, ls, t);
    RunAccounts(ys, ls, t);
    assert SweepInv(ys[t].store, ys[t].sweeps[k]) && Accounted(ys[t].store, ys[t].sweeps[k]);
    ReportAccounts(ys[t].store, ys[t].sweeps[k], id);
  }

  lemma ReportAccounts(s: ClaimState, w: Sweep, id: string)
    requires Inv(CLAIMS, s) && SweepInv(s, w) && Accounted(s, w)
    ensures id in w.reaped <==> exists p :: YesFor(s, w, id, p)
    ensures id in w.reaped <==> exists i :: OwnRelease(s, w, id, i)
  {
    if p :| YesFor(s, w, id, p) {
      var i := YesIsRelease(s, w, id, p);
    }
    if i :| OwnRelease(s, w, id, i) {
      assert LegalAt(CLAIMS, s.init, s.log, i);
      var p := OwnWriteIsYes(s, w, id, i);
    }
  }

  /**
   Every id a sweep reports was released by one of its own calls, after it started, in an operation
   that found the record then committed stale at the sweep's own `now`, and left it released.
   */
  lemma ReapedWasStale(ys: seq<System>, ls: seq<SystemLabel>, t: nat, k: nat, id: string) returns (i: nat)
    requires SystemRun(ys, ls) && t < |ys| && k in ys[t].sweeps && id in ys[t].sweeps[k].reaped
    ensures OwnRelease(ys[t].store, ys[t].sweeps[k], id, i)
    ensures var s := ys[t].store;
            && s.log[i].pre == Look(DiskAt(CLAIMS, s.init, s.log, i), id)
            && SlotState(DiskAt(CLAIMS, s.init, s.log, i + 1), id) == Some(Released)
  {
    var s := ys[t].store;
    ReportedIsReleased(ys, ls, t, k, id);
    i :| OwnRelease(s, ys[t].sweeps[k], id, i);
    SystemRunInv(ys, ls, t);
    EntryStep(CLAIMS, s.init, s.log, i);
    EntryEffect(DiskAt(CLAIMS, s.init, s.log, i), s.log[i]);
  }

  lemma YesIsRelease(s: ClaimState, w: Sweep, id: string, p: nat) returns (i: nat)
    requires Inv(CLAIMS, s) && SweepInv(s, w) && YesFor(s, w, id, p)
    ensures OwnRelease(s, w, id, i)
  {
    var c := w.verdicts[p].call;
    assert VerdictOk(s, w, p) && ReapCall(s, w, p, c) && Pointed(CLAIMS, s, c);
    i := s.calls[c].phase.point.value;
    assert EntryOk(s, i) && LegalAt(CLAIMS, s.init, s.log, i);
    assert w.verdicts[p] == Examined(s.log[i].call);
  }

  /** An id a sweep skipped after reading it had no readable live claim on disk at some moment of the sweep. */
  lemma SkippedHadNoClaim(ys: seq<System>, ls: seq<SystemLabel>, t: nat, k: nat, p: nat) returns (b: nat, u: nat)
    requires SystemRun(ys, ls) && t < |ys| && k in ys[t].sweeps
    requires p < |ys[t].sweeps[k].verdicts| && ys[t].sweeps[k].verdicts[p].Skipped?
    ensures Began(ys, ls, b, k, ys[t].sweeps[k]) && b <= u <= t
    ensures p < |ys[t].sweeps[k].ids| && !LiveClaim(Look(ys[u].store.disk, ys[t].sweeps[k].ids[p]))
  {
    var s, w := ys[t].store, ys[t].sweeps[k];
    SystemRunInv(ys, ls, t);
    RunAccounts(ys, ls, t);
    assert SweepInv(s, w) && Accounted(s, w);
    assert VerdictOk(s, w, p) && SeenOnDisk(s, w, p);
    var n :| OnDiskAt(s, w, w.ids[p], w.verdicts[p].seen, n);
    b := EverySweepBegan(ys, ls, t, k);
    RunGrows(ys, ls);
    u := MomentOf(StoresOf(ys), b, t, n);
  }

  /** Whatever was written to `id` since the sweep began, the sweep wrote. */
  ghost predicate OnlyOwnWrites(s: ClaimState, w: Sweep, id: string) {
    forall m :: w.started <= m < |s.log| && s.log[m].key == id && Writes(s.log[m]) ==> OwnCall(w, s.log[m].call)
  }

  ghost predicate OwnCall(w: Sweep, c: CallId) {
    exists p :: 0 <= p < |w.verdicts| && w.verdicts[p] == Examined(c)
  }

  /** The claim is stale whenever the sweep's clock and the probe of the moment are asked. */
  ghost predicate StaleThroughout(s: ClaimState, w: Sweep, id: string, record: ClaimRecord) {
    && IsActive(record.state)
    && forall m :: w.started <= m < |s.log| && s.log[m].key == id && s.log[m].op == ReleaseIfStale(w.now, w.ttl) ==>
                     IsStale(record, w.now, w.ttl, s.log[m].env.isAlive)
  }

  /** No read of `id` and no check on it failed. */
  ghost predicate NothingFailed(s: ClaimState, w: Sweep, id: string)
    requires |w.verdicts| <= |w.ids|
  {
    forall p :: 0 <= p < |w.verdicts| && w.ids[p] == id ==> !w.verdicts[p].Unread? && !CheckFailed(s, w, p)
  }

  /** A sweep that wrote to an id answered yes to it. */
  lemma OwnWriteIsYes(s: ClaimState, w: Sweep, id: string, m: nat) returns (p: nat)
    requires Inv(CLAIMS, s) && SweepInv(s, w) && w.started <= m < |s.log| && s.log[m].key == id
    requires Writes(s.log[m]) && OwnCall(w, s.log[m].call)
    ensures YesFor(s, w, id, p)
  {
    var c := s.log[m].call;
    p :| 0 <= p < |w.verdicts| && w.verdicts[p] == Examined(c);
    assert VerdictOk(s, w, p) && ReapCall(s, w, p, c);
    assert EntryOk(s, m) && Pointed(CLAIMS, s, c) && LegalAt(CLAIMS, s.init, s.log, m);
    EntryIsOwn(s, c, m);
  }

  /** The call an entry belongs to did not fail, and once returned it answered as the entry says. */
  lemma EntryIsOwn(s: ClaimState, c: CallId, m: nat)
    requires Inv(CLAIMS, s) && m < |s.log| && s.log[m].call == c
    ensures c in s.calls && s.calls[c].key == s.log[m].key
    ensures s.calls[c].phase.Returned? ==> s.calls[c].phase.res == s.log[m].res
  {
    assert EntryOk(s, m);
    assert Pointed(CLAIMS, s, c);
    if s.calls[c].phase.Returned? {
      var at := s.calls[c].phase.point.value;
      assert at == m;
    }
  }

  /** Untouched, the record the sweep found at its beginning is the record it decides on. */
  lemma UntouchedDisk(s: ClaimState, w: Sweep, id: string, n: nat)
    requires Inv(CLAIMS, s) && w.started <= n <= |s.log|
    requires forall m :: w.started <= m < |s.log| && s.log[m].key == id ==> !Writes(s.log[m])
    ensures Look(DiskAt(CLAIMS, s.init, s.log, n), id) == Look(DiskAt(CLAIMS, s.init, s.log, w.started), id)
  {
    LastWriteStands(s.init, s.log, id, w.started, n);
  }

  /** A check that did not fail was decided after the sweep began, and if from the stale record, by a write. */
  lemma CheckDecides(s: ClaimState, w: Sweep, p: nat, record: ClaimRecord) returns (at: nat)
    requires Inv(CLAIMS, s) && SweepInv(s, w) && p < |w.verdicts| && w.verdicts[p].Examined?
    requires !CheckFailed(s, w, p) && StaleThroughout(s, w, w.ids[p], record)
    ensures w.started <= at < |s.log| && s.log[at].key == w.ids[p]
    ensures Look(DiskAt(CLAIMS, s.init, s.log, at), w.ids[p]) == Some(Saved(record)) ==> Writes(s.log[at])
  {
    var c := w.verdicts[p].call;
    assert VerdictOk(s, w, p) && ReapCall(s, w, p, c) && Pointed(CLAIMS, s, c);
    at := s.calls[c].phase.point.value;
    assert EntryOk(s, at) && LegalAt(CLAIMS, s.init, s.log, at);
  }

  /** The sweep as it stands accounts for every id whose stale claim nobody else touched. */
  lemma StaleIsReported(s: ClaimState, w: Sweep, id: string, record: ClaimRecord, p: nat)
    requires Inv(CLAIMS, s) && SweepInv(s, w) && Accounted(s, w)
    requires p < |w.verdicts| && w.ids[p] == id
    requires Look(DiskAt(CLAIMS, s.init, s.log, w.started), id) == Some(Saved(record))
    requires StaleThroughout(s, w, id, record) && OnlyOwnWrites(s, w, id) && NothingFailed(s, w, id)
    ensures id in w.reaped
  {
    if m :| w.started <= m < |s.log| && s.log[m].key == id && Writes(s.log[m]) {
      var q := OwnWriteIsYes(s, w, id, m);
    } else {
      assert VerdictOk(s, w, p) && SeenOnDisk(s, w, p);
      match w.verdicts[p]
      case Skipped(seen) =>
        var n :| OnDiskAt(s, w, id, seen, n);
        UntouchedDisk(s, w, id, n);
      case Examined(c) =>
        var at := CheckDecides(s, w, p, record);
        UntouchedDisk(s, w, id, at);
      case Unread =>
    }
  }

  /**
   When a sweep has dealt with all its ids, every one of them that carried a stale claim at the
   beginning, that only the sweep itself wrote to since, and on which no read and no check failed,
   is reported; and so it was released.
   */
  lemma StaleThroughoutIsReaped(ys: seq<System>, ls: seq<SystemLabel>, b: nat, t: nat, k: nat, id: string,
      record: ClaimRecord)
    requires SystemRun(ys, ls) && t < |ys| && k in ys[t].sweeps && Began(ys, ls, b, k, ys[t].sweeps[k]) && b < t
    requires |ys[t].sweeps[k].verdicts| == |ys[t].sweeps[k].ids| && id in ys[t].sweeps[k].ids
    requires Look(ys[b].store.disk, id) == Some(Saved(record))
    requires StaleThroughout(ys[t].store, ys[t].sweeps[k], id, record)
    requires OnlyOwnWrites(ys[t].store, ys[t].sweeps[k], id) && NothingFailed(ys[t].store, ys[t].sweeps[k], id)
    ensures id in ys[t].sweeps[k].reaped
  {
    var s, w := ys[t].store, ys[t].sweeps[k];
    SystemRunInv(ys, ls, b);
    SystemRunInv(ys, ls, t);
    RunAccounts(ys, ls, t);
    assert SweepInv(s, w) && Accounted(s, w);
    RunGrows(ys, ls);
    LogsKept(StoresOf(ys), b, t);
    assert s.log[..w.started] == ys[b].store.log;
    var p :| 0 <= p < |w.ids| && w.ids[p] == id;
    StaleIsReported(s, w, id, record, p);
  }

  // ---- a sweep can always end ---------------------------------------------------------------------

  /** A stretch of a run. */
  ghost predicate Leads(y: System, ys: seq<System>, ls: seq<SystemLabel>, y': System) {
    && |ys| == |ls| + 1 && ys[0] == y && ys[|ls|] == y'
    && forall i :: 0 <= i < |ls| ==> SystemNext(ys[i], ls[i], ys[i + 1])
  }

  ghost predicate CanReach(y: System, y': System) {
    exists ys, ls :: Leads(y, ys, ls, y')
  }

  lemma Stay(y: System)
    ensures CanReach(y, y)
  {
    assert Leads(y, [y], [], y);
  }

  lemma StepThen(y: System, l: SystemLabel, y1: System, y2: System)
    requires SystemNext(y, l, y1) && CanReach(y1, y2)
    ensures CanReach(y, y2)
  {
    var ys, ls :| Leads(y1, ys, ls, y2);
    var ys', ls' := [y] + ys, [l] + ls;
    forall i | 0 <= i < |ls'| ensures SystemNext(ys'[i], ls'[i], ys'[i + 1]) {
      if i > 0 {
        assert SystemNext(ys[i - 1], ls[i - 1], ys[i]);
      }
    }
    assert Leads(y, ys', ls', y2);
  }

  /** How far a call is from its answer, counting whoever holds its lock. */
  ghost function Distance(s: ClaimState, c: CallId): nat
    requires c in s.calls
  {
    if s.calls[c].phase.Opened? then 5 + HeldFor(s, s.calls[c].key) else StepsLeft(s.calls[c].phase)
  }

  ghost function HeldFor(s: ClaimState, key: Key): nat {
    if key in s.holder && s.holder[key] in s.calls then StepsLeft(s.calls[s.holder[key]].phase) else 0
  }

  /** The holder of a lock goes one step on, and holds it still or has let go of it. */
  lemma HolderGoesOn(s: ClaimState, key: Key, env: Env) returns (l: ClaimLabel, s': ClaimState)
    requires Inv(CLAIMS, s) && key in s.holder
    ensures Next(CLAIMS, s, l, s') && l.c == s.holder[key] && Inv(CLAIMS, s')
    ensures !l.Open? && !l.IoFail? && !l.Crash? && HeldFor(s', key) < HeldFor(s, key)
  {
    l, s' := HolderCanProceed(CLAIMS, s, key, env);
    StepInv(CLAIMS, s, l, s');
    OthersKept(CLAIMS, s, l, s');
    if key in s'.holder {
      var d := s'.holder[key];
      assert HoldsLock(s'.calls[d].phase) && s'.calls[d].key == key;
    }
  }

  /** A call under way can take a step towards its answer, itself or by way of the holder of its lock. */
  lemma CallGoesOn(s: ClaimState, c: CallId, env: Env) returns (l: ClaimLabel, s': ClaimState)
    requires Inv(CLAIMS, s) && c in s.calls && (s.calls[c].phase.Opened? || HoldsLock(s.calls[c].phase))
    ensures Next(CLAIMS, s, l, s') && Inv(CLAIMS, s') && c in s'.calls && Distance(s', c) < Distance(s, c)
    ensures s'.calls[c].phase.Opened? || HoldsLock(s'.calls[c].phase) || s'.calls[c].phase.Returned?
  {
    var key := s.calls[c].key;
    if key in s.holder {
      l, s' := HolderGoesOn(s, key, env);
      OthersKept(CLAIMS, s, l, s');
      if l.c == c {
        HolderMoves(s, l, s');
      }
    } else {
      l, s' := Acquire(c), Move(s, c, Locked(s.calls[c].phase.op)).(holder := s.holder[key := c]);
      StepInv(CLAIMS, s, l, s');
    }
  }

  lemma HolderMoves(s: ClaimState, l: ClaimLabel, s': ClaimState)
    requires Next(CLAIMS, s, l, s') && l.c in s.calls && HoldsLock(s.calls[l.c].phase) && !l.IoFail? && !l.Crash?
    ensures HoldsLock(s'.calls[l.c].phase) || s'.calls[l.c].phase.Returned?
    ensures StepsLeft(s'.calls[l.c].phase) < StepsLeft(s.calls[l.c].phase)
  {
  }

  /** Any call that has not died can be brought to an answer, whoever holds its lock. */
  lemma CallCanAnswer(y: System, c: CallId, env: Env) returns (y': System)
    requires SystemInv(y) && c in y.store.calls
    requires y.store.calls[c].phase.Opened? || HoldsLock(y.store.calls[c].phase) || y.store.calls[c].phase.Returned?
    ensures CanReach(y, y') && SystemInv(y') && y'.sweeps == y.sweeps
    ensures c in y'.store.calls && y'.store.calls[c].phase.Returned?
    decreases Distance(y.store, c)
  {
    if y.store.calls[c].phase.Returned? {
      y' := y;
      Stay(y);
    } else {
      var l, s := CallGoesOn(y.store, c, env);
      var y1 := System(s, y.sweeps);
      SystemStepInv(y, Other(l), y1);
      y' := CallCanAnswer(y1, c, env);
      StepThen(y, Other(l), y1, y');
    }
  }

  lemma ThenOn(y: System, y1: System, y2: System)
    requires CanReach(y, y1) && CanReach(y1, y2)
    ensures CanReach(y, y2)
  {
    var ys, ls :| Leads(y, ys, ls, y1);
    var zs, ms :| Leads(y1, zs, ms, y2);
    var all, steps := ys + zs[1..], ls + ms;
    forall i | 0 <= i < |steps| ensures SystemNext(all[i], steps[i], all[i + 1]) {
      if i < |ls| {
        assert SystemNext(ys[i], ls[i], ys[i + 1]);
      } else {
        assert SystemNext(zs[i - |ls|], ms[i - |ls|], zs[i - |ls| + 1]);
      }
    }
    assert Leads(y, all, steps, y2);
  }

  lemma {:induction false} Above(ids: set<nat>) returns (c: nat)
    ensures forall x :: x in ids ==> x < c
  {
    if ids == {} {
      c := 0;
    } else {
      var x :| x in ids;
      var rest := Above(ids - {x});
      c := if x < rest then rest else x + 1;
      assert forall z :: z in ids && z != x ==> z in ids - {x};
    }
  }

  /** The sweep's own process is still there. */
  ghost predicate Alive(y: System, k: nat)
    requires k in y.sweeps
  {
    y.sweeps[k].waiting.Some? ==>
      y.sweeps[k].waiting.value in y.store.calls && !y.store.calls[y.sweeps[k].waiting.value].phase.Crashed?
  }

  /** From any point of a sweep its next verdict can be reached. */
  lemma NextVerdict(y: System, k: nat, env: Env) returns (y': System)
    requires SystemInv(y) && k in y.sweeps && Alive(y, k) && |y.sweeps[k].verdicts| < |y.sweeps[k].ids|
    ensures CanReach(y, y') && SystemInv(y') && k in y'.sweeps && y'.sweeps[k].waiting.None?
    ensures y'.sweeps[k].ids == y.sweeps[k].ids
    ensures y.sweeps[k].verdicts <= y'.sweeps[k].verdicts && |y'.sweeps[k].verdicts| == |y.sweeps[k].verdicts| + 1
    ensures !y'.sweeps[k].verdicts[|y.sweeps[k].verdicts|].Unread?
  {
    if y.sweeps[k].waiting.None? {
      var c := Above(y.store.calls.Keys);
      var y1 := SweepGoesOn(y, k, c);
      SystemStepInv(y, Filter(k, c), y1);
      if y1.sweeps[k].waiting.None? {
        y' := y1;
        Stay(y');
      } else {
        y' := AnswerAndCollect(y1, k, env);
      }
      StepThen(y, Filter(k, c), y1, y');
    } else {
      y' := AnswerAndCollect(y, k, env);
    }
  }

  lemma AnswerAndCollect(y: System, k: nat, env: Env) returns (y': System)
    requires SystemInv(y) && k in y.sweeps && y.sweeps[k].waiting.Some? && Alive(y, k)
    ensures CanReach(y, y') && SystemInv(y') && k in y'.sweeps && y'.sweeps[k].waiting.None?
    ensures y'.sweeps[k].ids == y.sweeps[k].ids
    ensures y'.sweeps[k].verdicts == y.sweeps[k].verdicts + [Examined(y.sweeps[k].waiting.value)]
  {
    var c := y.sweeps[k].waiting.value;
    var y1 := y;
    if y.store.calls[c].phase.Failed? {
      Stay(y);
    } else {
      y1 := CallCanAnswer(y, c, env);
    }
    y' := SweepCollects(y1, k);
    SystemStepInv(y1, Collect(k), y');
    Stay(y');
    StepThen(y1, Collect(k), y', y');
    ThenOn(y, y1, y');
  }

  /**
   Whatever the files hold, unreadable records included, and wherever every other process stands
   or has died, a sweep whose own process is alive can go through all its remaining ids, reading
   each and re-checking every live claim, to its end.
   */
  lemma SweepCanEnd(y: System, k: nat, env: Env) returns (y': System)
    requires SystemInv(y) && k in y.sweeps && Alive(y, k)
    ensures CanReach(y, y') && k in y'.sweeps && y'.sweeps[k].ids == y.sweeps[k].ids
    ensures y.sweeps[k].verdicts <= y'.sweeps[k].verdicts && |y'.sweeps[k].verdicts| == |y'.sweeps[k].ids|
    ensures forall p :: |y.sweeps[k].verdicts| <= p < |y'.sweeps[k].ids| ==> !y'.sweeps[k].verdicts[p].Unread?
    decreases |y.sweeps[k].ids| - |y.sweeps[k].verdicts|
  {
    assert SweepInv(y.store, y.sweeps[k]);
    if |y.sweeps[k].verdicts| == |y.sweeps[k].ids| {
      y' := y;
      Stay(y);
    } else {
      var y1 := NextVerdict(y, k, env);
      y' := SweepCanEnd(y1, k, env);
      ThenOn(y, y1, y');
    }
  }
}
