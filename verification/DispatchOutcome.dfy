/**
 The dispatching half of the tick of crates/apohara-coordinator/src/coordinator.rs among other
 processes: the graph is read once, then the record of each unblocked node without any lock, while
 claims, sweeps and other ticks go on.
 */
module DispatchOutcome {
  import opened LockedStore
  import opened Options
  import opened Claims
  import opened ClaimProtocol
  import opened Reaper
  import opened SweepOutcome
  import opened Cycles
  import opened TaskGraphs

  /** The ids of the unblocked nodes, in the order of the graph. */
  ghost function Wanted(nodes: seq<TaskNode>, done: set<string>): (ids: seq<string>)
    ensures forall id :: id in ids <==> exists k :: 0 <= k < |nodes| && nodes[k].id == id && Unblocked(nodes[k], done)
  {
    if nodes == [] then []
    else
      var rest, last := Wanted(nodes[..|nodes| - 1], done), nodes[|nodes| - 1];
      if Unblocked(last, done) then rest + [last.id] else rest
  }

  /** One listing under way: the graph as it was read, and the records read so far. */
  datatype Scan = Scan(
    sweep: Option<nat>,                  // the sweep of the same tick; None: its listing failed
    nodes: seq<TaskNode>, done: set<string>,
    began: nat,                          // operations decided before it began
    read: seq<Option<ClaimFile>>,
    failed: bool)

  datatype Mesh = Mesh(system: System, scans: map<nat, Scan>)

  datatype MeshLabel =
    | Elsewhere(l: SystemLabel)
    | BeginScan(j: nat, sweep: Option<nat>, nodes: seq<TaskNode>, done: set<string>)
    | ReadNext(j: nat)
    | ReadFails(j: nat)

  ghost function WantedBy(scan: Scan): seq<string> {
    Wanted(scan.nodes, scan.done)
  }

  /** A sweep that went through all its ids and freed nothing. */
  ghost predicate FreedNothing(y: System, k: nat) {
    k in y.sweeps && |y.sweeps[k].verdicts| == |y.sweeps[k].ids| && y.sweeps[k].reaped == []
  }

  ghost predicate CanRead(m: Mesh, j: nat) {
    j in m.scans && !m.scans[j].failed && |m.scans[j].read| < |WantedBy(m.scans[j])|
  }

  ghost predicate MeshNext(m: Mesh, l: MeshLabel, m': Mesh) {
    match l
    case Elsewhere(step) =>
      SystemNext(m.system, step, m'.system) && m'.scans == m.scans
    case BeginScan(j, sweep, nodes, done) =>
      && j !in m.scans && (sweep.Some? ==> FreedNothing(m.system, sweep.value))
      && m' == m.(scans := m.scans[j := Scan(sweep, nodes, done, |m.system.store.log|, [], false)])
    case ReadNext(j) =>
      && CanRead(m, j)
      && var scan := m.scans[j];
         var seen := Look(m.system.store.disk, WantedBy(scan)[|scan.read|]);
         m' == m.(scans := m.scans[j := if seen == Some(Unreadable) then scan.(failed := true)
             else scan.(read := scan.read + [seen])])
    case ReadFails(j) =>
      CanRead(m, j) && m' == m.(scans := m.scans[j := m.scans[j].(failed := true)])
  }

  ghost predicate MeshRun(ms: seq<Mesh>, ls: seq<MeshLabel>) {
    && |ms| == |ls| + 1 && SystemInit(ms[0].system) && ms[0].scans == map[]
    && forall i :: 0 <= i < |ls| ==> MeshNext(ms[i], ls[i], ms[i + 1])
  }

  ghost predicate Complete(scan: Scan) {
    !scan.failed && |scan.read| == |WantedBy(scan)|
  }

  /** Read number `i` was of `id`, and found its slot open. */
  ghost predicate FoundOpen(scan: Scan, id: string, i: nat) {
    i < |scan.read| <= |WantedBy(scan)| && WantedBy(scan)[i] == id && OpenFile(scan.read[i])
  }

  /** The tick dispatches the id. */
  ghost predicate Dispatches(scan: Scan, id: string) {
    Complete(scan) && exists i :: FoundOpen(scan, id, i)
  }

  // ---- what was read was on disk --------------------------------------------------------------

  ghost predicate ReadAt(s: ClaimState, scan: Scan, i: nat, n: nat)
    requires i < |scan.read| <= |WantedBy(scan)|
  {
    scan.began <= n <= |s.log| && Look(DiskAt(CLAIMS, s.init, s.log, n), WantedBy(scan)[i]) == scan.read[i]
  }

  ghost predicate WasOnDisk(s: ClaimState, scan: Scan, i: nat)
    requires i < |scan.read| <= |WantedBy(scan)|
  {
    exists n :: ReadAt(s, scan, i, n)
  }

  ghost predicate ScanInv(y: System, scan: Scan) {
    && scan.began <= |y.store.log| && |scan.read| <= |WantedBy(scan)|
    && (scan.sweep.Some? ==> FreedNothing(y, scan.sweep.value))
    && forall i :: 0 <= i < |scan.read| ==> WasOnDisk(y.store, scan, i)
  }

  ghost predicate MeshInv(m: Mesh) {
    && SystemInv(m.system) && AllAccounted(m.system)
    && forall j :: j in m.scans ==> ScanInv(m.system, m.scans[j])
  }

  lemma FinishedSweepStays(y: System, l: SystemLabel, y': System, k: nat)
    requires SystemNext(y, l, y') && FreedNothing(y, k)
    ensures FreedNothing(y', k)
  {
  }

  lemma DisksKept(y: System, l: SystemLabel, y': System, n: nat)
    requires SystemNext(y, l, y') && n <= |y.store.log|
    ensures n <= |y'.store.log| && DiskAt(CLAIMS, y'.store.init, y'.store.log, n)
        == DiskAt(CLAIMS, y.store.init, y.store.log, n)
  {
    LogKept(y, l, y');
    assert y'.store.log[..n] == y.store.log[..n];
  }

  lemma ScanSurvives(y: System, l: SystemLabel, y': System, scan: Scan)
    requires SystemNext(y, l, y') && ScanInv(y, scan)
    ensures ScanInv(y', scan)
  {
    LogKept(y, l, y');
    if scan.sweep.Some? {
      FinishedSweepStays(y, l, y', scan.sweep.value);
    }
    forall i | 0 <= i < |scan.read| ensures WasOnDisk(y'.store, scan, i) {
      assert WasOnDisk(y.store, scan, i);
      var n :| ReadAt(y.store, scan, i, n);
      DisksKept(y, l, y', n);
      assert ReadAt(y'.store, scan, i, n);
    }
  }

  lemma ReadKeepsInv(y: System, scan: Scan)
    requires SystemInv(y) && ScanInv(y, scan) && |scan.read| < |WantedBy(scan)|
    ensures ScanInv(y, scan.(read := scan.read + [Look(y.store.disk, WantedBy(scan)[|scan.read|])]))
    ensures ScanInv(y, scan.(failed := true))
  {
    var scan' := scan.(read := scan.read + [Look(y.store.disk, WantedBy(scan)[|scan.read|])]);
    forall i | 0 <= i < |scan.read|
        ensures WasOnDisk(y.store, scan', i) && WasOnDisk(y.store, scan.(failed := true), i) {
      assert WasOnDisk(y.store, scan, i);
      var n :| ReadAt(y.store, scan, i, n);
      assert ReadAt(y.store, scan', i, n) && ReadAt(y.store, scan.(failed := true), i, n);
    }
    assert y.store.log[..|y.store.log|] == y.store.log;
    assert ReadAt(y.store, scan', |scan.read|, |y.store.log|);
  }

  lemma MeshStepInv(m: Mesh, l: MeshLabel, m': Mesh)
    requires MeshInv(m) && MeshNext(m, l, m')
    ensures MeshInv(m')
  {
    match l
    case Elsewhere(step) =>
      SystemStepInv(m.system, step, m'.system);
      StepAccounts(m.system, step, m'.system);
      forall j | j in m'.scans ensures ScanInv(m'.system, m'.scans[j]) {
        ScanSurvives(m.system, step, m'.system, m.scans[j]);
      }
    case BeginScan(_, _, _, _) =>
    case ReadNext(j) => ReadKeepsInv(m.system, m.scans[j]);
    case ReadFails(j) => ReadKeepsInv(m.system, m.scans[j]);
  }

  lemma {:induction false} MeshRunInv(ms: seq<Mesh>, ls: seq<MeshLabel>, t: nat)
    requires MeshRun(ms, ls) && t < |ms|
    ensures MeshInv(ms[t])
    decreases t
  {
    if t == 0 {
      InitInv(CLAIMS, ms[0].system.store);
    } else {
      MeshRunInv(ms, ls, t - 1);
      MeshStepInv(ms[t - 1], ls[t - 1], ms[t]);
    }
  }

  // ---- the stretch of the run a listing takes ----------------------------------------------------

  ghost predicate ScanBegan(ms: seq<Mesh>, ls: seq<MeshLabel>, b: nat, j: nat, scan: Scan) {
    && b < |ls| < |ms| && ls[b] == BeginScan(j, scan.sweep, scan.nodes, scan.done)
    && |ms[b].system.store.log| == scan.began
  }

  lemma {:induction false} EveryScanBegan(ms: seq<Mesh>, ls: seq<MeshLabel>, t: nat, j: nat) returns (b: nat)
    requires MeshRun(ms, ls) && t < |ms| && j in ms[t].scans
    ensures b < t && ScanBegan(ms, ls, b, j, ms[t].scans[j])
    decreases t
  {
    assert MeshNext(ms[t - 1], ls[t - 1], ms[t]);
    if j in ms[t - 1].scans {
      b := EveryScanBegan(ms, ls, t - 1, j);
    } else {
      b := t - 1;
    }
  }

  lemma MeshLogKept(m: Mesh, l: MeshLabel, m': Mesh)
    requires MeshNext(m, l, m')
    ensures m'.system.store.init == m.system.store.init && m.system.store.log <= m'.system.store.log
    ensures |m'.system.store.log| <= |m.system.store.log| + 1
  {
    match l
    case Elsewhere(step) => LogKept(m.system, step, m'.system);
    case _ =>
  }

  ghost function MeshStores(ms: seq<Mesh>): (ss: seq<ClaimState>)
    ensures |ss| == |ms| && forall i :: 0 <= i < |ms| ==> ss[i] == ms[i].system.store
  {
    seq(|ms|, i requires 0 <= i < |ms| => ms[i].system.store)
  }

  lemma MeshGrows(ms: seq<Mesh>, ls: seq<MeshLabel>)
    requires MeshRun(ms, ls)
    ensures Growing(MeshStores(ms))
  {
    var ss := MeshStores(ms);
    forall i | 0 <= i < |ss| ensures Explained(ss[i]) {
      MeshRunInv(ms, ls, i);
    }
    forall i | 0 < i < |ss| ensures GrewInto(ss, i) {
      MeshLogKept(ms[i - 1], ls[i - 1], ms[i]);
    }
  }

  // ---- the outcome ---------------------------------------------------------------------------------

  /**
   Every id a tick dispatches, in every interleaving: its dependencies were done when the graph was
   read, its slot was open at some moment after that, and the tick's own sweep, if it got that far,
   had freed nothing.
   */
  lemma DispatchedWasOpen(ms: seq<Mesh>, ls: seq<MeshLabel>, t: nat, j: nat, id: string) returns (b: nat, u: nat)
    requires MeshRun(ms, ls) && t < |ms| && j in ms[t].scans && Dispatches(ms[t].scans[j], id)
    ensures ScanBegan(ms, ls, b, j, ms[t].scans[j]) && b <= u <= t
    ensures SlotOpen(ms[u].system.store.disk, id)
    ensures var nodes, done := ms[t].scans[j].nodes, ms[t].scans[j].done;
            exists k :: 0 <= k < |nodes| && nodes[k].id == id && Unblocked(nodes[k], done)
    ensures ms[t].scans[j].sweep.Some? ==> FreedNothing(ms[t].system, ms[t].scans[j].sweep.value)
  {
    var s, scan := ms[t].system.store, ms[t].scans[j];
    MeshRunInv(ms, ls, t);
    assert ScanInv(ms[t].system, scan);
    var i :| FoundOpen(scan, id, i);
    assert WasOnDisk(s, scan, i);
    var n :| ReadAt(s, scan, i, n);
    b := EveryScanBegan(ms, ls, t, j);
    MeshGrows(ms, ls);
    u := MomentOf(MeshStores(ms), b, t, n);
    assert id in WantedBy(scan);
  }

  /** The sweep had the id on its list, and one stale claim on disk throughout, which nobody else wrote to. */
  ghost predicate HeldStale(s: ClaimState, w: Sweep, id: string, record: ClaimRecord) {
    && id in w.ids && w.started <= |s.log|
    && Look(DiskAt(CLAIMS, s.init, s.log, w.started), id) == Some(Saved(record))
    && StaleThroughout(s, w, id, record) && OnlyOwnWrites(s, w, id)
  }

  /** A finished sweep failed to read the id, or to check it. */
  ghost predicate FailedOn(s: ClaimState, w: Sweep, id: string) {
    && |w.verdicts| == |w.ids|
    && exists p :: 0 <= p < |w.ids| && w.ids[p] == id && (w.verdicts[p].Unread? || CheckFailed(s, w, p))
  }

  /**
   What freeing nothing means: when a tick that swept goes on to dispatch, an id on its list that
   carried a stale claim throughout, written to by nobody else, had a read or a check that failed.
   */
  lemma QuietSweepMissedNothing(ms: seq<Mesh>, ls: seq<MeshLabel>, b: nat, t: nat, j: nat, k: nat, id: string,
      record: ClaimRecord)
    requires MeshRun(ms, ls) && t < |ms| && j in ms[t].scans && ScanBegan(ms, ls, b, j, ms[t].scans[j])
    requires ms[t].scans[j].sweep == Some(k) && k in ms[b].system.sweeps
    requires HeldStale(ms[b].system.store, ms[b].system.sweeps[k], id, record)
    ensures FailedOn(ms[b].system.store, ms[b].system.sweeps[k], id)
  {
    var s, w := ms[b].system.store, ms[b].system.sweeps[k];
    MeshRunInv(ms, ls, b);
    assert MeshNext(ms[b], ls[b], ms[b + 1]);
    assert SweepInv(s, w) && Accounted(s, w);
    if NothingFailed(s, w, id) {
      var p :| 0 <= p < |w.ids| && w.ids[p] == id;
      StaleIsReported(s, w, id, record, p);
    }
  }

  /** Conversely an unblocked id whose slot was open when the listing began, untouched since, is dispatched. */
  lemma OpenThroughoutIsDispatched(ms: seq<Mesh>, ls: seq<MeshLabel>, b: nat, t: nat, j: nat, id: string)
    requires MeshRun(ms, ls) && t < |ms| && j in ms[t].scans && Complete(ms[t].scans[j])
    requires ScanBegan(ms, ls, b, j, ms[t].scans[j]) && b < t
    requires id in WantedBy(ms[t].scans[j]) && SlotOpen(ms[b].system.store.disk, id)
    requires var log := ms[t].system.store.log;
             forall m :: ms[t].scans[j].began <= m < |log| && log[m].key == id ==> !Writes(log[m])
    ensures Dispatches(ms[t].scans[j], id)
  {
    var s, scan := ms[t].system.store, ms[t].scans[j];
    MeshRunInv(ms, ls, b);
    MeshRunInv(ms, ls, t);
    assert ScanInv(ms[t].system, scan);
    MeshGrows(ms, ls);
    LogsKept(MeshStores(ms), b, t);
    assert s.log[..scan.began] == ms[b].system.store.log;
    var i :| 0 <= i < |WantedBy(scan)| && WantedBy(scan)[i] == id;
    assert WasOnDisk(s, scan, i);
    var n :| ReadAt(s, scan, i, n);
    LastWriteStands(s.init, s.log, id, scan.began, n);
    assert FoundOpen(scan, id, i);
  }

  /** And an attempt to claim what was found open is granted, unless someone wrote to it in between. */
  lemma FoundOpenIsGranted(s: ClaimState, scan: Scan, i: nat, n: nat, m: nat)
    requires Inv(CLAIMS, s) && i < |scan.read| <= |WantedBy(scan)| && ReadAt(s, scan, i, n) && OpenFile(scan.read[i])
    requires n <= m < |s.log| && s.log[m].key == WantedBy(scan)[i] && s.log[m].op.TryClaim?
    requires forall x :: n <= x < m && s.log[x].key == s.log[m].key ==> !Writes(s.log[x])
    ensures Acquires(s.log[m])
  {
    LastWriteStands(s.init, s.log, s.log[m].key, n, m);
    EntryStep(CLAIMS, s.init, s.log, m);
  }
}
