/**
 The claim store of crates/apohara-dispatch/src/claim.rs: what each operation does to
 one task's record while it holds that task's lock, and the store that performs them.
 `ClaimProtocol` interleaves the same operations.
 */
module Claims {
  import opened LockedStore
  import opened Options
  import opened RunStates
  import opened Sorting

  const I64_MIN := -0x8000_0000_0000_0000
  const I64_MAX := 0x7FFF_FFFF_FFFF_FFFF

  type I64 = x: int | I64_MIN <= x <= I64_MAX witness 0

  /** The injected liveness probe: is `pid`, started then, still running? */
  type Probe = (nat, Option<nat>) -> bool

  datatype Heartbeat = Heartbeat(pid: nat, lastBeatMs: I64, pidStartTime: Option<nat>)

  datatype ClaimRecord = ClaimRecord(
    taskId: string,
    state: RunState,
    token: Option<string>,
    claimedAtMs: Option<I64>,
    heartbeat: Option<Heartbeat>)

  /** A record file that parses, or one that does not. A missing file is a missing key. */
  datatype ClaimFile = Unreadable | Saved(record: ClaimRecord)

  datatype ClaimOp =
    | TryClaim
    | Beat(token: string, pid: nat, now: I64, pidStartTime: Option<nat>)
    | Report(token: string)
    | Release
    | ReleaseIfStale(now: I64, ttl: I64)

  /** What an operation takes from outside: a freshly minted token, the clock and the probe. */
  datatype Env = Env(minted: string, now: I64, isAlive: Probe)

  /** The outcomes and errors of all five operations. */
  datatype Answer =
    | Acquired(token: string) | AlreadyClaimed
    | Accepted | StaleToken
    | Freed
    | Reaped(released: bool)
    | IllegalTransition(from: RunState, to: RunState)
    | BadRecord

  // ---- staleness ------------------------------------------------------------

  function SaturatingAdd(a: I64, b: I64): I64 {
    if a + b > I64_MAX then I64_MAX else if a + b < I64_MIN then I64_MIN else a + b
  }

  /** The later of the mint time and the last beat; 0 for a record with neither. */
  function LastSeen(record: ClaimRecord): I64 {
    match (record.claimedAtMs, record.heartbeat)
    case (None, None) => 0
    case (Some(at), None) => at
    case (None, Some(beat)) => beat.lastBeatMs
    case (Some(at), Some(beat)) => if at > beat.lastBeatMs then at else beat.lastBeatMs
  }

  predicate HolderDead(record: ClaimRecord, isAlive: Probe) {
    record.heartbeat.Some? && !isAlive(record.heartbeat.value.pid, record.heartbeat.value.pidStartTime)
  }

  predicate IsStale(record: ClaimRecord, now: I64, ttl: I64, isAlive: Probe) {
    && IsActive(record.state)
    && (now > SaturatingAdd(LastSeen(record), ttl) || HolderDead(record, isAlive))
  }

  /** The saturating deadline is the exact one as far as any clock can tell. */
  lemma BeatWithinTtlIsFresh(record: ClaimRecord, now: I64, ttl: I64, isAlive: Probe)
    requires record.heartbeat.Some? && now - ttl <= record.heartbeat.value.lastBeatMs
    requires isAlive(record.heartbeat.value.pid, record.heartbeat.value.pidStartTime)
    ensures !IsStale(record, now, ttl, isAlive)
  {
  }

  /** The last sign of life is the latest time the record gives, and the epoch when it gives none. */
  lemma LastSeenIsLatest(record: ClaimRecord)
    ensures record.claimedAtMs.Some? ==> record.claimedAtMs.value <= LastSeen(record)
    ensures record.heartbeat.Some? ==> record.heartbeat.value.lastBeatMs <= LastSeen(record)
    ensures || record.claimedAtMs == Some(LastSeen(record))
            || (record.heartbeat.Some? && record.heartbeat.value.lastBeatMs == LastSeen(record))
            || (record.claimedAtMs.None? && record.heartbeat.None? && LastSeen(record) == 0)
  {
  }

  /** Minted, and last heard of, longer ago than the timeout; a record that says neither dates from the epoch. */
  ghost predicate SilentFor(record: ClaimRecord, now: I64, ttl: I64) {
    && (record.claimedAtMs.Some? ==> now - record.claimedAtMs.value > ttl)
    && (record.heartbeat.Some? ==> now - record.heartbeat.value.lastBeatMs > ttl)
    && (record.claimedAtMs.None? && record.heartbeat.None? ==> now > ttl)
  }

  /** A claim is stale exactly when it is silent for longer than the timeout, or its last beat's process is gone. */
  lemma StaleExactly(record: ClaimRecord, now: I64, ttl: I64, isAlive: Probe)
    requires !(LastSeen(record) + ttl < I64_MIN && now == I64_MIN)
    ensures IsStale(record, now, ttl, isAlive) <==>
              && (record.state.Claimed? || record.state.Running?)
              && (SilentFor(record, now, ttl)
                  || (record.heartbeat.Some?
                      && !isAlive(record.heartbeat.value.pid, record.heartbeat.value.pidStartTime)))
  {
    SaturationExactly(LastSeen(record), ttl, now);
  }

  /** Saturation shows only at the very first instant, and only for a deadline before it. */
  lemma SaturationExactly(lastSeen: I64, ttl: I64, now: I64)
    ensures (now > SaturatingAdd(lastSeen, ttl) <==> now > lastSeen + ttl)
        <==> !(lastSeen + ttl < I64_MIN && now == I64_MIN)
  {
  }

  // ---- the decisions --------------------------------------------------------

  /** A freed slot carries no token and no liveness metadata. */
  function FreedRecord(taskId: string): ClaimRecord {
    ClaimRecord(taskId, Released, None, None, None)
  }

  function DecideClaim(taskId: string, env: Env, file: Option<ClaimFile>): Decision<ClaimFile, Answer> {
    if file == Some(Unreadable) then Reply(BadRecord)
    else
      var from := if file.Some? then file.value.record.state else Unclaimed;
      if !from.Unclaimed? && !from.Released? then Reply(AlreadyClaimed)
      else
        var effective := if from.Released? then Unclaimed else from;
        if !CanTransition(effective, Claimed) then Reply(IllegalTransition(effective, Claimed))
        else Commit(Some(Saved(ClaimRecord(taskId, Claimed, Some(env.minted), Some(env.now), None))),
            Acquired(env.minted))
  }

  /** The record with its liveness proof renewed and everything else kept. */
  function Beaten(record: ClaimRecord, pid: nat, now: I64, pidStartTime: Option<nat>): ClaimRecord {
    record.(heartbeat := Some(Heartbeat(pid, now, pidStartTime)))
  }

  function DecideBeat(token: string, pid: nat, now: I64, pidStartTime: Option<nat>,
      file: Option<ClaimFile>): Decision<ClaimFile, Answer>
  {
    match file
    case Some(Unreadable) => Reply(BadRecord)
    case Some(Saved(record)) =>
      if record.token == Some(token) then Commit(Some(Saved(Beaten(record, pid, now, pidStartTime))), Accepted)
      else Reply(StaleToken)
    case None => Reply(StaleToken)
  }

  function DecideReport(taskId: string, token: string, file: Option<ClaimFile>): Decision<ClaimFile, Answer> {
    match file
    case Some(Unreadable) => Reply(BadRecord)
    case Some(Saved(record)) =>
      if record.token == Some(token) then Commit(Some(Saved(FreedRecord(taskId))), Accepted)
      else Reply(StaleToken)
    case None => Reply(StaleToken)
  }

  function DecideReap(taskId: string, now: I64, ttl: I64, isAlive: Probe,
      file: Option<ClaimFile>): Decision<ClaimFile, Answer>
  {
    match file
    case Some(Unreadable) => Reply(BadRecord)
    case Some(Saved(record)) =>
      if IsStale(record, now, ttl, isAlive) then Commit(Some(Saved(FreedRecord(taskId))), Reaped(true))
      else Reply(Reaped(false))
    case None => Reply(Reaped(false))
  }

  function Decide(taskId: string, op: ClaimOp, env: Env, file: Option<ClaimFile>): Decision<ClaimFile, Answer> {
    match op
    case TryClaim => DecideClaim(taskId, env, file)
    case Beat(token, pid, now, start) => DecideBeat(token, pid, now, start, file)
    case Report(token) => DecideReport(taskId, token, file)
    case Release => Commit(Some(Saved(FreedRecord(taskId))), Freed)
    case ReleaseIfStale(now, ttl) => DecideReap(taskId, now, ttl, env.isAlive, file)
  }

  /** A beat keeps the claim as it is and never makes it look older: the mint time still counts. */
  lemma BeatNeverAges(record: ClaimRecord, pid: nat, now: I64, pidStartTime: Option<nat>)
    ensures var beaten := Beaten(record, pid, now, pidStartTime);
            && beaten.token == record.token && beaten.state == record.state && beaten.taskId == record.taskId
            && now <= LastSeen(beaten)
            && (record.claimedAtMs.Some? ==> record.claimedAtMs.value <= LastSeen(beaten))
            && (LastSeen(beaten) == now || Some(LastSeen(beaten)) == record.claimedAtMs)
  {
  }

  ghost function StateIn(file: Option<ClaimFile>): RunState {
    if file.Some? && file.value.Saved? then file.value.record.state else Unclaimed
  }

  /** No move, a legal move, or two legal moves by way of the unclaimed state. */
  ghost predicate LegalMove(from: RunState, to: RunState) {
    from == to || CanTransition(from, to) || (CanTransition(from, Unclaimed) && CanTransition(Unclaimed, to))
  }

  /**
   Every operation moves a readable slot legally, except exactly that releasing or reporting frees an
   unclaimed one.
   */
  lemma MovesLegally(taskId: string, op: ClaimOp, env: Env, file: Option<ClaimFile>)
    requires file != Some(Unreadable) && Decide(taskId, op, env, file).Commit?
    ensures LegalMove(StateIn(file), StateIn(Decide(taskId, op, env, file).file))
       <==> !(StateIn(file).Unclaimed? && (op.Release? || op.Report?))
  {
  }

  /** Releasing a task nobody ever claimed makes that jump. */
  lemma ReleaseJumps(taskId: string, env: Env)
    ensures Decide(taskId, Release, env, None) == Commit(Some(Saved(FreedRecord(taskId))), Freed)
    ensures StateIn(Some(Saved(FreedRecord(taskId)))) == Released && !LegalMove(Unclaimed, Released)
  {
  }

  /** A claim attempt on this file is granted: no record, or one whose state is claimable. */
  ghost predicate OpenFile(file: Option<ClaimFile>) {
    file.Some? ==> file.value.Saved? && IsClaimable(file.value.record.state)
  }

  ghost predicate SlotOpen(files: map<string, ClaimFile>, id: string) {
    OpenFile(Look(files, id))
  }

  /** The token of a readable record. */
  ghost function TokenIn(file: Option<ClaimFile>): Option<string> {
    if file.Some? && file.value.Saved? then file.value.record.token else None
  }

  ghost predicate StaleIn(file: Option<ClaimFile>, now: I64, ttl: I64, isAlive: Probe) {
    file.Some? && file.value.Saved? && IsStale(file.value.record, now, ttl, isAlive)
  }

  /**
   What each operation answers, and that it writes exactly when it grants: a claim on an open slot, a beat
   or a report by the token on disk, any release, a conditional release of a stale claim. An unreadable
   record answers everything but a release.
   */
  lemma AnswersExactly(taskId: string, op: ClaimOp, env: Env, file: Option<ClaimFile>)
    ensures var d := Decide(taskId, op, env, file);
            match op {
              case TryClaim =>
                && (d.Commit? <==> OpenFile(file))
                && d.res == if file == Some(Unreadable) then BadRecord
                            else if OpenFile(file) then Acquired(env.minted) else AlreadyClaimed
              case Beat(token, _, _, _) =>
                && (d.Commit? <==> TokenIn(file) == Some(token))
                && d.res == if file == Some(Unreadable) then BadRecord
                            else if TokenIn(file) == Some(token) then Accepted else StaleToken
              case Report(token) =>
                && (d.Commit? <==> TokenIn(file) == Some(token))
                && d.res == if file == Some(Unreadable) then BadRecord
                            else if TokenIn(file) == Some(token) then Accepted else StaleToken
              case Release => d == Commit(Some(Saved(FreedRecord(taskId))), Freed)
              case ReleaseIfStale(now, ttl) =>
                && (d.Commit? <==> StaleIn(file, now, ttl, env.isAlive))
                && d.res == if file == Some(Unreadable) then BadRecord
                            else Reaped(StaleIn(file, now, ttl, env.isAlive))
            }
  {
  }

  // ---- the store ------------------------------------------------------------

  /** Every readable file is named after the task its record names. */
  ghost predicate WellNamed(files: map<string, ClaimFile>) {
    forall k :: k in files && files[k].Saved? ==> files[k].record.taskId == k
  }

  /**
   Records are persisted under the name they carry, so an operation on a well-named file
   writes that file and no other, and leaves it well named.
   */
  lemma WritesOwnFile(taskId: string, op: ClaimOp, env: Env, files: map<string, ClaimFile>)
    requires WellNamed(files)
    ensures var d := Decide(taskId, op, env, Look(files, taskId));
            d.Commit? ==>
              && d.file.Some? && d.file.value.Saved? && d.file.value.record.taskId == taskId
              && WellNamed(Put(files, taskId, d.file))
  {
    var file := Look(files, taskId);
    if file.Some? && file.value.Saved? {
      assert files[taskId].record.taskId == taskId;
    }
  }

  const ANYONE: Probe := (pid, start) => true

  /** `answer` and the move from `before` to `after` are one whole operation on `taskId`. */
  ghost predicate Performs(before: map<string, ClaimFile>, after: map<string, ClaimFile>,
                           taskId: string, op: ClaimOp, env: Env, answer: Answer)
  {
    match Decide(taskId, op, env, Look(before, taskId))
    case Reply(res) => answer == res && after == before
    case Commit(file, res) => answer == res && after == Put(before, taskId, file)
  }

  /** The listing of a readable store: its records, in increasing order of task id. */
  ghost predicate IsListing(files: map<string, ClaimFile>, records: seq<ClaimRecord>) {
    && (forall i, j :: 0 <= i < j < |records| ==>
        records[i].taskId != records[j].taskId && Below(records[i].taskId, records[j].taskId))
    && (forall r :: r in records <==> r.taskId in files && files[r.taskId] == Saved(r))
  }

  class ClaimStore {
    var files: map<string, ClaimFile>

    ghost predicate Valid()
      reads this
    {
      WellNamed(files)
    }

    constructor ()
      ensures Valid() && files == map[]
    {
      files := map[];
    }

    function Load(taskId: string): Option<ClaimFile>
      reads this
    {
      if taskId in files then Some(files[taskId]) else None
    }

    /** The atomic rename: the record replaces the file it names. */
    method Persist(record: ClaimRecord)
      modifies this
      ensures files == old(files)[record.taskId := Saved(record)]
    {
      files := files[record.taskId := Saved(record)];
    }

    method TryClaim(taskId: string, minted: string, now: I64) returns (answer: Answer)
      requires Valid()
      modifies this
      ensures Valid()
      ensures Performs(old(files), files, taskId, ClaimOp.TryClaim, Env(minted, now, ANYONE), answer)
    {
      WritesOwnFile(taskId, ClaimOp.TryClaim, Env(minted, now, ANYONE), files);
      var from := Unclaimed;
      match Load(taskId) {
        case Some(Unreadable) => return BadRecord;
        case Some(Saved(record)) => from := record.state;
        case None =>
      }
      if from != Unclaimed && from != Released {
        return AlreadyClaimed;
      }
      var effective := if from == Released then Unclaimed else from;
      if !CanTransition(effective, Claimed) {
        return IllegalTransition(effective, Claimed);
      }
      Persist(ClaimRecord(taskId, Claimed, Some(minted), Some(now), None));
      return Acquired(minted);
    }

    method Heartbeat(taskId: string, token: string, pid: nat, now: I64, pidStartTime: Option<nat>)
        returns (answer: Answer)
      requires Valid()
      modifies this
      ensures Valid()
      ensures Performs(old(files), files, taskId, Beat(token, pid, now, pidStartTime), Env("", now, ANYONE), answer)
    {
      WritesOwnFile(taskId, Beat(token, pid, now, pidStartTime), Env("", now, ANYONE), files);
      match Load(taskId) {
        case Some(Unreadable) => return BadRecord;
        case Some(Saved(record)) =>
          if record.token == Some(token) {
            Persist(Beaten(record, pid, now, pidStartTime));
            return Accepted;
          }
        case None =>
      }
      return StaleToken;
    }

    method ReportResult(taskId: string, token: string) returns (answer: Answer)
      requires Valid()
      modifies this
      ensures Valid()
      ensures Performs(old(files), files, taskId, Report(token), Env("", 0, ANYONE), answer)
    {
      match Load(taskId) {
        case Some(Unreadable) => return BadRecord;
        case Some(Saved(record)) =>
          if record.token == Some(token) {
            Persist(ClaimRecord(taskId, Released, None, None, None));
            return Accepted;
          }
        case None =>
      }
      return StaleToken;
    }

    method Release(taskId: string) returns (answer: Answer)
      requires Valid()
      modifies this
      ensures Valid()
      ensures Performs(old(files), files, taskId, ClaimOp.Release, Env("", 0, ANYONE), answer)
    {
      Persist(ClaimRecord(taskId, Released, None, None, None));
      return Freed;
    }

    method ReleaseIfStillStale(taskId: string, now: I64, ttl: I64, isAlive: Probe) returns (answer: Answer)
      requires Valid()
      modifies this
      ensures Valid()
      ensures Performs(old(files), files, taskId, ReleaseIfStale(now, ttl), Env("", now, isAlive), answer)
    {
      match Load(taskId) {
        case None => return Reaped(false);
        case Some(Unreadable) => return BadRecord;
        case Some(Saved(record)) =>
          if !IsStale(record, now, ttl, isAlive) {
            return Reaped(false);
          }
      }
      Persist(ClaimRecord(taskId, Released, None, None, None));
      return Reaped(true);
    }

    /** None stands for the read error; a missing record is no claim. */
    method HasActiveClaim(taskId: string) returns (active: Option<bool>)
      ensures active.None? <==> Load(taskId) == Some(Unreadable)
      ensures active == Some(true) <==> taskId in files && files[taskId].Saved? && IsActive(files[taskId].record.state)
    {
      match Load(taskId) {
        case Some(Unreadable) => return None;
        case Some(Saved(record)) => return Some(record.state == Claimed || record.state == Running);
        case None => return Some(false);
      }
    }

    /** The directory is visited in any order; one unreadable record fails the listing. */
    method List() returns (records: Option<seq<ClaimRecord>>)
      requires Valid()
      ensures records.None? <==> exists k :: k in files && files[k].Unreadable?
      ensures records.Some? ==> IsListing(files, records.value)
    {
      var found: seq<ClaimRecord> := [];
      var names := files.Keys;
      while names != {}
        invariant names <= files.Keys
        invariant forall r :: r in found <==> r.taskId in files && r.taskId !in names && files[r.taskId] == Saved(r)
        invariant forall i, j :: 0 <= i < j < |found| ==> found[i].taskId != found[j].taskId
        invariant forall k :: k in files && k !in names ==> files[k].Saved?
      {
        var name :| name in names;
        names := names - {name};
        match Load(name) {
          case Some(Saved(record)) =>
            assert forall r :: r in found ==> r.taskId !in names + {name};
            found := found + [record];
          case _ => return None;
        }
      }
      ListingSorted(files, found);
      return Some(SortBy(RecordBelow, found));
    }
  }

  predicate RecordBelow(a: ClaimRecord, b: ClaimRecord) {
    Below(a.taskId, b.taskId)
  }

  lemma ListingSorted(files: map<string, ClaimFile>, found: seq<ClaimRecord>)
    requires forall r :: r in found <==> r.taskId in files && files[r.taskId] == Saved(r)
    requires forall i, j :: 0 <= i < j < |found| ==> found[i].taskId != found[j].taskId
    ensures IsListing(files, SortBy(RecordBelow, found))
  {
    BelowIsOrder();
    assert Preorder(RecordBelow) by {
      forall x: ClaimRecord, y: ClaimRecord ensures RecordBelow(x, y) || RecordBelow(y, x) {
        BelowTotal(x.taskId, y.taskId);
      }
      forall x: ClaimRecord, y: ClaimRecord, z: ClaimRecord | RecordBelow(x, y) && RecordBelow(y, z)
        ensures RecordBelow(x, z)
      {
        BelowTransitive(x.taskId, y.taskId, z.taskId);
      }
    }
    var out := SortBy(RecordBelow, found);
    SortSorts(RecordBelow, found);
    SortPermutes(RecordBelow, found);
    SameMembers(found, out);
    assert NoDuplicates(found);
    SortKeepsDuplicateFree(RecordBelow, found);
    forall i, j | 0 <= i < j < |out| ensures out[i].taskId != out[j].taskId && Below(out[i].taskId, out[j].taskId) {
      assert out[i] in out && out[j] in out && out[i] != out[j];
      assert RecordBelow(out[i], out[j]);
    }
  }
}
