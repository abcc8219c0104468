/**
 N processes claiming, beating, reporting, releasing and reaping at once: the claim
 operations run under the lock discipline of `LockedStore`. `Linearizable` and
 `RealTimeOrder` apply to every run; the theorems here say what the resulting order of
 operations guarantees about tokens and claims.
 */
module ClaimProtocol {
  import opened LockedStore
  import opened Options
  import opened RunStates
  import opened Claims

  type ClaimEntry = Entry<ClaimOp, Env, ClaimFile, Answer>
  type ClaimState = State<ClaimOp, Env, ClaimFile, Answer>
  type ClaimLabel = Label<ClaimOp, Env>

  /** Only a claim attempt refuses to wait for the lock; it then says the task is taken. */
  ghost const CLAIMS: Protocol<ClaimOp, Env, ClaimFile, Answer> :=
    Protocol((op: ClaimOp) => !op.TryClaim?, (op: ClaimOp) => AlreadyClaimed, Decide)

  // ---- what one entry does to the slot it is about -------------------------------

  ghost function HeldToken(disk: map<Key, ClaimFile>, k: Key): Option<string> {
    if k in disk && disk[k].Saved? then disk[k].record.token else None
  }

  ghost function SlotState(disk: map<Key, ClaimFile>, k: Key): Option<RunState> {
    if k in disk && disk[k].Saved? then Some(disk[k].record.state) else None
  }

  ghost predicate Acquires(e: ClaimEntry) {
    e.res.Acquired?
  }

  /** The entry persisted a released record. */
  ghost predicate Frees(e: ClaimEntry) {
    e.res.Freed? || e.res == Reaped(true) || (e.op.Report? && e.res.Accepted?)
  }

  lemma EntryEffect(disk: map<Key, ClaimFile>, e: ClaimEntry)
    requires e.pre == Look(disk, e.key)
    requires e.res == CLAIMS.decide(e.key, e.op, e.env, e.pre).res
    ensures var disk' := Apply(CLAIMS, disk, e);
            && (forall k :: k != e.key ==> Look(disk', k) == Look(disk, k))
            && HeldToken(disk', e.key)
               == (if Acquires(e) then Some(e.res.token) else if Frees(e) then None else HeldToken(disk, e.key))
            && SlotState(disk', e.key)
               == (if Acquires(e) then Some(Claimed) else if Frees(e) then Some(Released) else SlotState(disk, e.key))
            && (Frees(e) ==> Look(disk', e.key) == Some(Saved(ClaimRecord(e.key, Released, None, None, None))))
            && (Acquires(e) ==> (
                  && Look(disk', e.key) == Some(Saved(ClaimRecord(e.key, Claimed, Some(e.env.minted),
                      Some(e.env.now), None)))
                  && e.op.TryClaim? && e.res.token == e.env.minted
                  && (e.pre.None? || SlotState(disk, e.key) == Some(Unclaimed)
                      || SlotState(disk, e.key) == Some(Released))))
            && (e.op.Report? || e.op.Beat? ==>
                if e.pre == Some(Unreadable) then e.res == BadRecord && disk' == disk
                else if HeldToken(disk, e.key) == Some(e.op.token) then e.res == Accepted
                else e.res == StaleToken && disk' == disk)
  {
  }

  /** The same, for the disks around an entry of a history. */
  lemma EntryAt(init: map<Key, ClaimFile>, log: seq<ClaimEntry>, n: nat)
    requires Legal(CLAIMS, init, log) && n < |log|
    ensures var before := DiskAt(CLAIMS, init, log, n);
            var after := DiskAt(CLAIMS, init, log, n + 1);
            var e := log[n];
            && (forall k :: k != e.key ==>
                HeldToken(after, k) == HeldToken(before, k) && SlotState(after, k) == SlotState(before, k))
            && HeldToken(after, e.key)
               == (if Acquires(e) then Some(e.res.token) else if Frees(e) then None else HeldToken(before, e.key))
            && SlotState(after, e.key)
               == (if Acquires(e) then Some(Claimed) else if Frees(e) then Some(Released) else SlotState(before, e.key))
  {
    var before := DiskAt(CLAIMS, init, log, n);
    EntryStep(CLAIMS, init, log, n);
    EntryEffect(before, log[n]);
    forall k | k != log[n].key
      ensures HeldToken(DiskAt(CLAIMS, init, log, n + 1), k) == HeldToken(before, k)
      ensures SlotState(DiskAt(CLAIMS, init, log, n + 1), k) == SlotState(before, k)
    {
      assert Look(DiskAt(CLAIMS, init, log, n + 1), k) == Look(before, k);
    }
  }

  // ---- tokens over a whole history --------------------------------------------

  /** Tokens are random UUIDs: no mint repeats one already minted or already on disk. */
  ghost predicate FreshMints(init: map<Key, ClaimFile>, log: seq<ClaimEntry>) {
    && (forall i, k :: 0 <= i < |log| && Acquires(log[i]) ==> HeldToken(init, k) != Some(log[i].res.token))
    && (forall i, j :: 0 <= i < j < |log| && Acquires(log[i]) && Acquires(log[j]) ==>
        log[i].res.token != log[j].res.token)
  }

  /** After entry `i` and before entry `n`, nothing freed or re-claimed key `k`. */
  ghost predicate Undisturbed(log: seq<ClaimEntry>, k: Key, i: nat, n: nat)
    requires n <= |log|
  {
    forall j :: i < j < n && log[j].key == k ==> !Frees(log[j]) && !Acquires(log[j])
  }

  ghost predicate History(init: map<Key, ClaimFile>, log: seq<ClaimEntry>) {
    Legal(CLAIMS, init, log) && FreshMints(init, log)
  }

  /** A token is on disk exactly from its mint to the first release or re-claim of its task, and nowhere else. */
  lemma {:induction false} TokenLifetime(init: map<Key, ClaimFile>, log: seq<ClaimEntry>, i: nat, n: nat, k: Key)
    requires History(init, log) && i < |log| && n <= |log| && Acquires(log[i])
    ensures HeldToken(DiskAt(CLAIMS, init, log, n), k) == Some(log[i].res.token)
            <==> i < n && k == log[i].key && Undisturbed(log, k, i, n)
    decreases n
  {
    if n == 0 {
      assert log[..0] == [];
    } else {
      TokenLifetime(init, log, i, n - 1, k);
      EntryAt(init, log, n - 1);
      if n - 1 != i && Acquires(log[n - 1]) {
        assert log[n - 1].res.token != log[i].res.token;
      }
    }
  }

  /** Each minted token is accepted by at most one report, on the task it was minted for. */
  lemma AcceptedAtMostOnce(init: map<Key, ClaimFile>, log: seq<ClaimEntry>, i: nat, j: nat, m: nat)
    requires History(init, log) && i < |log| && j < |log| && m < |log| && Acquires(log[i])
    requires log[j].op == Report(log[i].res.token) && log[j].res.Accepted?
    requires log[m].op == Report(log[i].res.token) && log[m].res.Accepted?
    ensures j == m && i < j && log[j].key == log[i].key
  {
    if j > m {
      AcceptedAtMostOnce(init, log, i, m, j);
    } else {
      EntryStep(CLAIMS, init, log, j);
      EntryStep(CLAIMS, init, log, m);
      EntryEffect(DiskAt(CLAIMS, init, log, j), log[j]);
      EntryEffect(DiskAt(CLAIMS, init, log, m), log[m]);
      TokenLifetime(init, log, i, j, log[j].key);
      TokenLifetime(init, log, i, m, log[m].key);
      assert Frees(log[j]);
    }
  }

  /** A claim lasts until it is freed: while nothing frees the task, its slot stays claimed. */
  lemma {:induction false} ClaimLasts(init: map<Key, ClaimFile>, log: seq<ClaimEntry>, i: nat, n: nat)
    requires Legal(CLAIMS, init, log) && i < n <= |log| && Acquires(log[i])
    requires forall j :: i < j < n && log[j].key == log[i].key ==> !Frees(log[j])
    ensures SlotState(DiskAt(CLAIMS, init, log, n), log[i].key) == Some(Claimed)
    decreases n
  {
    EntryAt(init, log, n - 1);
    if n - 1 > i {
      ClaimLasts(init, log, i, n - 1);
    }
  }

  /** Between two acquisitions of one task, a released record was persisted. */
  lemma ReleaseBetweenAcquisitions(init: map<Key, ClaimFile>, log: seq<ClaimEntry>, i: nat, j: nat)
    requires Legal(CLAIMS, init, log) && i < j < |log|
    requires Acquires(log[i]) && Acquires(log[j]) && log[i].key == log[j].key
    ensures exists m :: i < m < j && log[m].key == log[i].key && Frees(log[m])
  {
    if forall m :: i < m < j && log[m].key == log[i].key ==> !Frees(log[m]) {
      ClaimLasts(init, log, i, j);
      EntryStep(CLAIMS, init, log, j);
      EntryEffect(DiskAt(CLAIMS, init, log, j), log[j]);
      assert false;
    }
  }

  /** Once its claim is released or re-claimed, a token changes nothing, on this task or any other. */
  lemma OldTokenInert(init: map<Key, ClaimFile>, log: seq<ClaimEntry>, i: nat, m: nat, j: nat)
    requires History(init, log) && i < m < j < |log| && Acquires(log[i])
    requires log[m].key == log[i].key && (Frees(log[m]) || Acquires(log[m]))
    requires (log[j].op.Report? || log[j].op.Beat?) && log[j].op.token == log[i].res.token
    ensures log[j].res == (if log[j].pre == Some(Unreadable) then BadRecord else StaleToken)
    ensures DiskAt(CLAIMS, init, log, j + 1) == DiskAt(CLAIMS, init, log, j)
  {
    TokenLifetime(init, log, i, j, log[j].key);
    EntryStep(CLAIMS, init, log, j);
    EntryEffect(DiskAt(CLAIMS, init, log, j), log[j]);
  }

  /** The transition guard inside a claim attempt never fires. */
  lemma NeverIllegal(taskId: Key, op: ClaimOp, env: Env, file: Option<ClaimFile>)
    ensures !Decide(taskId, op, env, file).res.IllegalTransition?
  {
  }

  ghost predicate AcceptsReport(e: ClaimEntry, token: string) {
    e.op == Report(token) && e.res.Accepted?
  }

  ghost predicate UsesToken(e: ClaimEntry, token: string) {
    (e.op.Report? || e.op.Beat?) && e.op.token == token
  }

  ghost predicate AcceptedOnce(log: seq<ClaimEntry>) {
    forall i, j, m ::
      (&& 0 <= i < |log| && 0 <= j < |log| && 0 <= m < |log| && Acquires(log[i])
       && AcceptsReport(log[j], log[i].res.token) && AcceptsReport(log[m], log[i].res.token)) ==> j == m
  }

  ghost predicate ClaimsSeparated(log: seq<ClaimEntry>) {
    forall i, j ::
      (0 <= i < j < |log| && Acquires(log[i]) && Acquires(log[j]) && log[i].key == log[j].key) ==>
        exists m :: i < m < j && log[m].key == log[i].key && Frees(log[m])
  }

  ghost predicate ZombiesInert(init: map<Key, ClaimFile>, log: seq<ClaimEntry>) {
    forall i, m, j ::
      (&& 0 <= i < m < j < |log| && Acquires(log[i])
       && log[m].key == log[i].key && (Frees(log[m]) || Acquires(log[m]))
       && UsesToken(log[j], log[i].res.token)) ==>
        !log[j].res.Accepted? && DiskAt(CLAIMS, init, log, j + 1) == DiskAt(CLAIMS, init, log, j)
  }

  lemma HistoryAcceptsOnce(init: map<Key, ClaimFile>, log: seq<ClaimEntry>)
    requires History(init, log)
    ensures AcceptedOnce(log)
  {
    forall i, j, m | (&& 0 <= i < |log| && 0 <= j < |log| && 0 <= m < |log| && Acquires(log[i])
                      && AcceptsReport(log[j], log[i].res.token) && AcceptsReport(log[m], log[i].res.token))
      ensures j == m
    {
      AcceptedAtMostOnce(init, log, i, j, m);
    }
  }

  lemma HistorySeparates(init: map<Key, ClaimFile>, log: seq<ClaimEntry>)
    requires Legal(CLAIMS, init, log)
    ensures ClaimsSeparated(log)
  {
    forall i, j | 0 <= i < j < |log| && Acquires(log[i]) && Acquires(log[j]) && log[i].key == log[j].key
      ensures exists m :: i < m < j && log[m].key == log[i].key && Frees(log[m])
    {
      ReleaseBetweenAcquisitions(init, log, i, j);
    }
  }

  lemma HistoryQuietsZombies(init: map<Key, ClaimFile>, log: seq<ClaimEntry>)
    requires History(init, log)
    ensures ZombiesInert(init, log)
  {
    forall i, m, j | (&& 0 <= i < m < j < |log| && Acquires(log[i])
                      && log[m].key == log[i].key && (Frees(log[m]) || Acquires(log[m]))
                      && UsesToken(log[j], log[i].res.token))
      ensures !log[j].res.Accepted? && DiskAt(CLAIMS, init, log, j + 1) == DiskAt(CLAIMS, init, log, j)
    {
      OldTokenInert(init, log, i, m, j);
    }
  }

  // ---- what the callers are told ------------------------------------------------

  /**
   Every call that returned was decided in the history, under its own key, and answered what its own
   entry answers; only a claim attempt may have been turned away without one, as taken.
   */
  ghost predicate CallersHeard(s: ClaimState) {
    forall c :: c in s.calls && s.calls[c].phase.Returned? ==> CallerHeard(s, c)
  }

  ghost predicate CallerHeard(s: ClaimState, c: CallId)
    requires c in s.calls && s.calls[c].phase.Returned?
  {
    AnsweredFromLog(s, c) || (s.calls[c].phase.op.TryClaim? && s.calls[c].phase.res == AlreadyClaimed)
  }

  /** A caller was told that its report with this token was accepted. */
  ghost predicate ToldAccepted(s: ClaimState, c: CallId, token: string) {
    && c in s.calls && s.calls[c].phase.Returned?
    && s.calls[c].phase.op == Report(token) && s.calls[c].phase.res.Accepted?
  }

  /** Of the callers that reported with one minted token, at most one was told yes, about the task it was minted for. */
  ghost predicate ToldOnce(s: ClaimState) {
    forall i, c, d ::
      (&& 0 <= i < |s.log| && Acquires(s.log[i])
       && ToldAccepted(s, c, s.log[i].res.token) && ToldAccepted(s, d, s.log[i].res.token)) ==>
        c == d && s.calls[c].key == s.log[i].key
  }

  ghost predicate ToldAcquired(s: ClaimState, c: CallId) {
    c in s.calls && s.calls[c].phase.Returned? && s.calls[c].phase.res.Acquired?
  }

  /** No two callers were handed the same token. */
  ghost predicate TokensApart(s: ClaimState) {
    forall c, d ::
      (&& ToldAcquired(s, c) && ToldAcquired(s, d)
       && s.calls[c].phase.res.token == s.calls[d].phase.res.token) ==> c == d
  }

  lemma CallersHear(s: ClaimState)
    requires Inv(CLAIMS, s)
    ensures CallersHeard(s)
  {
    forall c | c in s.calls && s.calls[c].phase.Returned? ensures CallerHeard(s, c) {
      ReturnedAnswers(CLAIMS, s, c);
    }
  }

  lemma ReportedAtMostOnce(s: ClaimState, i: nat, c: CallId, d: CallId)
    requires CallersHeard(s) && History(s.init, s.log) && i < |s.log| && Acquires(s.log[i])
    requires ToldAccepted(s, c, s.log[i].res.token) && ToldAccepted(s, d, s.log[i].res.token)
    ensures c == d && s.calls[c].key == s.log[i].key
  {
    assert CallerHeard(s, c) && CallerHeard(s, d);
    var j :| OwnEntry(s, c, j);
    var m :| OwnEntry(s, d, m);
    AcceptedAtMostOnce(s.init, s.log, i, j, m);
  }

  lemma HandedApart(s: ClaimState, c: CallId, d: CallId)
    requires CallersHeard(s) && FreshMints(s.init, s.log) && ToldAcquired(s, c) && ToldAcquired(s, d)
    requires s.calls[c].phase.res.token == s.calls[d].phase.res.token
    ensures c == d
  {
    assert CallerHeard(s, c) && CallerHeard(s, d);
    assert AnsweredFromLog(s, c) && AnsweredFromLog(s, d);
    var j: nat :| OwnEntry(s, c, j);
    var m: nat :| OwnEntry(s, d, m);
    assert Acquires(s.log[j]) && Acquires(s.log[m]);
  }

  /**
   The token guarantees at every point of every run of any number of processes: about the history, and
   about what the callers were told.
   */
  lemma TokenSafety(ss: seq<ClaimState>, ls: seq<ClaimLabel>, t: nat)
    requires Run(CLAIMS, ss, ls) && t < |ss| && FreshMints(ss[t].init, ss[t].log)
    ensures ss[t].disk == Replay(CLAIMS, ss[0].init, ss[t].log)
    ensures AcceptedOnce(ss[t].log) && ClaimsSeparated(ss[t].log) && ZombiesInert(ss[t].init, ss[t].log)
    ensures CallersHeard(ss[t]) && ToldOnce(ss[t]) && TokensApart(ss[t])
  {
    var s := ss[t];
    RunInv(CLAIMS, ss, ls, t);
    CallersHear(s);
    forall i, c, d | (&& 0 <= i < |s.log| && Acquires(s.log[i])
                      && ToldAccepted(s, c, s.log[i].res.token) && ToldAccepted(s, d, s.log[i].res.token))
      ensures c == d && s.calls[c].key == s.log[i].key
    {
      ReportedAtMostOnce(s, i, c, d);
    }
    forall c, d | (&& ToldAcquired(s, c) && ToldAcquired(s, d)
                   && s.calls[c].phase.res.token == s.calls[d].phase.res.token)
      ensures c == d
    {
      HandedApart(s, c, d);
    }
    HistoryAcceptsOnce(ss[t].init, ss[t].log);
    HistorySeparates(ss[t].init, ss[t].log);
    HistoryQuietsZombies(ss[t].init, ss[t].log);
  }

  // ---- the files keep their names -------------------------------------------------

  /** What is about to be renamed carries the name of the task that is locked, so that is the file it replaces. */
  ghost predicate StagedAtHome(s: ClaimState, c: CallId)
    requires c in s.calls
  {
    s.calls[c].phase.Staged? ==>
      && s.calls[c].phase.next.Some? && s.calls[c].phase.next.value.Saved?
      && s.calls[c].phase.next.value.record.taskId == s.calls[c].key
  }

  lemma {:induction false} HistoryKeepsNames(init: map<Key, ClaimFile>, log: seq<ClaimEntry>, n: nat)
    requires Legal(CLAIMS, init, log) && WellNamed(init) && n <= |log|
    ensures WellNamed(DiskAt(CLAIMS, init, log, n))
    decreases n
  {
    if n > 0 {
      HistoryKeepsNames(init, log, n - 1);
      EntryStep(CLAIMS, init, log, n - 1);
      WritesOwnFile(log[n - 1].key, log[n - 1].op, log[n - 1].env, DiskAt(CLAIMS, init, log, n - 1));
    } else {
      assert log[..0] == [];
    }
  }

  lemma HomeStaged(s: ClaimState, c: CallId)
    requires c in s.calls && Current(CLAIMS, s, c) && WellNamed(s.disk)
    ensures StagedAtHome(s, c)
  {
    if s.calls[c].phase.Staged? {
      WritesOwnFile(s.calls[c].key, s.calls[c].phase.op, s.calls[c].phase.env, s.disk);
    }
  }

  /**
   At every point of every run that begins with well-named files the files are well named, were so after
   every operation, and every record about to be persisted names the task whose lock is held.
   */
  lemma RunKeepsNames(ss: seq<ClaimState>, ls: seq<ClaimLabel>, t: nat)
    requires Run(CLAIMS, ss, ls) && t < |ss| && WellNamed(ss[0].init)
    ensures WellNamed(ss[t].disk)
    ensures forall n :: 0 <= n <= |ss[t].log| ==> WellNamed(DiskAt(CLAIMS, ss[t].init, ss[t].log, n))
    ensures forall c :: c in ss[t].calls ==> StagedAtHome(ss[t], c)
  {
    var s := ss[t];
    RunInv(CLAIMS, ss, ls, t);
    forall n | 0 <= n <= |s.log| ensures WellNamed(DiskAt(CLAIMS, s.init, s.log, n)) {
      HistoryKeepsNames(s.init, s.log, n);
    }
    assert s.log[..|s.log|] == s.log;
    assert s.disk == DiskAt(CLAIMS, s.init, s.log, |s.log|);
    forall c | c in s.calls ensures StagedAtHome(s, c) {
      HomeStaged(s, c);
    }
  }

  // ---- the race ---------------------------------------------------------------

  /** A step of a race for `key`: only claim attempts on it, and nobody dies or hits an I/O error. */
  ghost predicate RaceStep(l: ClaimLabel, key: Key) {
    (l.Open? ==> l.key == key && l.op.TryClaim?) && !l.IoFail? && !l.Crash?
  }

  ghost predicate Won(call: Call<ClaimOp, Env, ClaimFile, Answer>) {
    (call.phase.Settled? || call.phase.Returned?) && call.phase.res.Acquired?
  }

  ghost predicate Lost(call: Call<ClaimOp, Env, ClaimFile, Answer>) {
    (call.phase.Settled? || call.phase.Returned?) && call.phase.res.AlreadyClaimed?
  }

  /** Exactly one contender has won. */
  ghost predicate Elected(s: ClaimState, key: Key, w: CallId) {
    && w in s.calls && Won(s.calls[w])
    && (forall c :: c in s.calls && Won(s.calls[c]) ==> c == w)
    && key in s.disk && s.disk[key].Saved?
    && s.disk[key].record.state.Claimed? && s.disk[key].record.token == Some(s.calls[w].phase.res.token)
  }

  ghost predicate Contends(s: ClaimState, key: Key, c: CallId)
    requires c in s.calls
  {
    && s.calls[c].key == key
    && (if Undecided(s.calls[c].phase) then s.calls[c].phase.op.TryClaim? else Won(s.calls[c]) || Lost(s.calls[c]))
  }

  /** Nobody has won; whoever was turned away found the lock taken. */
  ghost predicate StillOpen(s: ClaimState, key: Key, c: CallId)
    requires c in s.calls
  {
    Undecided(s.calls[c].phase) || (s.calls[c].phase.Returned? && Lost(s.calls[c]) && key in s.holder)
  }

  /**
   Until the claim is persisted, whoever was turned away was turned away by a contender
   that still holds the lock and is about to persist its own claim.
   */
  ghost predicate RaceInv(s: ClaimState, key: Key) {
    && (forall c :: c in s.calls ==> Contends(s, key, c))
    && (if SlotOpen(s.disk, key)
        then forall c :: c in s.calls ==> StillOpen(s, key, c)
        else exists w :: Elected(s, key, w))
  }

  lemma RaceContends(s: ClaimState, l: ClaimLabel, s': ClaimState, key: Key)
    requires Inv(CLAIMS, s) && RaceInv(s, key) && Next(CLAIMS, s, l, s') && RaceStep(l, key)
    ensures forall c :: c in s'.calls ==> Contends(s', key, c)
  {
    OthersKept(CLAIMS, s, l, s');
    forall c | c in s'.calls ensures Contends(s', key, c) {
      if c == l.c {
        MoverContends(s, l, s', key);
      } else {
        assert Contends(s, key, c);
      }
    }
  }

  lemma MoverContends(s: ClaimState, l: ClaimLabel, s': ClaimState, key: Key)
    requires Next(CLAIMS, s, l, s') && RaceStep(l, key)
    requires l.c in s.calls ==> Contends(s, key, l.c) && Current(CLAIMS, s, l.c)
    requires key !in s.disk || s.disk[key].Saved?
    ensures l.c in s'.calls && Contends(s', key, l.c)
  {
  }

  /** On a free slot a contender either leaves the race open or wins it. */
  lemma RaceOpen(s: ClaimState, l: ClaimLabel, s': ClaimState, key: Key)
    requires Inv(CLAIMS, s) && RaceInv(s, key) && Next(CLAIMS, s, l, s') && RaceStep(l, key)
    requires SlotOpen(s.disk, key)
    ensures if SlotOpen(s'.disk, key) then forall c :: c in s'.calls ==> StillOpen(s', key, c)
            else Elected(s', key, l.c)
  {
    OthersKept(CLAIMS, s, l, s');
    assert l.c in s.calls ==> Contends(s, key, l.c) && Current(CLAIMS, s, l.c) && StillOpen(s, key, l.c);
    OpenMove(s, l, s', key);
    if SlotOpen(s'.disk, key) {
      forall c | c in s'.calls ensures StillOpen(s', key, c) {
        if c != l.c {
          assert StillOpen(s, key, c);
        }
      }
    } else {
      forall c | c in s'.calls && c != l.c ensures !Won(s'.calls[c]) {
        assert StillOpen(s, key, c);
      }
    }
  }

  /** What the moving contender does to an open race; the lock of a free slot is never let go of unclaimed. */
  lemma OpenMove(s: ClaimState, l: ClaimLabel, s': ClaimState, key: Key)
    requires LockInv(s) && Next(CLAIMS, s, l, s') && RaceStep(l, key) && SlotOpen(s.disk, key)
    requires l.c in s.calls ==> Contends(s, key, l.c) && Current(CLAIMS, s, l.c) && StillOpen(s, key, l.c)
    ensures l.c in s'.calls
    ensures SlotOpen(s'.disk, key) ==> StillOpen(s', key, l.c) && (key in s.holder ==> key in s'.holder)
    ensures !SlotOpen(s'.disk, key) ==>
              && Won(s'.calls[l.c]) && key in s'.disk && s'.disk[key].Saved?
              && s'.disk[key].record.state.Claimed? && s'.disk[key].record.token == Some(s'.calls[l.c].phase.res.token)
  {
  }

  /** Once won, the race stays won. */
  lemma RaceClosed(s: ClaimState, l: ClaimLabel, s': ClaimState, key: Key, w: CallId)
    requires Inv(CLAIMS, s) && RaceInv(s, key) && Next(CLAIMS, s, l, s') && RaceStep(l, key)
    requires Elected(s, key, w)
    ensures Elected(s', key, w) && !SlotOpen(s'.disk, key)
  {
    OthersKept(CLAIMS, s, l, s');
    assert l.c in s.calls ==> Contends(s, key, l.c) && Current(CLAIMS, s, l.c);
    ClosedMove(s, l, s', key, w);
  }

  lemma ClosedMove(s: ClaimState, l: ClaimLabel, s': ClaimState, key: Key, w: CallId)
    requires Next(CLAIMS, s, l, s') && RaceStep(l, key) && Elected(s, key, w)
    requires l.c in s.calls ==> Contends(s, key, l.c) && Current(CLAIMS, s, l.c)
    ensures key in s'.disk && s'.disk[key] == s.disk[key]
    ensures l.c in s'.calls && (Won(s'.calls[l.c]) <==> l.c == w)
    ensures w in s'.calls && Won(s'.calls[w]) && s'.calls[w].phase.res == s.calls[w].phase.res
  {
  }

  lemma RaceKeepsInv(s: ClaimState, l: ClaimLabel, s': ClaimState, key: Key)
    requires Inv(CLAIMS, s) && RaceInv(s, key) && Next(CLAIMS, s, l, s') && RaceStep(l, key)
    ensures RaceInv(s', key)
  {
    RaceContends(s, l, s', key);
    if SlotOpen(s.disk, key) {
      RaceOpen(s, l, s', key);
    } else {
      var w :| Elected(s, key, w);
      RaceClosed(s, l, s', key, w);
    }
  }

  lemma {:induction false} RaceRun(ss: seq<ClaimState>, ls: seq<ClaimLabel>, key: Key, i: nat)
    requires Run(CLAIMS, ss, ls) && i < |ss| && SlotOpen(ss[0].init, key)
    requires forall l :: l in ls ==> RaceStep(l, key)
    ensures RaceInv(ss[i], key)
    decreases i
  {
    if i > 0 {
      RaceRun(ss, ls, key, i - 1);
      RunInv(CLAIMS, ss, ls, i - 1);
      assert ls[i - 1] in ls;
      RaceKeepsInv(ss[i - 1], ls[i - 1], ss[i], key);
    }
  }

  /**
   When any number of claim attempts race for a free slot and all of them return, exactly
   one acquired it, every other one was told it is taken, and the winner's token is on disk.
   */
  lemma ExactlyOneWinner(ss: seq<ClaimState>, ls: seq<ClaimLabel>, key: Key)
    requires Run(CLAIMS, ss, ls) && SlotOpen(ss[0].init, key)
    requires forall l :: l in ls ==> RaceStep(l, key)
    requires ss[|ls|].calls != map[] && forall c :: c in ss[|ls|].calls ==> ss[|ls|].calls[c].phase.Returned?
    ensures exists w :: Elected(ss[|ls|], key, w)
    ensures forall c :: c in ss[|ls|].calls ==> Won(ss[|ls|].calls[c]) || ss[|ls|].calls[c].phase.res == AlreadyClaimed
  {
    var s := ss[|ls|];
    RaceRun(ss, ls, key, |ls|);
    RunInv(CLAIMS, ss, ls, |ls|);
    assert forall c :: c in s.calls ==> Contends(s, key, c) && !HoldsLock(s.calls[c].phase);
    var c :| c in s.calls;
    assert key !in s.holder && !StillOpen(s, key, c);
  }
}
