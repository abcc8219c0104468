/**
 The lock discipline shared by the claim store and the mailbox: a per-key
 advisory lock around "load the file, decide, persist it by an atomic rename",
 run by any number of processes at once.

 A `Protocol` says what one operation decides from the file it loaded. The
 concrete machine (`Next`) interleaves the individual steps of many calls, with
 I/O failures and crashes; the atomic register (`AtomicStep`) performs a whole
 operation at once. `Refinement` relates the two, step by step, and `Linearizable`
 says what that means for a complete run.
 */
module LockedStore {
  import opened Options

  type Key = string
  type CallId = nat

  /** What an operation does with the file it loaded. */
  datatype Decision<F, R> =
    | Reply(res: R)                        // leave the file alone
    | Commit(file: Option<F>, res: R)      // Some: rename over it; None: unlink it

  datatype Protocol<!O, !E, !F, !R> = Protocol(
    waits: O -> bool,                      // blocking lock, or try-lock?
    busy: O -> R,                          // the answer of a try-lock that found the lock taken
    decide: (Key, O, E, Option<F>) -> Decision<F, R>)

  // ---- the concrete machine -------------------------------------------------

  datatype Phase<O, E, F, R> =
    | Opened(op: O)
    | Locked(op: O)
    | Loaded(op: O, seen: Option<F>)
    | Staged(op: O, env: E, next: Option<F>, res: R)  // temporary file written, not renamed
    | Settled(op: O, res: R, at: nat)                 // decided at log position `at`, lock still held
    | Returned(op: O, res: R, point: Option<nat>)     // None: answered without taking the lock
    | Failed                                          // an I/O error was returned
    | Crashed

  datatype Call<O, E, F, R> = Call(key: Key, phase: Phase<O, E, F, R>)

  /** One decided operation, with the file it decided from. */
  datatype Entry<O, E, F, R> = Entry(call: CallId, key: Key, op: O, env: E, pre: Option<F>, res: R)

  datatype State<O, E, F, R> = State(
    init: map<Key, F>,
    disk: map<Key, F>,
    holder: map<Key, CallId>,
    calls: map<CallId, Call<O, E, F, R>>,
    log: seq<Entry<O, E, F, R>>)

  datatype Label<O, E> =
    | Open(c: CallId, key: Key, op: O)
    | Acquire(c: CallId)
    | Busy(c: CallId)
    | Load(c: CallId)
    | Choose(c: CallId, env: E)
    | Rename(c: CallId)
    | Unlock(c: CallId)
    | IoFail(c: CallId)
    | Crash(c: CallId)

  ghost function Look<F>(disk: map<Key, F>, key: Key): Option<F> {
    if key in disk then Some(disk[key]) else None
  }

  ghost function Put<F>(disk: map<Key, F>, key: Key, file: Option<F>): map<Key, F> {
    match file
    case None => disk - {key}
    case Some(f) => disk[key := f]
  }

  ghost predicate HoldsLock<O, E, F, R>(p: Phase<O, E, F, R>) {
    p.Locked? || p.Loaded? || p.Staged? || p.Settled?
  }

  ghost predicate Undecided<O, E, F, R>(p: Phase<O, E, F, R>) {
    p.Opened? || p.Locked? || p.Loaded? || p.Staged?
  }

  /** The state after call `c` moves to `phase`; `holder` and the rest are given separately. */
  ghost function Move<O, E, F, R>(s: State<O, E, F, R>, c: CallId, phase: Phase<O, E, F, R>): State<O, E, F, R>
    requires c in s.calls
  {
    s.(calls := s.calls[c := s.calls[c].(phase := phase)])
  }

  ghost predicate Init<O, E, F, R>(s: State<O, E, F, R>) {
    s.disk == s.init && s.holder == map[] && s.calls == map[] && s.log == []
  }

  ghost predicate Next<O, E, F, R>(P: Protocol<O, E, F, R>, s: State<O, E, F, R>, l: Label<O, E>, s': State<O, E, F, R>)
  {
    match l
    case Open(c, key, op) =>
      && c !in s.calls
      && s' == s.(calls := s.calls[c := Call(key, Opened(op))])
    case Acquire(c) =>
      && c in s.calls && s.calls[c].phase.Opened? && s.calls[c].key !in s.holder
      && s' == Move(s, c, Locked(s.calls[c].phase.op)).(holder := s.holder[s.calls[c].key := c])
    case Busy(c) =>
      && c in s.calls && s.calls[c].phase.Opened? && s.calls[c].key in s.holder
      && !P.waits(s.calls[c].phase.op)
      && s' == Move(s, c, Returned(s.calls[c].phase.op, P.busy(s.calls[c].phase.op), None))
    case Load(c) =>
      && c in s.calls && s.calls[c].phase.Locked?
      && s' == Move(s, c, Loaded(s.calls[c].phase.op, Look(s.disk, s.calls[c].key)))
    case Choose(c, env) =>
      && c in s.calls && s.calls[c].phase.Loaded?
      && var call := s.calls[c];
         (match P.decide(call.key, call.phase.op, env, call.phase.seen)
          case Reply(res) =>
            s' == Move(s, c, Settled(call.phase.op, res, |s.log|)).(
              log := s.log + [Entry(c, call.key, call.phase.op, env, Look(s.disk, call.key), res)])
          case Commit(file, res) =>
            s' == Move(s, c, Staged(call.phase.op, env, file, res)))
    case Rename(c) =>
      && c in s.calls && s.calls[c].phase.Staged?
      && var call := s.calls[c];
         s' == Move(s, c, Settled(call.phase.op, call.phase.res, |s.log|)).(
           disk := Put(s.disk, call.key, call.phase.next),
           log := s.log + [Entry(c, call.key, call.phase.op, call.phase.env, Look(s.disk, call.key), call.phase.res)])
    case Unlock(c) =>
      && c in s.calls && s.calls[c].phase.Settled?
      && s' == Move(s, c, Returned(s.calls[c].phase.op, s.calls[c].phase.res, Some(s.calls[c].phase.at))).(
           holder := s.holder - {s.calls[c].key})
    case IoFail(c) =>
      && c in s.calls && Undecided(s.calls[c].phase)
      && s' == Move(s, c, Failed).(holder := Dropped(s, c))
    case Crash(c) =>
      && c in s.calls && (Undecided(s.calls[c].phase) || s.calls[c].phase.Settled?)
      && s' == Move(s, c, Crashed).(holder := Dropped(s, c))
  }

  /** The locks left once `c` lets go of whatever it holds: the kernel drops a dead holder's lock. */
  ghost function Dropped<O, E, F, R>(s: State<O, E, F, R>, c: CallId): map<Key, CallId>
    requires c in s.calls
  {
    if HoldsLock(s.calls[c].phase) then s.holder - {s.calls[c].key} else s.holder
  }

  // ---- replaying the log ----------------------------------------------------

  ghost function Apply<O, E, F, R>(P: Protocol<O, E, F, R>, disk: map<Key, F>, e: Entry<O, E, F, R>): map<Key, F> {
    match P.decide(e.key, e.op, e.env, e.pre)
    case Reply(_) => disk
    case Commit(file, _) => Put(disk, e.key, file)
  }

  ghost function Replay<O, E, F, R>(P: Protocol<O, E, F, R>, init: map<Key, F>,
      log: seq<Entry<O, E, F, R>>): map<Key, F>
  {
    if log == [] then init
    else Apply(P, Replay(P, init, log[..|log| - 1]), log[|log| - 1])
  }

  /** Every entry decided from the file its predecessors left, and answered what `decide` says. */
  ghost predicate Legal<O, E, F, R>(P: Protocol<O, E, F, R>, init: map<Key, F>, log: seq<Entry<O, E, F, R>>) {
    forall i :: 0 <= i < |log| ==> LegalAt(P, init, log, i)
  }

  ghost predicate LegalAt<O, E, F, R>(P: Protocol<O, E, F, R>, init: map<Key, F>, log: seq<Entry<O, E, F, R>>, i: nat)
    requires i < |log|
  {
    && log[i].pre == Look(Replay(P, init, log[..i]), log[i].key)
    && log[i].res == P.decide(log[i].key, log[i].op, log[i].env, log[i].pre).res
  }

  /** An entry stays legal as the log grows behind it. */
  lemma LegalAtKept<O, E, F, R>(P: Protocol<O, E, F, R>, init: map<Key, F>, log: seq<Entry<O, E, F, R>>,
      e: Entry<O, E, F, R>, i: nat)
    requires i < |log| && LegalAt(P, init, log, i)
    ensures LegalAt(P, init, log + [e], i)
  {
    assert (log + [e])[..i] == log[..i] && (log + [e])[i] == log[i];
  }

  lemma LegalAtLast<O, E, F, R>(P: Protocol<O, E, F, R>, init: map<Key, F>, log: seq<Entry<O, E, F, R>>,
      e: Entry<O, E, F, R>)
    requires e.pre == Look(Replay(P, init, log), e.key)
    requires e.res == P.decide(e.key, e.op, e.env, e.pre).res
    ensures LegalAt(P, init, log + [e], |log|)
    ensures Replay(P, init, log + [e]) == Apply(P, Replay(P, init, log), e)
  {
    assert (log + [e])[..|log|] == log && (log + [e])[|log|] == e;
  }

  lemma LegalExtends<O, E, F, R>(P: Protocol<O, E, F, R>, init: map<Key, F>, log: seq<Entry<O, E, F, R>>,
      e: Entry<O, E, F, R>)
    requires Legal(P, init, log)
    requires e.pre == Look(Replay(P, init, log), e.key)
    requires e.res == P.decide(e.key, e.op, e.env, e.pre).res
    ensures Legal(P, init, log + [e])
    ensures Replay(P, init, log + [e]) == Apply(P, Replay(P, init, log), e)
  {
    LegalAtLast(P, init, log, e);
    forall i | 0 <= i < |log + [e]| ensures LegalAt(P, init, log + [e], i) {
      if i < |log| {
        assert LegalAt(P, init, log, i);
        LegalAtKept(P, init, log, e, i);
      }
    }
  }

  /** The disk just before entry `n`. */
  ghost function DiskAt<O, E, F, R>(P: Protocol<O, E, F, R>, init: map<Key, F>, log: seq<Entry<O, E, F, R>>,
      n: nat): map<Key, F>
    requires n <= |log|
  {
    Replay(P, init, log[..n])
  }

  lemma EntryStep<O, E, F, R>(P: Protocol<O, E, F, R>, init: map<Key, F>, log: seq<Entry<O, E, F, R>>, n: nat)
    requires Legal(P, init, log) && n < |log|
    ensures log[n].pre == Look(DiskAt(P, init, log, n), log[n].key)
    ensures log[n].res == P.decide(log[n].key, log[n].op, log[n].env, log[n].pre).res
    ensures DiskAt(P, init, log, n + 1) == Apply(P, DiskAt(P, init, log, n), log[n])
  {
    assert LegalAt(P, init, log, n);
    assert log[..n + 1][..n] == log[..n];
  }

  // ---- the invariant --------------------------------------------------------

  /** Locks and holders agree, so no two calls are ever between acquire and release on one key. */
  ghost predicate LockInv<O, E, F, R>(s: State<O, E, F, R>) {
    && (forall k :: k in s.holder ==>
         s.holder[k] in s.calls && s.calls[s.holder[k]].key == k && HoldsLock(s.calls[s.holder[k]].phase))
    && (forall c :: c in s.calls && HoldsLock(s.calls[c].phase) ==>
         s.calls[c].key in s.holder && s.holder[s.calls[c].key] == c)
  }

  /** What a lock holder loaded is still what is on disk. */
  ghost predicate Current<O, E, F, R>(P: Protocol<O, E, F, R>, s: State<O, E, F, R>, c: CallId)
    requires c in s.calls
  {
    var call := s.calls[c];
    match call.phase
    case Loaded(_, seen) => seen == Look(s.disk, call.key)
    case Staged(op, env, next, res) => P.decide(call.key, op, env, Look(s.disk, call.key)) == Commit(next, res)
    case _ => true
  }

  /** A decided call points at its own log entry; a refused one has the refusal for its answer. */
  ghost predicate Pointed<O, E, F, R>(P: Protocol<O, E, F, R>, s: State<O, E, F, R>, c: CallId)
    requires c in s.calls
  {
    match s.calls[c].phase
    case Settled(op, res, at) => at < |s.log| && s.log[at].call == c && s.log[at].op == op && s.log[at].res == res
    case Returned(op, res, Some(at)) => at < |s.log| && s.log[at].call == c && s.log[at].op == op
        && s.log[at].res == res
    case Returned(op, res, None) => !P.waits(op) && res == P.busy(op)
    case _ => true
  }

  /** The call an entry belongs to is past its decision, and not by way of a refusal or a failure. */
  ghost predicate EntryOk<O, E, F, R>(s: State<O, E, F, R>, i: nat)
    requires i < |s.log|
  {
    && s.log[i].call in s.calls
    && var call := s.calls[s.log[i].call];
       && call.key == s.log[i].key && !Undecided(call.phase) && !call.phase.Failed?
       && (call.phase.Returned? ==> call.phase.point.Some?)
  }

  ghost predicate LogInv<O, E, F, R>(P: Protocol<O, E, F, R>, s: State<O, E, F, R>) {
    && (forall i :: 0 <= i < |s.log| ==> EntryOk(s, i))
    && (forall i, j :: 0 <= i < j < |s.log| ==> s.log[i].call != s.log[j].call)
    && (forall c :: c in s.calls ==> Pointed(P, s, c))
  }

  ghost predicate Inv<O, E, F, R>(P: Protocol<O, E, F, R>, s: State<O, E, F, R>) {
    && LockInv(s)
    && (forall c :: c in s.calls ==> Current(P, s, c))
    && LogInv(P, s)
    && Legal(P, s.init, s.log)
    && s.disk == Replay(P, s.init, s.log)
  }

  lemma InitInv<O, E, F, R>(P: Protocol<O, E, F, R>, s: State<O, E, F, R>)
    requires Init(s)
    ensures Inv(P, s)
  {
  }

  /** A step moves one call and leaves the others alone. */
  lemma OthersKept<O, E, F, R>(P: Protocol<O, E, F, R>, s: State<O, E, F, R>, l: Label<O, E>, s': State<O, E, F, R>)
    requires Next(P, s, l, s')
    ensures s'.calls.Keys == s.calls.Keys + {l.c}
        && (!l.Open? ==> l.c in s.calls && s'.calls[l.c].key == s.calls[l.c].key)
    ensures forall c :: c in s.calls && c != l.c ==> s'.calls[c] == s.calls[c]
  {
  }

  lemma LockStep<O, E, F, R>(P: Protocol<O, E, F, R>, s: State<O, E, F, R>, l: Label<O, E>, s': State<O, E, F, R>)
    requires LockInv(s) && Next(P, s, l, s')
    ensures LockInv(s')
  {
    OthersKept(P, s, l, s');
    if l.Acquire? {
      LockTaken(s, l.c, s');
    } else if l.Unlock? || l.IoFail? || l.Crash? {
      LockDropped(s, l.c, s');
    } else {
      LockKept(s, l.c, s');
    }
  }

  lemma LockKept<O, E, F, R>(s: State<O, E, F, R>, c: CallId, s': State<O, E, F, R>)
    requires LockInv(s) && s'.holder == s.holder
    requires s'.calls.Keys == s.calls.Keys + {c} && forall d :: d in s.calls && d != c ==> s'.calls[d] == s.calls[d]
    requires c in s.calls ==> s'.calls[c].key == s.calls[c].key
    requires HoldsLock(s'.calls[c].phase) <==> c in s.calls && HoldsLock(s.calls[c].phase)
    ensures LockInv(s')
  {
  }

  lemma LockTaken<O, E, F, R>(s: State<O, E, F, R>, c: CallId, s': State<O, E, F, R>)
    requires LockInv(s) && c in s.calls && s.calls[c].key !in s.holder
    requires s'.calls.Keys == s.calls.Keys && forall d :: d in s.calls && d != c ==> s'.calls[d] == s.calls[d]
    requires s'.calls[c].key == s.calls[c].key && HoldsLock(s'.calls[c].phase)
    requires s'.holder == s.holder[s.calls[c].key := c]
    ensures LockInv(s')
  {
  }

  lemma LockDropped<O, E, F, R>(s: State<O, E, F, R>, c: CallId, s': State<O, E, F, R>)
    requires LockInv(s) && c in s.calls
    requires s'.calls.Keys == s.calls.Keys && forall d :: d in s.calls && d != c ==> s'.calls[d] == s.calls[d]
    requires s'.calls[c].key == s.calls[c].key && !HoldsLock(s'.calls[c].phase)
    requires s'.holder == Dropped(s, c)
    ensures LockInv(s')
  {
  }

  lemma CurrentStep<O, E, F, R>(P: Protocol<O, E, F, R>, s: State<O, E, F, R>, l: Label<O, E>, s': State<O, E, F, R>)
    requires Inv(P, s) && Next(P, s, l, s')
    ensures forall c :: c in s'.calls ==> Current(P, s', c)
  {
    OthersKept(P, s, l, s');
    forall c | c in s'.calls ensures Current(P, s', c) {
      if c == l.c {
        MoverCurrent(P, s, l, s');
      } else {
        assert Current(P, s, c);
        if HoldsLock(s.calls[c].phase) {
          LookKept(P, s, l, s', s.calls[c].key);
        }
      }
    }
  }

  lemma MoverCurrent<O, E, F, R>(P: Protocol<O, E, F, R>, s: State<O, E, F, R>, l: Label<O, E>, s': State<O, E, F, R>)
    requires Inv(P, s) && Next(P, s, l, s')
    ensures l.c in s'.calls && Current(P, s', l.c)
  {
    if l.c in s.calls {
      assert Current(P, s, l.c);
    }
  }

  /** A file changes only under its own lock. */
  lemma LookKept<O, E, F, R>(P: Protocol<O, E, F, R>, s: State<O, E, F, R>, l: Label<O, E>, s': State<O, E, F, R>,
      key: Key)
    requires LockInv(s) && Next(P, s, l, s') && key in s.holder && s.holder[key] != l.c
    ensures Look(s'.disk, key) == Look(s.disk, key)
  {
    if l.Rename? {
      assert HoldsLock(s.calls[l.c].phase);
    }
  }

  /** The log grows only by the mover's own entry, as it leaves the undecided phases. */
  lemma EntryAdded<O, E, F, R>(P: Protocol<O, E, F, R>, s: State<O, E, F, R>, l: Label<O, E>, s': State<O, E, F, R>)
    requires Next(P, s, l, s')
    ensures s.log <= s'.log && |s'.log| <= |s.log| + 1
    ensures |s'.log| > |s.log| ==>
              && l.c in s.calls && Undecided(s.calls[l.c].phase) && s'.calls[l.c].phase.Settled?
              && s'.log[|s.log|].call == l.c && s'.log[|s.log|].key == s.calls[l.c].key
  {
  }

  lemma StaysDecided<O, E, F, R>(P: Protocol<O, E, F, R>, s: State<O, E, F, R>, l: Label<O, E>, s': State<O, E, F, R>)
    requires Next(P, s, l, s') && l.c in s.calls && !Undecided(s.calls[l.c].phase)
    ensures l.Unlock? || l.Crash?
    ensures !Undecided(s'.calls[l.c].phase) && !s'.calls[l.c].phase.Failed?
    ensures s'.calls[l.c].phase.Returned? ==> s'.calls[l.c].phase.point.Some?
  {
  }

  lemma EntriesStep<O, E, F, R>(P: Protocol<O, E, F, R>, s: State<O, E, F, R>, l: Label<O, E>, s': State<O, E, F, R>)
    requires LockInv(s) && LogInv(P, s) && Next(P, s, l, s')
    ensures forall i :: 0 <= i < |s'.log| ==> EntryOk(s', i)
    ensures forall i, j :: 0 <= i < j < |s'.log| ==> s'.log[i].call != s'.log[j].call
  {
    OthersKept(P, s, l, s');
    EntryAdded(P, s, l, s');
    forall i | 0 <= i < |s'.log| ensures EntryOk(s', i) {
      if i < |s.log| {
        EntryKept(P, s, l, s', i);
      }
    }
    forall i, j | 0 <= i < j < |s'.log| ensures s'.log[i].call != s'.log[j].call {
      assert EntryOk(s, i);
    }
  }

  lemma EntryKept<O, E, F, R>(P: Protocol<O, E, F, R>, s: State<O, E, F, R>, l: Label<O, E>, s': State<O, E, F, R>,
      i: nat)
    requires Next(P, s, l, s') && i < |s.log| && EntryOk(s, i)
    ensures i < |s'.log| && EntryOk(s', i)
  {
    OthersKept(P, s, l, s');
    EntryAdded(P, s, l, s');
    if s.log[i].call == l.c && !l.Open? {
      StaysDecided(P, s, l, s');
    }
  }

  lemma LogStep<O, E, F, R>(P: Protocol<O, E, F, R>, s: State<O, E, F, R>, l: Label<O, E>, s': State<O, E, F, R>)
    requires LockInv(s) && LogInv(P, s) && Next(P, s, l, s')
    ensures LogInv(P, s')
  {
    EntriesStep(P, s, l, s');
    OthersKept(P, s, l, s');
    EntryAdded(P, s, l, s');
    forall c | c in s'.calls ensures Pointed(P, s', c) {
      if c == l.c {
        MoverPointed(P, s, l, s');
      } else {
        assert Pointed(P, s, c);
      }
    }
  }

  lemma MoverPointed<O, E, F, R>(P: Protocol<O, E, F, R>, s: State<O, E, F, R>, l: Label<O, E>, s': State<O, E, F, R>)
    requires LogInv(P, s) && Next(P, s, l, s')
    ensures l.c in s'.calls && Pointed(P, s', l.c)
  {
    if l.c in s.calls {
      assert Pointed(P, s, l.c);
    }
  }

  lemma DiskStep<O, E, F, R>(P: Protocol<O, E, F, R>, s: State<O, E, F, R>, l: Label<O, E>, s': State<O, E, F, R>)
    requires Inv(P, s) && Next(P, s, l, s')
    ensures Legal(P, s'.init, s'.log) && s'.disk == Replay(P, s'.init, s'.log)
  {
    if |s'.log| > |s.log| {
      assert Current(P, s, l.c);
      LegalExtends(P, s.init, s.log, s'.log[|s.log|]);
    }
  }

  lemma StepInv<O, E, F, R>(P: Protocol<O, E, F, R>, s: State<O, E, F, R>, l: Label<O, E>, s': State<O, E, F, R>)
    requires Inv(P, s) && Next(P, s, l, s')
    ensures Inv(P, s')
  {
    LockStep(P, s, l, s');
    CurrentStep(P, s, l, s');
    LogStep(P, s, l, s');
    DiskStep(P, s, l, s');
  }

  // ---- the atomic register --------------------------------------------------

  datatype Ask<O, R> =
    | Invoked(key: Key, op: O)
    | Answered(key: Key, res: R)
    | Finished(key: Key, res: R)
    | Vanished(key: Key)

  datatype Register<O, E, F, R> = Register(disk: map<Key, F>, asks: map<CallId, Ask<O, R>>, log: seq<Entry<O, E, F, R>>)

  datatype Act<O, E> =
    | Invoke(c: CallId, key: Key, op: O)
    | Take(c: CallId, env: E)
    | Refuse(c: CallId, other: CallId)
    | Respond(c: CallId)
    | Vanish(c: CallId)
    | Stutter

  /**
   The register: `Take` reads, decides and writes in one step. A try-lock operation may
   be refused, but only while another call on the same key is in progress.
   */
  ghost predicate AtomicStep<O, E, F, R>(P: Protocol<O, E, F, R>, a: Register<O, E, F, R>, act: Act<O, E>,
      a': Register<O, E, F, R>)
  {
    match act
    case Invoke(c, key, op) =>
      c !in a.asks && a' == a.(asks := a.asks[c := Invoked(key, op)])
    case Take(c, env) =>
      && c in a.asks && a.asks[c].Invoked?
      && var ask := a.asks[c];
         var pre := Look(a.disk, ask.key);
         var e := Entry(c, ask.key, ask.op, env, pre, P.decide(ask.key, ask.op, env, pre).res);
         a' == Register(Apply(P, a.disk, e), a.asks[c := Answered(ask.key, e.res)], a.log + [e])
    case Refuse(c, other) =>
      && c in a.asks && a.asks[c].Invoked? && !P.waits(a.asks[c].op)
      && other != c && other in a.asks && (a.asks[other].Invoked? || a.asks[other].Answered?)
      && a.asks[other].key == a.asks[c].key
      && a' == a.(asks := a.asks[c := Finished(a.asks[c].key, P.busy(a.asks[c].op))])
    case Respond(c) =>
      && c in a.asks && a.asks[c].Answered?
      && a' == a.(asks := a.asks[c := Finished(a.asks[c].key, a.asks[c].res)])
    case Vanish(c) =>
      && c in a.asks && (a.asks[c].Invoked? || a.asks[c].Answered?)
      && a' == a.(asks := a.asks[c := Vanished(a.asks[c].key)])
    case Stutter => a' == a
  }

  ghost function AskOf<O, E, F, R>(call: Call<O, E, F, R>): Ask<O, R> {
    match call.phase
    case Settled(_, res, _) => Answered(call.key, res)
    case Returned(_, res, _) => Finished(call.key, res)
    case Failed => Vanished(call.key)
    case Crashed => Vanished(call.key)
    case _ => Invoked(call.key, call.phase.op)
  }

  ghost function Abs<O, E, F, R>(s: State<O, E, F, R>): Register<O, E, F, R> {
    Register(s.disk, map c | c in s.calls :: AskOf(s.calls[c]), s.log)
  }

  /** The register step a concrete step stands for. */
  ghost function ActOf<O, E, F, R>(P: Protocol<O, E, F, R>, s: State<O, E, F, R>, l: Label<O, E>,
      s': State<O, E, F, R>): Act<O, E>
    requires Next(P, s, l, s')
  {
    match l
    case Open(c, key, op) => Invoke(c, key, op)
    case Acquire(_) => Stutter
    case Busy(c) => Refuse(c, s.holder[s.calls[c].key])
    case Load(_) => Stutter
    case Choose(c, env) => if |s'.log| > |s.log| then Take(c, env) else Stutter
    case Rename(c) => Take(c, s.calls[c].phase.env)
    case Unlock(c) => Respond(c)
    case IoFail(c) => Vanish(c)
    case Crash(c) => Vanish(c)
  }

  /** Only the moving call's ask changes. */
  lemma AskStep<O, E, F, R>(P: Protocol<O, E, F, R>, s: State<O, E, F, R>, l: Label<O, E>, s': State<O, E, F, R>)
    requires Next(P, s, l, s')
    ensures l.c in s'.calls && Abs(s').asks == Abs(s).asks[l.c := AskOf(s'.calls[l.c])]
  {
    assert s'.calls == s.calls[l.c := s'.calls[l.c]];
  }

  /** The two steps that decide an operation do so from the file on disk, as the register does. */
  lemma DecisionIsAtomic<O, E, F, R>(P: Protocol<O, E, F, R>, s: State<O, E, F, R>, l: Label<O, E>,
      s': State<O, E, F, R>)
    requires Inv(P, s) && Next(P, s, l, s') && |s'.log| > |s.log|
    ensures AtomicStep(P, Abs(s), ActOf(P, s, l, s'), Abs(s'))
  {
    AskStep(P, s, l, s');
    assert Current(P, s, l.c);
    assert l.c in Abs(s).asks && Abs(s).asks[l.c] == AskOf(s.calls[l.c]);
  }

  /** The other steps move one ask, or none, and leave the disk and the log alone. */
  lemma UndecidedStepIsAtomic<O, E, F, R>(P: Protocol<O, E, F, R>, s: State<O, E, F, R>, l: Label<O, E>,
      s': State<O, E, F, R>)
    requires LockInv(s) && Next(P, s, l, s') && |s'.log| == |s.log|
    ensures AtomicStep(P, Abs(s), ActOf(P, s, l, s'), Abs(s'))
  {
    if l.Acquire? || l.Load? || l.Choose? {
      SilentStep(P, s, l, s');
    } else {
      AskStep(P, s, l, s');
    }
  }

  /** Taking the lock, loading and staging do not show in the register. */
  lemma SilentStep<O, E, F, R>(P: Protocol<O, E, F, R>, s: State<O, E, F, R>, l: Label<O, E>, s': State<O, E, F, R>)
    requires Next(P, s, l, s') && |s'.log| == |s.log| && (l.Acquire? || l.Load? || l.Choose?)
    ensures ActOf(P, s, l, s').Stutter? && Abs(s') == Abs(s)
  {
    AskStep(P, s, l, s');
    assert AskOf(s'.calls[l.c]) == AskOf(s.calls[l.c]);
    assert Abs(s').asks == Abs(s).asks;
  }

  /** Every step of every interleaving is one step of the atomic register, or none. */
  lemma Refinement<O, E, F, R>(P: Protocol<O, E, F, R>, s: State<O, E, F, R>, l: Label<O, E>, s': State<O, E, F, R>)
    requires Inv(P, s) && Next(P, s, l, s')
    ensures Inv(P, s')
    ensures AtomicStep(P, Abs(s), ActOf(P, s, l, s'), Abs(s'))
  {
    StepInv(P, s, l, s');
    if |s'.log| > |s.log| {
      DecisionIsAtomic(P, s, l, s');
    } else {
      UndecidedStepIsAtomic(P, s, l, s');
    }
  }

  // ---- whole runs -----------------------------------------------------------

  ghost predicate Run<O, E, F, R>(P: Protocol<O, E, F, R>, ss: seq<State<O, E, F, R>>, ls: seq<Label<O, E>>) {
    && |ss| == |ls| + 1
    && Init(ss[0])
    && forall i :: 0 <= i < |ls| ==> Next(P, ss[i], ls[i], ss[i + 1])
  }

  lemma {:induction false} RunInv<O, E, F, R>(P: Protocol<O, E, F, R>, ss: seq<State<O, E, F, R>>,
      ls: seq<Label<O, E>>, i: nat)
    requires Run(P, ss, ls) && i < |ss|
    ensures Inv(P, ss[i]) && ss[i].init == ss[0].init
    decreases i
  {
    if i == 0 {
      InitInv(P, ss[0]);
    } else {
      RunInv(P, ss, ls, i - 1);
      StepInv(P, ss[i - 1], ls[i - 1], ss[i]);
    }
  }

  /** Nothing is taken out of the log, and what returned stays returned. */
  ghost predicate Onward<O, E, F, R>(s: State<O, E, F, R>, s': State<O, E, F, R>) {
    && s.log <= s'.log
    && forall c :: c in s.calls && s.calls[c].phase.Returned? ==> c in s'.calls && s'.calls[c] == s.calls[c]
  }

  lemma StepOnward<O, E, F, R>(P: Protocol<O, E, F, R>, s: State<O, E, F, R>, l: Label<O, E>, s': State<O, E, F, R>)
    requires Next(P, s, l, s')
    ensures Onward(s, s')
  {
    EntryAdded(P, s, l, s');
    OthersKept(P, s, l, s');
  }

  lemma OnwardTwice<O, E, F, R>(a: State<O, E, F, R>, b: State<O, E, F, R>, c: State<O, E, F, R>)
    requires Onward(a, b) && Onward(b, c)
    ensures Onward(a, c)
  {
  }

  lemma {:induction false} LogGrows<O, E, F, R>(P: Protocol<O, E, F, R>, ss: seq<State<O, E, F, R>>,
      ls: seq<Label<O, E>>, i: nat, j: nat)
    requires Run(P, ss, ls) && i <= j < |ss|
    ensures Onward(ss[i], ss[j])
    decreases j
  {
    if i < j {
      LogGrows(P, ss, ls, i, j - 1);
      assert Next(P, ss[j - 1], ls[j - 1], ss[j]);
      StepOnward(P, ss[j - 1], ls[j - 1], ss[j]);
      OnwardTwice(ss[i], ss[j - 1], ss[j]);
    }
  }

  /**
   Linearizability. In every run, the disk is what the logged operations leave when
   performed one after the other, and every call that returned after taking the lock
   answered what its operation answers at its own place in that order.
   */
  lemma Linearizable<O, E, F, R>(P: Protocol<O, E, F, R>, ss: seq<State<O, E, F, R>>, ls: seq<Label<O, E>>, i: nat,
      c: CallId)
    requires Run(P, ss, ls) && i < |ss|
    requires c in ss[i].calls && ss[i].calls[c].phase.Returned? && ss[i].calls[c].phase.point.Some?
    ensures var log := ss[i].log;
            var at := ss[i].calls[c].phase.point.value;
            && ss[i].disk == Replay(P, ss[0].init, log)
            && at < |log| && log[at].call == c && log[at].key == ss[i].calls[c].key
                && log[at].op == ss[i].calls[c].phase.op
            && (forall j :: 0 <= j < |log| && log[j].call == c ==> j == at)
            && ss[i].calls[c].phase.res
               == P.decide(log[at].key, log[at].op, log[at].env,
                   Look(Replay(P, ss[0].init, log[..at]), log[at].key)).res
  {
    RunInv(P, ss, ls, i);
    var log, at := ss[i].log, ss[i].calls[c].phase.point.value;
    assert Pointed(P, ss[i], c) && EntryOk(ss[i], at);
    assert LegalAt(P, ss[i].init, log, at);
    assert forall j :: 0 <= j < at ==> log[j].call != log[at].call;
  }

  /** The order respects real time: a call that returned before another opened comes first. */
  lemma RealTimeOrder<O, E, F, R>(
    P: Protocol<O, E, F, R>, ss: seq<State<O, E, F, R>>, ls: seq<Label<O, E>>, i: nat, j: nat, early: CallId,
        late: CallId)
    requires Run(P, ss, ls) && i <= j < |ss|
    requires early in ss[i].calls && ss[i].calls[early].phase.Returned? && ss[i].calls[early].phase.point.Some?
    requires late !in ss[i].calls
    requires late in ss[j].calls && ss[j].calls[late].phase.Returned? && ss[j].calls[late].phase.point.Some?
    ensures ss[i].calls[early].phase.point.value < ss[j].calls[late].phase.point.value
  {
    RunInv(P, ss, ls, i);
    RunInv(P, ss, ls, j);
    LogGrows(P, ss, ls, i, j);
    assert Pointed(P, ss[i], early) && Pointed(P, ss[j], late);
    assert forall k :: 0 <= k < |ss[i].log| ==> EntryOk(ss[i], k) && ss[j].log[k] == ss[i].log[k];
  }

  // ---- answers ----------------------------------------------------------------

  /** Entry `at` is the call's own, and its answer is what the call returned. */
  ghost predicate OwnEntry<O, E, F, R>(s: State<O, E, F, R>, c: CallId, at: nat) {
    && at < |s.log| && c in s.calls && s.calls[c].phase.Returned?
    && s.log[at].call == c && s.log[at].key == s.calls[c].key
    && s.log[at].op == s.calls[c].phase.op && s.log[at].res == s.calls[c].phase.res
  }

  ghost predicate AnsweredFromLog<O, E, F, R>(s: State<O, E, F, R>, c: CallId) {
    exists at :: OwnEntry(s, c, at)
  }

  /** A call that returned did so from its own entry, unless it found the lock taken and does not wait. */
  lemma ReturnedAnswers<O, E, F, R>(P: Protocol<O, E, F, R>, s: State<O, E, F, R>, c: CallId)
    requires Inv(P, s) && c in s.calls && s.calls[c].phase.Returned?
    ensures AnsweredFromLog(s, c)
            || (!P.waits(s.calls[c].phase.op) && s.calls[c].phase.res == P.busy(s.calls[c].phase.op))
  {
    assert Pointed(P, s, c);
    if s.calls[c].phase.point.Some? {
      var at := s.calls[c].phase.point.value;
      assert EntryOk(s, at) && OwnEntry(s, c, at);
    }
  }

  // ---- progress -------------------------------------------------------------

  /** How many steps a lock holder is at most away from letting go. */
  ghost function StepsLeft<O, E, F, R>(p: Phase<O, E, F, R>): nat {
    match p
    case Locked(_) => 4
    case Loaded(_, _) => 3
    case Staged(_, _, _, _) => 2
    case Settled(_, _, _) => 1
    case _ => 0
  }

  /**
   Whoever holds a lock can always go on, without waiting for anyone, and gets closer to
   letting go; so a waiting call is held up by a live holder only.
   */
  lemma HolderCanProceed<O, E, F, R>(P: Protocol<O, E, F, R>, s: State<O, E, F, R>, key: Key, env: E)
    returns (l: Label<O, E>, s': State<O, E, F, R>)
    requires Inv(P, s) && key in s.holder
    ensures Next(P, s, l, s') && l.c == s.holder[key] && !l.IoFail? && !l.Crash?
    ensures StepsLeft(s'.calls[l.c].phase) < StepsLeft(s.calls[l.c].phase)
  {
    var c := s.holder[key];
    var call := s.calls[c];
    match call.phase
    case Locked(op) =>
      l, s' := Load(c), Move(s, c, Loaded(op, Look(s.disk, call.key)));
    case Loaded(op, seen) =>
      l := Choose(c, env);
      match P.decide(call.key, op, env, seen) {
        case Reply(res) =>
          s' := Move(s, c, Settled(op, res, |s.log|)).(
            log := s.log + [Entry(c, call.key, op, env, Look(s.disk, call.key), res)]);
        case Commit(file, res) =>
          s' := Move(s, c, Staged(op, env, file, res));
      }
    case Staged(op, e, next, res) =>
      l := Rename(c);
      s' := Move(s, c, Settled(op, res, |s.log|)).(
        disk := Put(s.disk, call.key, next),
        log := s.log + [Entry(c, call.key, op, e, Look(s.disk, call.key), res)]);
    case Settled(op, res, at) =>
      l, s' := Unlock(c), Move(s, c, Returned(op, res, Some(at))).(holder := s.holder - {call.key});
  }
}
