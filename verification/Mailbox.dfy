/**
 The mailbox of crates/apohara-dispatch/src/mailbox.rs: per-recipient queues that any
 process may append to, drain, peek at or acknowledge, under the lock discipline of
 `LockedStore`.
 */
module Mailboxes {
  import opened LockedStore
  import opened Options
  import opened Sorting

  datatype Message = Message(id: string, sender: string, to: string, body: string, ts: int)

  /** An inbox file that parses, or one that does not. A missing file is an empty queue. */
  datatype Inbox = Garbled | Queue(messages: seq<Message>)

  datatype MailOp =
    | Send(msg: Message)
    | CheckInbox
    | PeekInbox
    | Ack(ids: set<string>)

  datatype NoEnv = NoEnv

  datatype MailAnswer = Sent | Delivered(messages: seq<Message>) | Removed(count: nat) | BadQueue

  /** The messages with none of the given ids, in order. */
  function Unnamed(messages: seq<Message>, ids: set<string>): seq<Message> {
    if messages == [] then []
    else
      var rest := Unnamed(messages[1..], ids);
      if messages[0].id in ids then rest else [messages[0]] + rest
  }

  /** The messages with one of the given ids, in order. */
  function Named(messages: seq<Message>, ids: set<string>): seq<Message> {
    if messages == [] then []
    else
      var rest := Named(messages[1..], ids);
      if messages[0].id in ids then [messages[0]] + rest else rest
  }

  function DecideMail(recipient: string, op: MailOp, env: NoEnv, file: Option<Inbox>): Decision<Inbox, MailAnswer> {
    if file == Some(Garbled) then Reply(BadQueue)
    else
      var queue := if file.Some? then file.value.messages else [];
      match op
      case Send(msg) => Commit(Some(Queue(queue + [msg])), Sent)
      case CheckInbox => if queue == [] then Reply(Delivered([])) else Commit(None, Delivered(queue))
      case PeekInbox => Reply(Delivered(queue))
      case Ack(ids) =>
        var remaining := Unnamed(queue, ids);
        if |remaining| >= |queue| then Reply(Removed(0))
        else Commit(if remaining == [] then None else Some(Queue(remaining)), Removed(|queue| - |remaining|))
  }

  /** Every mailbox operation waits for the lock. */
  ghost const MAIL: Protocol<MailOp, NoEnv, Inbox, MailAnswer> :=
    Protocol((op: MailOp) => true, (op: MailOp) => BadQueue, DecideMail)

  type MailEntry = Entry<MailOp, NoEnv, Inbox, MailAnswer>
  type MailState = State<MailOp, NoEnv, Inbox, MailAnswer>

  // ---- the mailbox itself ---------------------------------------------------------

  ghost function QueueOf(inboxes: map<string, Inbox>, r: string): seq<Message> {
    if r in inboxes && inboxes[r].Queue? then inboxes[r].messages else []
  }

  ghost predicate Readable(inboxes: map<string, Inbox>, r: string) {
    r in inboxes ==> inboxes[r].Queue?
  }

  ghost predicate Performs(before: map<string, Inbox>, after: map<string, Inbox>, r: string, op: MailOp,
      answer: MailAnswer)
  {
    match DecideMail(r, op, NoEnv, Look(before, r))
    case Reply(res) => answer == res && after == before
    case Commit(file, res) => answer == res && after == Put(before, r, file)
  }

  class Mailbox {
    var inboxes: map<string, Inbox>

    constructor ()
      ensures inboxes == map[]
    {
      inboxes := map[];
    }

    /** None stands for the parse error; a missing file is an empty queue. */
    function Load(r: string): Option<seq<Message>>
      reads this
    {
      if r !in inboxes then Some([]) else if inboxes[r].Queue? then Some(inboxes[r].messages) else None
    }

    /** A message without an id gets a freshly minted one before the lock is taken. */
    method Send(msg: Message, minted: string) returns (answer: MailAnswer)
      modifies this
      ensures var stamped := if msg.id == "" then msg.(id := minted) else msg;
              && Performs(old(inboxes), inboxes, msg.to, MailOp.Send(stamped), answer)
              && (if Readable(old(inboxes), msg.to)
                  then answer == Sent && QueueOf(inboxes, msg.to) == QueueOf(old(inboxes), msg.to) + [stamped]
                  else answer == BadQueue && inboxes == old(inboxes))
    {
      var stamped := msg;
      if stamped.id == "" {
        stamped := stamped.(id := minted);
      }
      var queue := Load(stamped.to);
      if queue.None? {
        return BadQueue;
      }
      inboxes := inboxes[stamped.to := Queue(queue.value + [stamped])];
      return Sent;
    }

    method CheckInbox(r: string) returns (answer: MailAnswer)
      modifies this
      ensures Performs(old(inboxes), inboxes, r, MailOp.CheckInbox, answer)
      ensures answer == if Readable(old(inboxes), r) then Delivered(QueueOf(old(inboxes), r)) else BadQueue
      ensures answer.Delivered? ==> QueueOf(inboxes, r) == []
    {
      var queue := Load(r);
      if queue.None? {
        return BadQueue;
      }
      if queue.value == [] {
        return Delivered([]);
      }
      inboxes := inboxes - {r};
      return Delivered(queue.value);
    }

    method PeekInbox(r: string) returns (answer: MailAnswer)
      ensures Performs(inboxes, inboxes, r, MailOp.PeekInbox, answer)
      ensures answer == if Readable(inboxes, r) then Delivered(QueueOf(inboxes, r)) else BadQueue
    {
      var queue := Load(r);
      return if queue.None? then BadQueue else Delivered(queue.value);
    }

    method Ack(r: string, ids: seq<string>) returns (answer: MailAnswer)
      modifies this
      ensures Performs(old(inboxes), inboxes, r, MailOp.Ack(set id | id in ids), answer)
      ensures answer == if Readable(old(inboxes), r) then Removed(|Named(QueueOf(old(inboxes), r), set id | id in ids)|)
          else BadQueue
    {
      var queue := Load(r);
      if queue.None? {
        return BadQueue;
      }
      if queue.value == [] {
        assert Named(queue.value, set id | id in ids) == [];
        return Removed(0);
      }
      var remaining := Unnamed(queue.value, set id | id in ids);
      SplitLengths(queue.value, set id | id in ids);
      var removed := |queue.value| - |remaining|;
      if removed == 0 {
        return Removed(0);
      }
      if remaining == [] {
        inboxes := inboxes - {r};
      } else {
        inboxes := inboxes[r := Queue(remaining)];
      }
      return Removed(removed);
    }
  }

  // ---- filtering ------------------------------------------------------------------

  lemma {:induction false} SplitCounts(q: seq<Message>, ids: set<string>)
    ensures multiset(q) == multiset(Unnamed(q, ids)) + multiset(Named(q, ids))
  {
    if q == [] {
    } else {
      SplitCounts(q[1..], ids);
      assert q == [q[0]] + q[1..];
    }
  }

  lemma {:induction false} SplitMembers(q: seq<Message>, ids: set<string>)
    ensures forall m :: m in Unnamed(q, ids) <==> m in q && m.id !in ids
    ensures forall m :: m in Named(q, ids) <==> m in q && m.id in ids
  {
    if q == [] {
    } else {
      SplitMembers(q[1..], ids);
      assert forall m :: m in q <==> m == q[0] || m in q[1..];
    }
  }

  lemma UnnamedSplits(q: seq<Message>, ids: set<string>)
    ensures multiset(q) == multiset(Unnamed(q, ids)) + multiset(Named(q, ids))
    ensures |q| == |Unnamed(q, ids)| + |Named(q, ids)|
  {
    SplitCounts(q, ids);
    assert |q| == |multiset(q)|;
  }

  lemma SplitLengths(q: seq<Message>, ids: set<string>)
    ensures |q| == |Unnamed(q, ids)| + |Named(q, ids)|
  {
    UnnamedSplits(q, ids);
  }

  lemma {:induction false} NothingNamed(q: seq<Message>, ids: set<string>)
    requires |Unnamed(q, ids)| >= |q|
    ensures Unnamed(q, ids) == q && Named(q, ids) == []
  {
    if q == [] {
    } else {
      UnnamedSplits(q[1..], ids);
      NothingNamed(q[1..], ids);
    }
  }

  lemma {:induction false} UnnamedSnoc(q: seq<Message>, m: Message, ids: set<string>)
    ensures Unnamed(q + [m], ids) == if m.id in ids then Unnamed(q, ids) else Unnamed(q, ids) + [m]
  {
    if q == [] {
      assert q + [m] == [m];
    } else {
      assert (q + [m])[1..] == q[1..] + [m];
      UnnamedSnoc(q[1..], m, ids);
    }
  }

  lemma {:induction false} UnnamedTwice(q: seq<Message>, first: set<string>, second: set<string>)
    ensures Unnamed(Unnamed(q, first), second) == Unnamed(q, first + second)
  {
    if q == [] {
    } else {
      UnnamedTwice(q[1..], first, second);
      if q[0].id !in first {
        assert Unnamed(q, first) == [q[0]] + Unnamed(q[1..], first);
        assert Unnamed(q, first)[1..] == Unnamed(q[1..], first);
      }
    }
  }

  lemma {:induction false} UnnamedAgree(q: seq<Message>, a: set<string>, b: set<string>)
    requires forall m :: m in q ==> (m.id in a <==> m.id in b)
    ensures Unnamed(q, a) == Unnamed(q, b)
  {
    if q != [] {
      assert q[0] in q;
      UnnamedAgree(q[1..], a, b);
    }
  }

  lemma {:induction false} NoIds(q: seq<Message>)
    ensures Unnamed(q, {}) == q
  {
    if q != [] {
      NoIds(q[1..]);
    }
  }

  lemma {:induction false} AllIds(q: seq<Message>, ids: set<string>)
    requires forall m :: m in q ==> m.id in ids
    ensures Unnamed(q, ids) == []
  {
    if q != [] {
      assert q[0] in q;
      AllIds(q[1..], ids);
    }
  }

  // ---- what a history of operations did to one inbox ------------------------------------

  /** The messages one operation put into its inbox. */
  ghost function SentBy(e: MailEntry): seq<Message> {
    if e.op.Send? && e.res.Sent? then [e.op.msg] else []
  }

  /** The messages one operation took out of its inbox. */
  ghost function TakenBy(e: MailEntry): seq<Message> {
    if e.op.CheckInbox? && e.res.Delivered? then e.res.messages
    else if e.op.Ack? && e.res.Removed? && e.pre.Some? && e.pre.value.Queue? then Named(e.pre.value.messages, e.op.ids)
    else []
  }

  /** The messages committed to `r`, in the order of their commits. */
  ghost function SentTo(log: seq<MailEntry>, r: string): seq<Message> {
    if log == [] then []
    else
      var e, rest := log[|log| - 1], SentTo(log[..|log| - 1], r);
      if e.key == r then rest + SentBy(e) else rest
  }

  ghost function TakenFrom(log: seq<MailEntry>, r: string): seq<Message> {
    if log == [] then []
    else
      var e, rest := log[|log| - 1], TakenFrom(log[..|log| - 1], r);
      if e.key == r then rest + TakenBy(e) else rest
  }

  ghost function Committed(init: map<string, Inbox>, log: seq<MailEntry>, r: string): seq<Message> {
    QueueOf(init, r) + SentTo(log, r)
  }

  /** One operation on its own queue: append, empty, filter, or nothing. */
  ghost predicate MovesQueue(e: MailEntry, before: seq<Message>, after: seq<Message>) {
    if SentBy(e) != [] then after == before + [e.op.msg] && TakenBy(e) == []
    else if e.op.CheckInbox? && e.res.Delivered? then TakenBy(e) == before && after == []
    else if e.op.Ack? && e.res.Removed? then TakenBy(e) == Named(before, e.op.ids) && after == Unnamed(before, e.op.ids)
    else TakenBy(e) == [] && after == before
  }

  lemma MailEffect(disk: map<string, Inbox>, e: MailEntry)
    requires e.pre == Look(disk, e.key)
    requires e.res == MAIL.decide(e.key, e.op, e.env, e.pre).res
    ensures MovesQueue(e, QueueOf(disk, e.key), QueueOf(Apply(MAIL, disk, e), e.key))
    ensures forall r :: r != e.key ==> QueueOf(Apply(MAIL, disk, e), r) == QueueOf(disk, r)
  {
    if e.op.Ack? {
      var queue := QueueOf(disk, e.key);
      if |Unnamed(queue, e.op.ids)| >= |queue| {
        NothingNamed(queue, e.op.ids);
      }
    }
  }

  lemma MoveConserves(e: MailEntry, all: seq<Message>, taken: seq<Message>, before: seq<Message>, after: seq<Message>)
    requires MovesQueue(e, before, after)
    requires multiset(all) == multiset(before) + multiset(taken)
    ensures multiset(all + SentBy(e)) == multiset(after) + multiset(taken + TakenBy(e))
  {
    if e.op.Ack? {
      SplitCounts(before, e.op.ids);
    }
    assert multiset(before) + multiset(SentBy(e)) == multiset(after) + multiset(TakenBy(e));
    assert multiset(all + SentBy(e)) == multiset(all) + multiset(SentBy(e));
    assert multiset(taken + TakenBy(e)) == multiset(taken) + multiset(TakenBy(e));
  }

  lemma CommittedStep(init: map<string, Inbox>, log: seq<MailEntry>, n: nat, r: string)
    requires n < |log|
    ensures Committed(init, log[..n + 1], r)
            == Committed(init, log[..n], r) + (if log[n].key == r then SentBy(log[n]) else [])
    ensures TakenFrom(log[..n + 1], r) == TakenFrom(log[..n], r) + (if log[n].key == r then TakenBy(log[n]) else [])
  {
    assert log[..n + 1][..n] == log[..n];
  }

  lemma NoHistory(init: map<string, Inbox>, log: seq<MailEntry>, r: string)
    ensures Committed(init, log[..0], r) == QueueOf(init, r) && TakenFrom(log[..0], r) == []
    ensures DiskAt(MAIL, init, log, 0) == init
  {
    assert log[..0] == [];
  }

  /** What is pending just before entry `n`. */
  ghost function PendingAt(init: map<string, Inbox>, log: seq<MailEntry>, n: nat, r: string): seq<Message>
    requires n <= |log|
  {
    QueueOf(DiskAt(MAIL, init, log, n), r)
  }

  lemma ConservationStep(init: map<string, Inbox>, log: seq<MailEntry>, n: nat, r: string)
    requires Legal(MAIL, init, log) && n < |log|
    requires multiset(Committed(init, log[..n], r))
        == multiset(PendingAt(init, log, n, r)) + multiset(TakenFrom(log[..n], r))
    ensures multiset(Committed(init, log[..n + 1], r))
            == multiset(PendingAt(init, log, n + 1, r)) + multiset(TakenFrom(log[..n + 1], r))
  {
    var all, taken := Committed(init, log[..n], r), TakenFrom(log[..n], r);
    CommittedStep(init, log, n, r);
    EntryStep(MAIL, init, log, n);
    MailEffect(DiskAt(MAIL, init, log, n), log[n]);
    if log[n].key == r {
      MoveConserves(log[n], all, taken, PendingAt(init, log, n, r), PendingAt(init, log, n + 1, r));
    } else {
      assert all + [] == all && taken + [] == taken;
    }
  }

  /**
   Nothing is lost and nothing is delivered twice: what was committed to an inbox is what
   is still pending plus what drains and acknowledgements took, copy for copy.
   */
  lemma {:induction false} Conservation(init: map<string, Inbox>, log: seq<MailEntry>, n: nat, r: string)
    requires Legal(MAIL, init, log) && n <= |log|
    ensures multiset(Committed(init, log[..n], r))
            == multiset(PendingAt(init, log, n, r)) + multiset(TakenFrom(log[..n], r))
    decreases n
  {
    if n == 0 {
      NoHistory(init, log, r);
    } else {
      Conservation(init, log, n - 1, r);
      ConservationStep(init, log, n - 1, r);
    }
  }

  ghost function Ids(messages: seq<Message>): set<string> {
    set m | m in messages :: m.id
  }

  ghost predicate DistinctIds(messages: seq<Message>) {
    forall i, j :: 0 <= i < j < |messages| ==> messages[i].id != messages[j].id
  }

  lemma {:induction false} CommittedGrows(init: map<string, Inbox>, log: seq<MailEntry>, m: nat, n: nat, r: string)
    requires m <= n <= |log|
    ensures Committed(init, log[..m], r) <= Committed(init, log[..n], r)
    decreases n
  {
    if m < n {
      CommittedGrows(init, log, m, n - 1, r);
      CommittedStep(init, log, n - 1, r);
    }
  }

  /** What an operation takes, it takes by id. */
  lemma MoveById(e: MailEntry, before: seq<Message>, after: seq<Message>)
    requires MovesQueue(e, before, after) && SentBy(e) == []
    ensures after == Unnamed(before, Ids(TakenBy(e)))
  {
    var ids := Ids(TakenBy(e));
    if e.op.CheckInbox? && e.res.Delivered? {
      AllIds(before, ids);
    } else if e.op.Ack? && e.res.Removed? {
      SplitMembers(before, e.op.ids);
      UnnamedAgree(before, e.op.ids, ids);
    } else {
      assert ids == {};
      NoIds(before);
    }
  }

  /** With distinct ids, what is pending is what was committed, in the same order, less what was taken. */
  lemma {:induction false} PendingInSendOrder(init: map<string, Inbox>, log: seq<MailEntry>, n: nat, r: string)
    requires Legal(MAIL, init, log) && n <= |log|
    requires DistinctIds(Committed(init, log[..n], r))
    ensures PendingAt(init, log, n, r)
            == Unnamed(Committed(init, log[..n], r), Ids(TakenFrom(log[..n], r)))
    decreases n
  {
    if n == 0 {
      NoHistory(init, log, r);
      assert Ids([]) == {};
      NoIds(QueueOf(init, r));
    } else {
      CommittedGrows(init, log, n - 1, n, r);
      PendingInSendOrder(init, log, n - 1, r);
      CommittedStep(init, log, n - 1, r);
      EntryStep(MAIL, init, log, n - 1);
      MailEffect(DiskAt(MAIL, init, log, n - 1), log[n - 1]);
      if log[n - 1].key == r {
        PendingStep(init, log, n - 1, r);
      } else {
        assert Committed(init, log[..n], r) == Committed(init, log[..n - 1], r);
        assert TakenFrom(log[..n], r) == TakenFrom(log[..n - 1], r);
      }
    }
  }

  lemma PendingStep(init: map<string, Inbox>, log: seq<MailEntry>, n: nat, r: string)
    requires Legal(MAIL, init, log) && n < |log| && log[n].key == r
    requires DistinctIds(Committed(init, log[..n], r) + SentBy(log[n]))
    requires PendingAt(init, log, n, r) == Unnamed(Committed(init, log[..n], r), Ids(TakenFrom(log[..n], r)))
    requires MovesQueue(log[n], PendingAt(init, log, n, r), PendingAt(init, log, n + 1, r))
    ensures PendingAt(init, log, n + 1, r)
            == Unnamed(Committed(init, log[..n], r) + SentBy(log[n]), Ids(TakenFrom(log[..n], r) + TakenBy(log[n])))
  {
    var e, all, taken := log[n], Committed(init, log[..n], r), TakenFrom(log[..n], r);
    var before, after := PendingAt(init, log, n, r), PendingAt(init, log, n + 1, r);
    assert Ids(taken + TakenBy(e)) == Ids(taken) + Ids(TakenBy(e));
    if SentBy(e) == [] {
      assert all + SentBy(e) == all;
      MoveById(e, before, after);
      UnnamedTwice(all, Ids(taken), Ids(TakenBy(e)));
    } else {
      Conservation(init, log, n, r);
      SameMembersSum(all, before, taken);
      NewIdUnused(all, e.op.msg);
      assert Ids(taken) + Ids(TakenBy(e)) == Ids(taken);
      UnnamedSnoc(all, e.op.msg, Ids(taken));
    }
  }

  lemma NewIdUnused(all: seq<Message>, msg: Message)
    requires DistinctIds(all + [msg])
    ensures forall m :: m in all ==> m.id != msg.id
  {
    forall m | m in all ensures m.id != msg.id {
      var i :| 0 <= i < |all| && all[i] == m;
      assert (all + [msg])[i] == m && (all + [msg])[|all|] == msg;
    }
  }

  lemma SameMembersSum(all: seq<Message>, a: seq<Message>, b: seq<Message>)
    requires multiset(all) == multiset(a) + multiset(b)
    ensures forall m :: m in all <==> m in a || m in b
  {
    forall m ensures m in all <==> m in a || m in b {
      assert m in all <==> m in multiset(all);
      assert m in a <==> m in multiset(a);
      assert m in b <==> m in multiset(b);
    }
  }

  // ---- the fate of one message ----------------------------------------------------------

  ghost predicate Takes(e: MailEntry, r: string, m: Message) {
    e.key == r && m in TakenBy(e)
  }

  lemma {:induction false} TakenCount(log: seq<MailEntry>, r: string, m: Message, j: nat)
    requires j < |log| && Takes(log[j], r, m)
    ensures multiset(TakenFrom(log, r))[m] >= 1
  {
    var n := |log| - 1;
    assert multiset(TakenFrom(log, r))
        == multiset(TakenFrom(log[..n], r)) + multiset(if log[n].key == r then TakenBy(log[n]) else []);
    if j < n {
      TakenCount(log[..n], r, m, j);
    }
  }

  lemma {:induction false} TakenTwice(log: seq<MailEntry>, r: string, m: Message, i: nat, j: nat)
    requires i < j < |log| && Takes(log[i], r, m) && Takes(log[j], r, m)
    ensures multiset(TakenFrom(log, r))[m] >= 2
  {
    var n := |log| - 1;
    assert multiset(TakenFrom(log, r))
        == multiset(TakenFrom(log[..n], r)) + multiset(if log[n].key == r then TakenBy(log[n]) else []);
    if j < n {
      TakenTwice(log[..n], r, m, i, j);
    } else {
      TakenCount(log[..n], r, m, i);
    }
  }

  lemma {:induction false} TakenBySomeone(log: seq<MailEntry>, r: string, m: Message)
    requires m in TakenFrom(log, r)
    ensures exists j :: 0 <= j < |log| && Takes(log[j], r, m)
  {
    var n := |log| - 1;
    if Takes(log[n], r, m) {
    } else {
      TakenBySomeone(log[..n], r, m);
      var j :| 0 <= j < n && Takes(log[..n][j], r, m);
      assert Takes(log[j], r, m);
    }
  }

  /**
   Exactly one fate. With distinct ids, a committed message is pending exactly as long as no
   operation has taken it, and at most one operation ever takes it: one drain, or one
   acknowledgement that names it.
   */
  lemma ExactlyOneFate(init: map<string, Inbox>, log: seq<MailEntry>, r: string, m: Message)
    requires Legal(MAIL, init, log) && DistinctIds(Committed(init, log, r))
    requires m in Committed(init, log, r)
    ensures m in QueueOf(Replay(MAIL, init, log), r) <==> forall j :: 0 <= j < |log| ==> !Takes(log[j], r, m)
    ensures forall i, j :: 0 <= i < |log| && 0 <= j < |log| && Takes(log[i], r, m) && Takes(log[j], r, m) ==> i == j
    ensures forall j :: 0 <= j < |log| && Takes(log[j], r, m) ==>
              log[j].op.CheckInbox? || (log[j].op.Ack? && m.id in log[j].op.ids)
  {
    assert log[..|log|] == log;
    Conservation(init, log, |log|, r);
    var all, pending, taken := Committed(init, log, r), QueueOf(Replay(MAIL, init, log), r), TakenFrom(log, r);
    DistinctMessages(all);
    assert multiset(all)[m] == 1;
    assert m in pending <==> multiset(pending)[m] >= 1;
    forall j | 0 <= j < |log| && Takes(log[j], r, m)
      ensures m !in pending && (log[j].op.CheckInbox? || (log[j].op.Ack? && m.id in log[j].op.ids))
    {
      TakenCount(log, r, m, j);
      if log[j].op.Ack? {
        SplitMembers(log[j].pre.value.messages, log[j].op.ids);
      }
    }
    forall i, j | 0 <= i < |log| && 0 <= j < |log| && Takes(log[i], r, m) && Takes(log[j], r, m) ensures i == j {
      if i < j {
        TakenTwice(log, r, m, i, j);
      } else if j < i {
        TakenTwice(log, r, m, j, i);
      }
    }
    if m !in pending {
      assert multiset(taken)[m] == 1;
      TakenBySomeone(log, r, m);
    }
  }

  lemma DistinctMessages(all: seq<Message>)
    requires DistinctIds(all)
    ensures forall m :: m in all ==> multiset(all)[m] == 1
  {
    assert NoDuplicates(all);
    DuplicateFree(all);
  }

  /** Acknowledging what a peek showed never takes a message committed after the peek. */
  lemma AckSparesLaterMail(init: map<string, Inbox>, log: seq<MailEntry>, r: string, peek: nat, send: nat, ack: nat)
    requires Legal(MAIL, init, log) && DistinctIds(Committed(init, log, r))
    requires peek < send < |log| && ack < |log|
    requires log[peek].key == r && log[peek].op.PeekInbox? && log[peek].res.Delivered?
    requires log[send].key == r && log[send].op.Send? && log[send].res.Sent?
    requires log[ack].key == r && log[ack].op.Ack? && log[ack].op.ids <= Ids(log[peek].res.messages)
    ensures !Takes(log[ack], r, log[send].op.msg)
  {
    var msg := log[send].op.msg;
    PeekedBefore(init, log, r, peek, send);
    CommittedStep(init, log, send, r);
    CommittedGrows(init, log, send + 1, |log|, r);
    assert log[..|log|] == log;
    DistinctPrefix(Committed(init, log[..send + 1], r), Committed(init, log, r));
    NewIdUnused(Committed(init, log[..send], r), msg);
    if log[ack].pre.Some? && log[ack].pre.value.Queue? {
      SplitMembers(log[ack].pre.value.messages, log[ack].op.ids);
    }
  }

  lemma DistinctPrefix(a: seq<Message>, b: seq<Message>)
    requires a <= b && DistinctIds(b)
    ensures DistinctIds(a)
  {
  }

  /** A peek shows only messages committed before any later operation. */
  lemma PeekedBefore(init: map<string, Inbox>, log: seq<MailEntry>, r: string, peek: nat, later: nat)
    requires Legal(MAIL, init, log) && peek < later < |log|
    requires log[peek].key == r && log[peek].op.PeekInbox? && log[peek].res.Delivered?
    ensures forall m :: m in log[peek].res.messages ==> m in Committed(init, log[..later], r)
  {
    EntryStep(MAIL, init, log, peek);
    Conservation(init, log, peek, r);
    SameMembersSum(Committed(init, log[..peek], r), PendingAt(init, log, peek, r), TakenFrom(log[..peek], r));
    CommittedGrows(init, log, peek, later, r);
  }

  // ---- what the callers are told --------------------------------------------------------

  /**
   What each operation answers: a send that it was sent, a peek and a drain what is pending, an
   acknowledgement how many of the pending messages it named; on an unreadable queue, that it is.
   */
  ghost function AnswerTo(op: MailOp, readable: bool, pending: seq<Message>): MailAnswer {
    if !readable then BadQueue
    else
      match op
      case Send(_) => Sent
      case CheckInbox => Delivered(pending)
      case PeekInbox => Delivered(pending)
      case Ack(ids) => Removed(|Named(pending, ids)|)
  }

  lemma AnsweredByPending(init: map<string, Inbox>, log: seq<MailEntry>, n: nat)
    requires Legal(MAIL, init, log) && n < |log|
    ensures log[n].res
         == AnswerTo(log[n].op, Readable(DiskAt(MAIL, init, log, n), log[n].key), PendingAt(init, log, n, log[n].key))
  {
    EntryStep(MAIL, init, log, n);
    if log[n].op.Ack? {
      UnnamedSplits(PendingAt(init, log, n, log[n].key), log[n].op.ids);
    }
  }

  /** Entry `at` is the call's own, and it returned what the messages pending then make the answer. */
  ghost predicate HeardPending(s: MailState, c: CallId, at: nat) {
    && OwnEntry(s, c, at)
    && s.calls[c].phase.res
       == AnswerTo(s.calls[c].phase.op, Readable(DiskAt(MAIL, s.init, s.log, at), s.calls[c].key),
                   PendingAt(s.init, s.log, at, s.calls[c].key))
  }

  /** In every run each call that returned was decided in the history, and told what was pending at that point. */
  lemma CallersHearPending(ss: seq<MailState>, ls: seq<Label<MailOp, NoEnv>>, t: nat, c: CallId)
    requires Run(MAIL, ss, ls) && t < |ss| && c in ss[t].calls && ss[t].calls[c].phase.Returned?
    ensures exists at :: HeardPending(ss[t], c, at)
  {
    var s := ss[t];
    RunInv(MAIL, ss, ls, t);
    ReturnedAnswers(MAIL, s, c);
    var at: nat :| OwnEntry(s, c, at);
    AnsweredByPending(s.init, s.log, at);
    assert HeardPending(s, c, at);
  }

  /** All of it, for the history of any run of any number of processes. */
  lemma MailSafety(ss: seq<MailState>, ls: seq<Label<MailOp, NoEnv>>, t: nat, r: string)
    requires Run(MAIL, ss, ls) && t < |ss|
    ensures var s := ss[t];
            && multiset(Committed(s.init, s.log, r)) == multiset(QueueOf(s.disk, r)) + multiset(TakenFrom(s.log, r))
            && (DistinctIds(Committed(s.init, s.log, r)) ==>
                  QueueOf(s.disk, r) == Unnamed(Committed(s.init, s.log, r), Ids(TakenFrom(s.log, r))))
  {
    RunInv(MAIL, ss, ls, t);
    var s := ss[t];
    assert s.log[..|s.log|] == s.log;
    Conservation(s.init, s.log, |s.log|, r);
    if DistinctIds(Committed(s.init, s.log, r)) {
      PendingInSendOrder(s.init, s.log, |s.log|, r);
    }
  }
}
