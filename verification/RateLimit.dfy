/** The per-server limiter of crates/apohara-mcp/src/rate_limit.rs: wall-clock minute and hour windows. */
module RateLimit {

  datatype Config = Config(perMinute: nat, perHour: nat)

  function Minute(at: int): int {
    at / 60_000
  }

  function Hour(at: int): int {
    at / 3_600_000
  }

  /** A minute of wall-clock time has sixty thousand milliseconds, before the epoch too; and an hour sixty minutes. */
  lemma WindowLengths(at: int)
    ensures Minute(at) * 60_000 <= at < (Minute(at) + 1) * 60_000
    ensures Hour(at) * 60 <= Minute(at) < (Hour(at) + 1) * 60
  {
  }

  /** A call and the limiter's answer. */
  datatype Call = Call(at: int, accepted: bool)

  // ---- what is counted -----------------------------------------------------------------------

  /** Accepted calls in window `w`, over the whole history. */
  ghost function Accepted(window: int -> int, calls: seq<Call>, w: int): nat {
    if calls == [] then 0
    else
      var last := calls[|calls| - 1];
      Accepted(window, calls[..|calls| - 1], w) + if last.accepted && window(last.at) == w then 1 else 0
  }

  /** Accepted calls in window `w` since the clock last entered it, for as long as it has not left. */
  ghost function Streak(window: int -> int, calls: seq<Call>, w: int): nat {
    if calls == [] || window(calls[|calls| - 1].at) != w then 0
    else Streak(window, calls[..|calls| - 1], w) + if calls[|calls| - 1].accepted then 1 else 0
  }

  ghost predicate Admits(config: Config, calls: seq<Call>, now: int) {
    && Streak(Minute, calls, Minute(now)) < config.perMinute
    && Streak(Hour, calls, Hour(now)) < config.perHour
  }

  /** The calls a limiter has answered when asked at these times. */
  ghost function History(config: Config, times: seq<int>): (calls: seq<Call>)
    ensures |calls| == |times| && forall i :: 0 <= i < |times| ==> calls[i].at == times[i]
  {
    if times == [] then []
    else
      var now, before := times[|times| - 1], History(config, times[..|times| - 1]);
      before + [Call(now, Admits(config, before, now))]
  }

  lemma CallNext(window: int -> int, calls: seq<Call>, call: Call, w: int)
    ensures Accepted(window, calls + [call], w)
         == Accepted(window, calls, w) + if call.accepted && window(call.at) == w then 1 else 0
    ensures Streak(window, calls + [call], w)
         == if window(call.at) != w then 0 else Streak(window, calls, w) + if call.accepted then 1 else 0
  {
    assert (calls + [call])[..|calls|] == calls;
  }

  // ---- the limiter -----------------------------------------------------------------------------

  /** A counter is on the last call's window and holds its streak. */
  ghost predicate Counts(window: int -> int, calls: seq<Call>, w: int, count: nat) {
    count == Streak(window, calls, w) && (calls != [] ==> w == window(calls[|calls| - 1].at))
  }

  /** A counter follows its streak through one call. */
  lemma CountsNext(window: int -> int, calls: seq<Call>, w: int, count: nat, call: Call) returns (kept: nat)
    requires Counts(window, calls, w, count)
    ensures kept == (if window(call.at) == w then count else 0) == Streak(window, calls, window(call.at))
    ensures Counts(window, calls + [call], window(call.at), kept + if call.accepted then 1 else 0)
  {
    kept := if window(call.at) == w then count else 0;
    CallNext(window, calls, call, window(call.at));
  }

  lemma HistoryNext(config: Config, times: seq<int>, now: int) returns (call: Call)
    ensures call == Call(now, Admits(config, History(config, times), now))
    ensures History(config, times + [now]) == History(config, times) + [call]
  {
    call := Call(now, Admits(config, History(config, times), now));
    assert (times + [now])[..|times|] == times;
  }

  datatype Counters = Counters(minuteWindow: int, minuteCount: nat, hourWindow: int, hourCount: nat)

  ghost predicate Tracks(config: Config, times: seq<int>, c: Counters) {
    && Counts(Minute, History(config, times), c.minuteWindow, c.minuteCount)
    && Counts(Hour, History(config, times), c.hourWindow, c.hourCount)
  }

  /** A window the clock has left starts over. */
  ghost function Rolled(c: Counters, now: int): Counters {
    Counters(Minute(now), if Minute(now) == c.minuteWindow then c.minuteCount else 0,
             Hour(now), if Hour(now) == c.hourWindow then c.hourCount else 0)
  }

  ghost predicate HasRoom(config: Config, c: Counters) {
    c.minuteCount < config.perMinute && c.hourCount < config.perHour
  }

  ghost function Taken(config: Config, c: Counters): Counters {
    if HasRoom(config, c) then Counters(c.minuteWindow, c.minuteCount + 1, c.hourWindow, c.hourCount + 1) else c
  }

  lemma TracksNext(config: Config, times: seq<int>, c: Counters, now: int)
    requires Tracks(config, times, c)
    ensures HasRoom(config, Rolled(c, now)) <==> Admits(config, History(config, times), now)
    ensures Tracks(config, times + [now], Taken(config, Rolled(c, now)))
  {
    var call := HistoryNext(config, times, now);
    var minute := CountsNext(Minute, History(config, times), c.minuteWindow, c.minuteCount, call);
    var hour := CountsNext(Hour, History(config, times), c.hourWindow, c.hourCount, call);
  }

  class TokenBucket {
    const config: Config
    var minuteWindow: int
    var minuteCount: nat
    var hourWindow: int
    var hourCount: nat
    /** When it was asked. */
    ghost var times: seq<int>

    ghost function State(): Counters
      reads this
    {
      Counters(minuteWindow, minuteCount, hourWindow, hourCount)
    }

    ghost predicate Valid()
      reads this
    {
      && Tracks(config, times, State())
      && minuteCount <= config.perMinute && hourCount <= config.perHour
    }

    constructor (config: Config)
      ensures Valid() && times == [] && this.config == config
    {
      this.config := config;
      minuteWindow, minuteCount, hourWindow, hourCount, times := 0, 0, 0, 0, [];
    }

    method TryConsume(now: int) returns (accepted: bool)
      requires Valid()
      modifies this
      ensures Valid() && times == old(times) + [now]
      ensures accepted <==> Admits(config, History(config, old(times)), now)
    {
      TracksNext(config, times, State(), now);
      var currentMinute, currentHour := Minute(now), Hour(now);
      if currentMinute != minuteWindow {
        minuteWindow, minuteCount := currentMinute, 0;
      }
      if currentHour != hourWindow {
        hourWindow, hourCount := currentHour, 0;
      }
      times := times + [now];
      assert State() == Rolled(old(State()), now);
      if minuteCount >= config.perMinute {
        accepted := false;
      } else if hourCount >= config.perHour {
        accepted := false;
      } else {
        minuteCount := minuteCount + 1;
        hourCount := hourCount + 1;
        accepted := true;
      }
      assert State() == Taken(config, Rolled(old(State()), now));
    }

    method CurrentCounts(now: int) returns (minute: nat, hour: nat)
      requires Valid()
      ensures minute == Streak(Minute, History(config, times), Minute(now)) <= config.perMinute
      ensures hour == Streak(Hour, History(config, times), Hour(now)) <= config.perHour
    {
      minute := if Minute(now) == minuteWindow then minuteCount else 0;
      hour := if Hour(now) == hourWindow then hourCount else 0;
    }
  }

  // ---- when the streak is the whole window -------------------------------------------------------

  /** The clock is in a window, leaves it, and comes back. */
  ghost predicate Revisits(window: int -> int, times: seq<int>, i: nat, j: nat, k: nat) {
    i < j < k < |times| && window(times[i]) == window(times[k]) && window(times[j]) != window(times[i])
  }

  /** The clock never comes back to a window it has left. */
  ghost predicate NeverReturns(window: int -> int, times: seq<int>) {
    forall i: nat, j: nat, k: nat :: !Revisits(window, times, i, j, k)
  }

  /** In particular, a clock that does not go back. */
  lemma SteadyClock(times: seq<int>)
    requires forall i, j :: 0 <= i < j < |times| ==> times[i] <= times[j]
    ensures NeverReturns(Minute, times) && NeverReturns(Hour, times)
  {
  }

  lemma {:induction false} NothingElsewhere(window: int -> int, calls: seq<Call>, w: int)
    requires forall i :: 0 <= i < |calls| ==> window(calls[i].at) != w
    ensures Accepted(window, calls, w) == 0
  {
    if calls != [] {
      NothingElsewhere(window, calls[..|calls| - 1], w);
    }
  }

  ghost function TimesOf(calls: seq<Call>): (times: seq<int>)
    ensures |times| == |calls| && forall i :: 0 <= i < |calls| ==> times[i] == calls[i].at
  {
    seq(|calls|, i requires 0 <= i < |calls| => calls[i].at)
  }

  lemma {:induction false} StreakIsAll(window: int -> int, calls: seq<Call>, now: int)
    requires NeverReturns(window, TimesOf(calls) + [now])
    ensures Streak(window, calls, window(now)) == Accepted(window, calls, window(now))
  {
    var w, times := window(now), TimesOf(calls) + [now];
    if calls != [] {
      var n := |calls| - 1;
      if window(calls[n].at) == w {
        var shorter := TimesOf(calls[..n]) + [now];
        forall i: nat, j: nat, k: nat ensures !Revisits(window, shorter, i, j, k) {
          var last := if k == n then n + 1 else k;
          assert !Revisits(window, times, i, j, last);
        }
        StreakIsAll(window, calls[..n], now);
      } else {
        forall i | 0 <= i < |calls| ensures window(calls[i].at) != w {
          assert !Revisits(window, times, i, n, n + 1);
        }
        NothingElsewhere(window, calls, w);
      }
    }
  }

  // ---- quotas ------------------------------------------------------------------------------------

  /** No window holds more accepted calls than its quota. */
  ghost predicate WithinQuota(config: Config, calls: seq<Call>) {
    && (forall w :: Accepted(Minute, calls, w) <= config.perMinute)
    && (forall w :: Accepted(Hour, calls, w) <= config.perHour)
  }

  lemma NeverReturnsPrefix(window: int -> int, times: seq<int>, n: nat)
    requires NeverReturns(window, times) && n <= |times|
    ensures NeverReturns(window, times[..n])
  {
    var p := times[..n];
    forall i: nat, j: nat, k: nat ensures !Revisits(window, p, i, j, k) {
      assert !Revisits(window, times, i, j, k);
    }
  }

  /** The next call is answered by what its two windows have accepted, nothing more and nothing less. */
  lemma AnsweredByQuota(config: Config, times: seq<int>, now: int)
    requires NeverReturns(Minute, times + [now]) && NeverReturns(Hour, times + [now])
    ensures var calls := History(config, times);
            && Streak(Minute, calls, Minute(now)) == Accepted(Minute, calls, Minute(now))
            && Streak(Hour, calls, Hour(now)) == Accepted(Hour, calls, Hour(now))
            && (Admits(config, calls, now) <==>
                && Accepted(Minute, calls, Minute(now)) < config.perMinute
                && Accepted(Hour, calls, Hour(now)) < config.perHour)
  {
    var calls := History(config, times);
    assert TimesOf(calls) == times;
    StreakIsAll(Minute, calls, now);
    StreakIsAll(Hour, calls, now);
  }

  /** While the clock never returns to a window, every window keeps to its quota. */
  lemma {:induction false} QuotaKept(config: Config, times: seq<int>)
    requires NeverReturns(Minute, times) && NeverReturns(Hour, times)
    ensures WithinQuota(config, History(config, times))
  {
    if times != [] {
      var before, now := times[..|times| - 1], times[|times| - 1];
      assert before + [now] == times;
      NeverReturnsPrefix(Minute, times, |before|);
      NeverReturnsPrefix(Hour, times, |before|);
      QuotaKept(config, before);
      AnsweredByQuota(config, before, now);
      QuotaNext(config, History(config, before), Call(now, Admits(config, History(config, before), now)));
    }
  }

  lemma QuotaNext(config: Config, calls: seq<Call>, call: Call)
    requires WithinQuota(config, calls)
    requires call.accepted ==>
               && Accepted(Minute, calls, Minute(call.at)) < config.perMinute
               && Accepted(Hour, calls, Hour(call.at)) < config.perHour
    ensures WithinQuota(config, calls + [call])
  {
    forall w ensures Accepted(Minute, calls + [call], w) <= config.perMinute {
      CallNext(Minute, calls, call, w);
      assert Accepted(Minute, calls, w) <= config.perMinute;
    }
    forall w ensures Accepted(Hour, calls + [call], w) <= config.perHour {
      CallNext(Hour, calls, call, w);
      assert Accepted(Hour, calls, w) <= config.perHour;
    }
  }

  // ---- and only then -------------------------------------------------------------------------------

  lemma {:induction false} AcceptedGrows(window: int -> int, calls: seq<Call>, n: nat, w: int)
    requires n <= |calls|
    ensures Accepted(window, calls[..n], w) <= Accepted(window, calls, w)
  {
    if n < |calls| {
      var shorter := calls[..|calls| - 1];
      assert shorter[..n] == calls[..n];
      AcceptedGrows(window, shorter, n, w);
    } else {
      assert calls[..n] == calls;
    }
  }

  /** A streak counts nothing from before the clock was elsewhere. */
  lemma {:induction false} StreakIsNew(window: int -> int, calls: seq<Call>, j: nat, w: int)
    requires j < |calls| && window(calls[j].at) != w
    ensures Accepted(window, calls[..j], w) + Streak(window, calls, w) <= Accepted(window, calls, w)
  {
    var shorter := calls[..|calls| - 1];
    if j < |shorter| && window(calls[|calls| - 1].at) == w {
      assert shorter[..j] == calls[..j];
      StreakIsNew(window, shorter, j, w);
    } else {
      AcceptedGrows(window, calls, j, w);
    }
  }

  lemma {:induction false} StreakBounded(window: int -> int, calls: seq<Call>, w: int)
    ensures Streak(window, calls, w) <= |calls|
    ensures Accepted(window, calls, w) >= Streak(window, calls, w)
  {
    if calls != [] {
      StreakBounded(window, calls[..|calls| - 1], w);
    }
  }

  lemma HistoryPrefix(config: Config, times: seq<int>, n: nat)
    requires n <= |times|
    ensures History(config, times[..n]) == History(config, times)[..n]
    decreases |times|
  {
    if n < |times| {
      var shorter := times[..|times| - 1];
      assert shorter[..n] == times[..n];
      HistoryPrefix(config, shorter, n);
      assert History(config, times)[..n] == History(config, shorter)[..n];
    } else {
      assert times[..n] == times;
    }
  }

  /** With a quota of one call for a window, every window asked for has accepted one. */
  lemma OneGetsIn(hourly: bool, config: Config, times: seq<int>, i: nat)
    requires i < |times|
    requires config == if hourly then Config(|times| + 1, 1) else Config(1, |times| + 1)
    ensures hourly ==> Streak(Hour, History(config, times)[..i + 1], Hour(times[i])) >= 1
    ensures !hourly ==> Streak(Minute, History(config, times)[..i + 1], Minute(times[i])) >= 1
  {
    var calls := History(config, times);
    HistoryPrefix(config, times, i);
    HistoryPrefix(config, times, i + 1);
    assert times[..i + 1][..i] == times[..i];
    StreakBounded(Hour, calls[..i], Hour(times[i]));
    StreakBounded(Minute, calls[..i], Minute(times[i]));
    assert calls[..i + 1] == calls[..i] + [calls[i]];
    CallNext(Minute, calls[..i], calls[i], Minute(times[i]));
    CallNext(Hour, calls[..i], calls[i], Hour(times[i]));
  }

  /** So a window left and entered again accepts at least two. */
  lemma TwoGetIn(window: int -> int, calls: seq<Call>, i: nat, j: nat, k: nat, w: int)
    requires i < j < k < |calls| && window(calls[j].at) != w
    requires Streak(window, calls[..i + 1], w) >= 1 && Streak(window, calls[..k + 1], w) >= 1
    ensures Accepted(window, calls, w) >= 2
  {
    StreakBounded(window, calls[..i + 1], w);
    assert calls[..j][..i + 1] == calls[..i + 1];
    AcceptedGrows(window, calls[..j], i + 1, w);
    assert calls[..k + 1][..j] == calls[..j];
    StreakIsNew(window, calls[..k + 1], j, w);
    AcceptedGrows(window, calls, k + 1, w);
  }

  /** A clock that returns to a minute lets some quota be exceeded, and so does one that returns to an hour. */
  lemma ReturningBreaksQuota(times: seq<int>, hourly: bool) returns (config: Config)
    requires !NeverReturns(if hourly then Hour else Minute, times)
    ensures !WithinQuota(config, History(config, times))
  {
    config := if hourly then Config(|times| + 1, 1) else Config(1, |times| + 1);
    if hourly {
      var i: nat, j: nat, k: nat :| Revisits(Hour, times, i, j, k);
      OneGetsIn(hourly, config, times, i);
      OneGetsIn(hourly, config, times, k);
      TwoGetIn(Hour, History(config, times), i, j, k, Hour(times[i]));
    } else {
      var i: nat, j: nat, k: nat :| Revisits(Minute, times, i, j, k);
      OneGetsIn(hourly, config, times, i);
      OneGetsIn(hourly, config, times, k);
      TwoGetIn(Minute, History(config, times), i, j, k, Minute(times[i]));
    }
  }

  /** The quotas hold, whatever they are, exactly when the clock never returns to a window it has left. */
  lemma QuotasHoldExactly(times: seq<int>)
    ensures (forall config: Config :: WithinQuota(config, History(config, times)))
       <==> NeverReturns(Minute, times) && NeverReturns(Hour, times)
  {
    if !NeverReturns(Minute, times) {
      var config := ReturningBreaksQuota(times, false);
    } else if !NeverReturns(Hour, times) {
      var config := ReturningBreaksQuota(times, true);
    } else {
      forall config: Config ensures WithinQuota(config, History(config, times)) {
        QuotaKept(config, times);
      }
    }
  }

  /** One minute, the next, and back: the quota of one is used up twice in the same minute. */
  lemma ClockTurnedBack()
    ensures History(Config(1, 3), [0, 60_000, 0]) == [Call(0, true), Call(60_000, true), Call(0, true)]
    ensures Accepted(Minute, History(Config(1, 3), [0, 60_000, 0]), 0) == 2
  {
    var config := Config(1, 3);
    var first, second, third := Call(0, true), Call(60_000, true), Call(0, true);
    CallAdmitted(config, [], [], first);
    CallAdmitted(config, [0], [first], second);
    CallAdmitted(config, [0, 60_000], [first, second], third);
    CallNext(Minute, [first, second], third, 0);
    CallNext(Minute, [first], second, 0);
    CallNext(Minute, [], first, 0);
    assert [first, second, third] == [first, second] + [third] && [first, second] == [first] + [second];
  }

  lemma CallAdmitted(config: Config, times: seq<int>, calls: seq<Call>, call: Call)
    requires History(config, times) == calls && call.accepted && Admits(config, calls, call.at)
    ensures History(config, times + [call.at]) == calls + [call]
  {
    var next := HistoryNext(config, times, call.at);
  }
}
