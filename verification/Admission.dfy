/**
 The running statistics and the admission gate of
 crates/apohara-context-primitives/src/queueing.rs, over exact reals.
 */
module Admission {
  import opened Options
  import opened Queueing

  const U32_MAX: nat := 0xFFFF_FFFF
  /** The utilization just below one that a stable estimate is clamped to. */
  const NEARLY_ONE: real := 0.999999

  // ---- running mean and variance -----------------------------------------------------------

  ghost function Sum(s: seq<real>): real {
    if s == [] then 0.0 else Sum(s[..|s| - 1]) + s[|s| - 1]
  }

  ghost function Square(x: real): real {
    x * x
  }

  lemma SquareNotNegative(x: real)
    ensures Square(x) >= 0.0
  {
    if x > 0.0 {
      MulPositive(x, x);
    } else if x < 0.0 {
      MulPositive(-x, -x);
      assert (-x) * (-x) == x * x;
    }
  }

  /** How far the samples lie from `centre`, squared and summed. */
  ghost function Spread(s: seq<real>, centre: real): real {
    if s == [] then 0.0 else Spread(s[..|s| - 1], centre) + Square(s[|s| - 1] - centre)
  }

  lemma {:induction false} SpreadNotNegative(s: seq<real>, centre: real)
    ensures Spread(s, centre) >= 0.0
  {
    if s != [] {
      SpreadNotNegative(s[..|s| - 1], centre);
      SquareNotNegative(s[|s| - 1] - centre);
    }
  }

  /** Away from the mean the spread only grows. */
  lemma SpreadAboutMean(s: seq<real>, n: real, m: real, m': real)
    requires n == |s| as real && m * n == Sum(s)
    ensures Spread(s, m') == Spread(s, m) + n * Square(m' - m)
  {
    MoveCentre(s, m, m');
    AboutMean(n, Sum(s), m, m');
  }

  /** The change in spread when the centre moves from `m` to `m'`, for `n` samples of that `sum`. */
  ghost function Shift(n: real, sum: real, m: real, m': real): real {
    n * (m' * m' - m * m) - 2.0 * ((m' - m) * sum)
  }

  lemma {:induction false} MoveCentre(s: seq<real>, m: real, m': real)
    ensures Spread(s, m') == Spread(s, m) + Shift(|s| as real, Sum(s), m, m')
  {
    if s != [] {
      var rest, x := s[..|s| - 1], s[|s| - 1];
      MoveCentre(rest, m, m');
      MoveOne(|rest| as real, Sum(rest), x, m, m');
      assert |s| as real == |rest| as real + 1.0;
    }
  }

  lemma MoveOne(n: real, sum: real, x: real, m: real, m': real)
    ensures Shift(n, sum, m, m') + Square(x - m') == Shift(n + 1.0, sum + x, m, m') + Square(x - m)
  {
    assert Square(x - m') == x * x - 2.0 * (x * m') + m' * m';
    assert Square(x - m) == x * x - 2.0 * (x * m) + m * m;
    assert (m' - m) * (sum + x) == (m' - m) * sum + (x * m' - x * m);
  }

  lemma AboutMean(n: real, sum: real, m: real, m': real)
    requires m * n == sum
    ensures Shift(n, sum, m, m') == n * Square(m' - m)
  {
    assert (m' - m) * sum == n * (m' * m - m * m);
    assert Square(m' - m) == m' * m' - 2.0 * (m' * m) + m * m;
    assert n * Square(m' - m) == n * (m' * m' - m * m) - 2.0 * (n * (m' * m - m * m));
  }

  lemma MeanStep(n: real, mean: real, value: real)
    requires n >= 0.0
    ensures (mean + (value - mean) / (n + 1.0)) * (n + 1.0) == mean * n + value
  {
    QuotientTimes(value - mean, n + 1.0);
  }

  /** What the update adds to the spread about the moving mean. */
  lemma SpreadStep(n: real, m: real, m': real, value: real)
    requires m' * (n + 1.0) == m * n + value
    ensures n * Square(m' - m) + Square(value - m') == (value - m) * (value - m')
  {
    var e, d := m' - m, value - m;
    assert n * e == d - e;
    assert n * Square(e) == (n * e) * e;
    assert (n * e) * e == (d - e) * e;
    assert Square(d - e) == (d - e) * (d - e);
    assert (d - e) * e + (d - e) * (d - e) == (d - e) * d;
  }

  lemma Append(before: seq<real>, value: real, centre: real)
    ensures Sum(before + [value]) == Sum(before) + value
    ensures Spread(before + [value], centre) == Spread(before, centre) + Square(value - centre)
  {
    var after := before + [value];
    assert after[..|after| - 1] == before;
  }

  /** One sample more: when the mean moves by its share, the spread follows. */
  lemma SampleStep(before: seq<real>, n: real, m: real, m': real, value: real)
    requires n == |before| as real && m * n == Sum(before)
    requires m' * (n + 1.0) == m * n + value
    ensures m' * (n + 1.0) == Sum(before + [value])
    ensures Spread(before + [value], m') == Spread(before, m) + (value - m) * (value - m')
  {
    Append(before, value, m');
    SpreadAboutMean(before, n, m, m');
    SpreadStep(n, m, m', value);
  }

  lemma WelfordStep(before: seq<real>, n: real, m: real, m': real, value: real)
    requires n == |before| as real && m * n == Sum(before)
    requires m' == m + (value - m) / (n + 1.0)
    ensures m' * (n + 1.0) == Sum(before + [value])
    ensures Spread(before + [value], m') == Spread(before, m) + (value - m) * (value - m')
  {
    MeanStep(n, m, value);
    SampleStep(before, n, m, m', value);
  }

  /** The running figures describe the `n` samples seen. */
  ghost predicate Summarizes(seen: seq<real>, n: real, mean: real, m2: real) {
    n == |seen| as real && mean * n == Sum(seen) && m2 == Spread(seen, mean)
  }

  lemma SummaryNext(seen: seq<real>, n: real, mean: real, m2: real, value: real, mean': real, m2': real)
    requires Summarizes(seen, n, mean, m2)
    requires mean' == mean + (value - mean) / (n + 1.0)
    requires m2' == m2 + (value - mean) * (value - mean')
    ensures Summarizes(seen + [value], n + 1.0, mean', m2')
  {
    WelfordStep(seen, n, mean, mean', value);
  }

  class Welford {
    var count: nat
    var mean: real
    var m2: real
    ghost var seen: seq<real>

    ghost predicate Valid()
      reads this
    {
      count == |seen| && Summarizes(seen, count as real, mean, m2)
    }

    constructor ()
      ensures Valid() && seen == []
    {
      count, mean, m2, seen := 0, 0.0, 0.0, [];
    }

    method Update(value: real)
      requires Valid()
      modifies this
      ensures Valid() && seen == old(seen) + [value]
    {
      count := count + 1;
      var delta := value - mean;
      mean := mean + delta / count as real;
      var delta2 := value - mean;
      m2 := m2 + delta * delta2;
      seen := seen + [value];
      assert count as real == old(count) as real + 1.0;
      SummaryNext(old(seen), old(count) as real, old(mean), old(m2), value, mean, m2);
    }

    /** The accumulated `m2` is the least spread about any centre, so it is never negative. */
    lemma LeastSpread(centre: real)
      requires Valid()
      ensures 0.0 <= m2 <= Spread(seen, centre)
    {
      SpreadNotNegative(seen, mean);
      SpreadAboutMean(seen, count as real, mean, centre);
      SquareNotNegative(centre - mean);
      MulLe(0.0, Square(centre - mean), count as real);
    }
  }

  // ---- utilization and the critical arrival rate --------------------------------------------

  function Clamp(x: real, low: real, high: real): real {
    if x < low then low else if x > high then high else x
  }

  function Utilization(rate: real, mu: real, c: nat): real {
    if mu <= 0.0 || c == 0 then 1.0
    else
      MulPositive(mu, c as real);
      Clamp(rate / Capacity(mu, c), 0.0, NEARLY_ONE)
  }

  /** It is the share of the capacity that arrives, between none and just short of all; with no servers it is all. */
  lemma UtilizationIsShare(rate: real, mu: real, c: nat)
    ensures mu <= 0.0 || c == 0 ==> Utilization(rate, mu, c) == 1.0
    ensures mu > 0.0 && c > 0 && rate <= 0.0 ==> Utilization(rate, mu, c) == 0.0
    ensures mu > 0.0 && c > 0 && 0.0 <= rate <= 0.999_999 * Capacity(mu, c) ==>
              Utilization(rate, mu, c) * Capacity(mu, c) == rate
    ensures mu > 0.0 && c > 0 && rate >= 0.999_999 * Capacity(mu, c) ==> Utilization(rate, mu, c) == 0.999_999
  {
    if mu > 0.0 && c > 0 {
      MulPositive(mu, c as real);
      var capacity := Capacity(mu, c);
      CrossMultiply(rate, capacity, 0.0, 1.0);
      CrossMultiply(0.0, 1.0, rate, capacity);
      CrossMultiply(rate, capacity, 0.999_999, 1.0);
      CrossMultiply(0.999_999, 1.0, rate, capacity);
      QuotientTimes(rate, capacity);
    }
  }

  function LambdaCritical(mu: real, c: nat, target: real): real {
    Capacity(mu, c) * Clamp(target, 0.0, 1.0)
  }

  /**
   The critical rate is the largest one within the target, except that a target no estimate can
   exceed admits every rate and a negative one admits none.
   */
  lemma WithinTarget(rate: real, mu: real, c: nat, target: real)
    requires mu > 0.0 && c > 0
    ensures Utilization(rate, mu, c) <= target
       <==> target >= NEARLY_ONE || (0.0 <= target && rate <= LambdaCritical(mu, c, target))
  {
    MulPositive(mu, c as real);
    CrossMultiply(rate, Capacity(mu, c), target, 1.0);
    Commute(target, Capacity(mu, c));
  }

  /** Offering the critical rate gives back the target exactly when the target is attainable. */
  lemma CriticalInverts(mu: real, c: nat, target: real)
    requires mu > 0.0 && c > 0
    ensures Utilization(LambdaCritical(mu, c, target), mu, c) == target <==> 0.0 <= target <= NEARLY_ONE
  {
    MulPositive(mu, c as real);
    var share := Clamp(target, 0.0, 1.0);
    CrossMultiply(LambdaCritical(mu, c, target), Capacity(mu, c), share, 1.0);
    Commute(share, Capacity(mu, c));
  }

  // ---- the controller -------------------------------------------------------------------------

  datatype Config = Config(servers: nat, targetUtilization: real, minStableConcurrency: nat)

  datatype Decision = Admit | Defer(retryAfterMs: nat) | Reject

  lemma Distribute(p: real, a: real, b: real)
    requires a + b == 1.0
    ensures p * a + p * b == p
  {
    assert p * a + p * b == p * (a + b);
    assert p * 1.0 == p;
  }

  /** A weighted average lies within the bounds of what it averages. */
  lemma AverageWithin(alpha: real, beta: real, x: real, y: real, peak: real)
    requires 0.0 <= alpha && 0.0 <= beta && alpha + beta == 1.0
    requires 0.0 <= x <= peak && 0.0 <= y <= peak
    ensures 0.0 <= alpha * x + beta * y <= peak
  {
    WeightedWithin(alpha, beta, x, y, peak);
    Distribute(peak, alpha, beta);
  }

  lemma WeightedWithin(a: real, b: real, x: real, y: real, peak: real)
    requires 0.0 <= a && 0.0 <= b && 0.0 <= x <= peak && 0.0 <= y <= peak
    ensures 0.0 <= a * x + b * y <= peak * a + peak * b
  {
    MulLe(0.0, x, a);
    MulLe(x, peak, a);
    MulLe(0.0, y, b);
    MulLe(y, peak, b);
  }

  /** The arrival rate a gap of `dt` stands for. */
  function RateOf(dt: real): (rate: real)
    requires dt > 0.0
    ensures rate > 0.0
  {
    CrossMultiply(0.0, 1.0, 1.0, dt);
    1.0 / dt
  }

  ghost function Larger(a: real, b: real): real {
    if a > b then a else b
  }

  /** The average after a gap, with the weight `alpha` for the newest rate. */
  function Averaged(alpha: real, newest: real, average: real): real {
    alpha * newest + (1.0 - alpha) * average
  }

  /** The weight goes to the newest rate: it brings the average that share of the way to it. */
  lemma AverageApproaches(alpha: real, newest: real, average: real)
    ensures Averaged(alpha, newest, average) - average == alpha * (newest - average)
    ensures Averaged(1.0, newest, average) == newest && Averaged(0.0, newest, average) == average
  {
    assert alpha * (newest - average) == alpha * newest - alpha * average;
    assert (1.0 - alpha) * average == average - alpha * average;
  }

  ghost predicate NoneNegative(s: seq<real>) {
    forall i :: 0 <= i < |s| ==> s[i] >= 0.0
  }

  lemma {:induction false} SumNotNegative(s: seq<real>)
    requires NoneNegative(s)
    ensures Sum(s) >= 0.0
  {
    if s != [] {
      SumNotNegative(s[..|s| - 1]);
    }
  }

  /** The mean of the service times, in seconds; a second before any has been seen to take time. */
  ghost function MeanService(seen: seq<real>): (mean: real) {
    if Sum(seen) > 0.0 && seen != [] then Sum(seen) / (|seen| as real) else 1.0
  }

  /** Whole milliseconds of the mean, a millisecond at least and a minute at most. */
  ghost predicate RightDelay(ms: nat, mean: real) {
    if 1_000.0 * mean < 1.0 then ms == 1
    else if 1_000.0 * mean >= 60_000.0 then ms == 60_000
    else ms as real <= 1_000.0 * mean < ms as real + 1.0
  }

  lemma Reciprocal(a: real, b: real)
    requires a > 0.0 && b > 0.0
    ensures (a / b) * (b / a) == 1.0
  {
    QuotientTimes(a, b);
    QuotientTimes(b, a);
    RoundTrip(a / b, b / a, a, b);
  }

  lemma RoundTrip(x: real, y: real, a: real, b: real)
    requires a > 0.0 && x * b == a && y * a == b
    ensures x * y == 1.0
  {
    Associate(x, y, a);
    SameProduct(x * y, 1.0, a);
  }

  lemma TimesReciprocal(x: real, y: real)
    requires y > 0.0 && x * y == 1.0
    ensures 1_000.0 / y == 1_000.0 * x
  {
    Associate(1_000.0, x, y);
    QuotientTimes(1_000.0, y);
    SameProduct(1_000.0 / y, 1_000.0 * x, y);
  }

  class Controller {
    const config: Config
    const service: Welford
    var lambdaEma: real
    var lastArrival: Option<real>
    var inflight: nat
    /** The highest rate measured so far. */
    ghost var peak: real
    ghost var arrivals: nat

    ghost predicate Valid()
      reads this, service
    {
      && service.Valid() && NoneNegative(service.seen)
      && 0.0 <= lambdaEma <= peak
      && inflight <= U32_MAX
      // Nothing in flight that did not arrive, and nothing missing that did not complete.
      && inflight <= arrivals
      && (arrivals <= U32_MAX ==> arrivals <= inflight + service.count)
    }

    constructor (config: Config)
      ensures Valid() && fresh(service) && this.config == config
      ensures lambdaEma == 0.0 && inflight == 0 && arrivals == 0 && service.seen == []
    {
      this.config := config;
      service := new Welford();
      lambdaEma, lastArrival, inflight, peak, arrivals := 0.0, None, 0, 0.0, 0;
    }

    /** `alpha` is the weight the decay gives this gap. */
    method RecordArrival(now: real, alpha: real)
      requires Valid() && 0.0 <= alpha <= 1.0
      modifies this
      ensures Valid() && arrivals == old(arrivals) + 1 && lastArrival == Some(now)
      ensures inflight == if old(inflight) < U32_MAX then old(inflight) + 1 else U32_MAX
      ensures old(lastArrival).Some? && old(lastArrival).value < now ==>
                && lambdaEma == Averaged(alpha, RateOf(now - old(lastArrival).value), old(lambdaEma))
                && peak == Larger(RateOf(now - old(lastArrival).value), old(peak))
      ensures old(lastArrival).None? || old(lastArrival).value >= now ==>
          lambdaEma == old(lambdaEma) && peak == old(peak)
    {
      if inflight < U32_MAX {
        inflight := inflight + 1;
      }
      arrivals := arrivals + 1;
      match lastArrival {
      case Some(prev) =>
        var dt := now - prev;
        if dt > 0.0 {
          var instantaneous := RateOf(dt);
          peak := Larger(instantaneous, peak);
          AverageWithin(alpha, 1.0 - alpha, instantaneous, lambdaEma, peak);
          lambdaEma := Averaged(alpha, instantaneous, lambdaEma);
        }
      case None =>
      }
      lastArrival := Some(now);
    }

    method RecordCompletion(serviceTime: real)
      requires Valid() && serviceTime >= 0.0
      modifies this, service
      ensures Valid() && service.seen == old(service.seen) + [serviceTime]
      ensures inflight == if old(inflight) > 0 then old(inflight) - 1 else 0
      ensures lambdaEma == old(lambdaEma) && lastArrival == old(lastArrival)
      ensures peak == old(peak) && arrivals == old(arrivals)
    {
      if inflight > 0 {
        inflight := inflight - 1;
      }
      service.Update(serviceTime);
    }

    function Mu(): (mu: real)
      reads this, service
    {
      if service.count == 0 || service.mean <= 0.0 then 1.0 else 1.0 / service.mean
    }

    /** The estimated rate is completions per second of service, once any service has been seen. */
    lemma MuIsThroughput()
      requires Valid()
      ensures Mu() > 0.0
      ensures Mu() == if Sum(service.seen) > 0.0 then |service.seen| as real / Sum(service.seen) else 1.0
    {
      var n, sum := |service.seen| as real, Sum(service.seen);
      SumNotNegative(service.seen);
      if service.mean > 0.0 && service.count > 0 {
        MulPositive(service.mean, n);
        CrossMultiply(0.0, 1.0, 1.0, service.mean);
        CrossMultiply(1.0, service.mean, n, sum);
        CrossMultiply(n, sum, 1.0, service.mean);
      } else if service.count > 0 {
        MulLe(service.mean, 0.0, n);
      }
    }

    /** The mean service time in whole milliseconds, between one and a minute's worth. */
    function RetryMs(): (ms: nat)
      requires Mu() > 0.0
      reads this, service
      ensures 1 <= ms <= 60_000
      ensures 1.0 <= 1_000.0 / Mu() ==> ms as real <= 1_000.0 / Mu()
      ensures 1_000.0 / Mu() < 60_000.0 ==> 1_000.0 / Mu() < ms as real + 1.0
    {
      Clamp(1_000.0 / Mu(), 1.0, 60_000.0).Floor
    }

    /** The delay asked for is the mean service time seen. */
    lemma DelayIsMeanService()
      requires Valid()
      ensures Mu() > 0.0 && RightDelay(RetryMs(), MeanService(service.seen))
    {
      var n, sum := |service.seen| as real, Sum(service.seen);
      MuIsThroughput();
      if sum > 0.0 {
        assert (sum / n) * Mu() == 1.0 by { Reciprocal(sum, n); }
        TimesReciprocal(sum / n, Mu());
      }
    }

    /** Admits exactly the rates up to the critical one; a refused caller is asked back only below the floor. */
    method Decide() returns (decision: Decision)
      requires Valid()
      ensures config.servers > 0 ==>
                (decision.Admit? <==>
                 || config.targetUtilization >= NEARLY_ONE
                 || (0.0 <= config.targetUtilization
                     && lambdaEma <= LambdaCritical(Mu(), config.servers, config.targetUtilization)))
      ensures config.servers == 0 ==> (decision.Admit? <==> config.targetUtilization >= 1.0)
      ensures !decision.Admit? ==> (decision.Defer? <==> inflight < config.minStableConcurrency)
      ensures decision.Defer? ==> RightDelay(decision.retryAfterMs, MeanService(service.seen))
    {
      MuIsThroughput();
      if config.servers > 0 {
        WithinTarget(lambdaEma, Mu(), config.servers, config.targetUtilization);
      }
      var rho := Utilization(lambdaEma, Mu(), config.servers);
      if rho <= config.targetUtilization {
        return Admit;
      }
      if inflight < config.minStableConcurrency {
        DelayIsMeanService();
        return Defer(RetryMs());
      }
      return Reject;
    }
  }

  /** Two arrivals a tenth of a second apart, before any completion: refused with two of five in flight. */
  method RefusesBelowFloor() returns (inflight: nat, floor: nat, decision: Decision)
    ensures inflight == 2 && floor == 5 && decision.Defer?
  {
    var controller := new Controller(Config(1, 0.8, 5));
    controller.RecordArrival(0.0, 0.5);
    controller.RecordArrival(0.1, 0.5);
    FasterThanServed();
    controller.MuIsThroughput();
    inflight, floor := controller.inflight, controller.config.minStableConcurrency;
    decision := controller.Decide();
  }

  /** Half the weight on a rate of ten is five per second, against a default rate of one. */
  lemma FasterThanServed()
    ensures Averaged(0.5, RateOf(0.1 - 0.0), 0.0) == 5.0 && LambdaCritical(1.0, 1, 0.8) == 0.8
  {
    CrossMultiply(1.0, 0.1, 10.0, 1.0);
  }
}
