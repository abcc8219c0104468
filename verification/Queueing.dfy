/**
 The multi-server queueing formulas of crates/apohara-context-primitives/src/queueing.rs,
 over exact reals.
 */
module Queueing {

  // ---- real arithmetic -------------------------------------------------------------------

  lemma MulLe(a: real, b: real, c: real)
    requires a <= b && c >= 0.0
    ensures a * c <= b * c
  {
  }

  lemma MulLess(a: real, b: real, c: real)
    requires a < b && c > 0.0
    ensures a * c < b * c
  {
  }

  lemma MulPositive(a: real, b: real)
    requires a > 0.0 && b > 0.0
    ensures a * b > 0.0
  {
  }

  lemma Associate(a: real, b: real, c: real)
    ensures a * (b * c) == (a * b) * c
  {
  }

  lemma Commute(a: real, b: real)
    ensures a * b == b * a
  {
  }

  lemma QuotientTimes(a: real, b: real)
    requires b != 0.0
    ensures (a / b) * b == a
  {
  }

  /** Comparing fractions by cross-multiplying. */
  lemma CrossMultiply(a: real, b: real, c: real, d: real)
    requires b > 0.0 && d > 0.0
    ensures a * d <= c * b <==> a / b <= c / d
    ensures a * d < c * b <==> a / b < c / d
  {
    var p, q := a / b, c / d;
    MulPositive(b, d);
    assert a * d == p * (b * d) by { assert a == p * b; }
    assert c * b == q * (b * d) by { assert c == q * d; }
    if p < q {
      MulLess(p, q, b * d);
    } else if q < p {
      MulLess(q, p, b * d);
    }
  }

  // ---- Erlang C ----------------------------------------------------------------------------

  ghost function Power(a: real, k: nat): real {
    if k == 0 then 1.0 else Power(a, k - 1) * a
  }

  ghost function Factorial(k: nat): (f: nat)
    ensures f >= 1
  {
    if k == 0 then 1 else
      var f := Factorial(k - 1);
      FactorialGrows(k, f);
      k * f
  }

  lemma FactorialGrows(k: nat, f: nat)
    requires k >= 1 && f >= 1
    ensures k * f >= 1
  {
  }

  /** `a^k / k!`. */
  ghost function Term(a: real, k: nat): real {
    Power(a, k) / (Factorial(k) as real)
  }

  /** The sum of the first `c` terms. */
  ghost function Terms(a: real, c: nat): real {
    if c == 0 then 0.0 else Terms(a, c - 1) + Term(a, c - 1)
  }

  /** The offered load, in Erlangs. */
  function Offered(c: nat, rho: real): real {
    c as real * rho
  }

  /** `(t/d) / (s + t/d)`: the weight `t/d` of the states where every server is busy, among all states. */
  ghost function Share(t: real, s: real, d: real): (share: real)
    requires t > 0.0 && s > 0.0 && d > 0.0
  {
    CrossMultiply(0.0, 1.0, t, d);
    (t / d) / (s + t / d)
  }

  /** The textbook probability of queueing with `c` servers, each utilized `rho`. */
  ghost function ErlangFormula(c: nat, rho: real): real
    requires c > 0 && 0.0 < rho < 1.0
  {
    MulPositive(c as real, rho);
    TermsPositive(Offered(c, rho), c);
    Share(Term(Offered(c, rho), c), Terms(Offered(c, rho), c), 1.0 - rho)
  }

  /** With the values the code returns outside the formula's range. */
  ghost function ErlangC(c: nat, rho: real): real {
    if c == 0 || rho >= 1.0 then 1.0
    else if rho <= 0.0 then 0.0
    else ErlangFormula(c, rho)
  }

  lemma TermStep(a: real, k: nat)
    requires k >= 1
    ensures Term(a, k) == Term(a, k - 1) * (a / k as real)
  {
    var f, p := Factorial(k - 1) as real, Power(a, k - 1);
    assert Factorial(k) as real == k as real * f;
    FractionProduct(p, f, a, k as real);
  }

  lemma FractionProduct(p: real, f: real, a: real, k: real)
    requires f > 0.0 && k > 0.0
    ensures k * f != 0.0 && (p * a) / (k * f) == (p / f) * (a / k)
  {
    MulPositive(k, f);
    var x, y := p / f, a / k;
    assert x * f == p && y * k == a;
    assert p * a == (x * y) * (k * f);
  }

  lemma {:induction false} TermPositive(a: real, k: nat)
    requires a > 0.0
    ensures Term(a, k) > 0.0
  {
    if k == 0 {
    } else {
      TermPositive(a, k - 1);
      TermStep(a, k);
      CrossMultiply(0.0, 1.0, a, k as real);
      MulPositive(Term(a, k - 1), a / k as real);
    }
  }

  lemma {:induction false} TermsPositive(a: real, c: nat)
    requires a > 0.0 && c > 0
    ensures Terms(a, c) >= Term(a, c - 1) > 0.0
    ensures Term(a, c) > 0.0
  {
    TermPositive(a, c - 1);
    TermPositive(a, c);
    if c > 1 {
      TermsPositive(a, c - 1);
    }
  }

  lemma ErlangParts(c: nat, rho: real, term: real, sum: real)
    requires c > 0 && 0.0 < rho < 1.0
    requires term == Term(Offered(c, rho), c) && sum == Terms(Offered(c, rho), c)
    ensures term / (1.0 - rho) > 0.0 && sum > 0.0
    ensures ErlangC(c, rho) == (term / (1.0 - rho)) / (sum + term / (1.0 - rho))
  {
    MulPositive(c as real, rho);
    TermsPositive(Offered(c, rho), c);
    CrossMultiply(0.0, 1.0, term, 1.0 - rho);
  }

  /** The loop multiplies its way along the terms and never forms a factorial. */
  method ComputeErlangC(c: nat, rho: real) returns (p: real)
    ensures p == ErlangC(c, rho)
  {
    if c == 0 || rho >= 1.0 {
      return 1.0;
    }
    if rho <= 0.0 {
      return 0.0;
    }
    var a := Offered(c, rho);
    var term, sum := 1.0, 1.0;
    assert Terms(a, 1) == Terms(a, 0) + Term(a, 0);
    for k := 1 to c
      invariant term == Term(a, k - 1) && sum == Terms(a, k)
    {
      TermStep(a, k);
      term := term * (a / k as real);
      sum := sum + term;
    }
    TermStep(a, c);
    term := term * (a / c as real);
    ErlangParts(c, rho, term, sum);
    var numerator := term / (1.0 - rho);
    p := numerator / (sum + numerator);
  }

  lemma LoadPerServer(c: nat, rho: real)
    requires c > 0
    ensures Offered(c, rho) / c as real == rho
  {
    CrossMultiply(Offered(c, rho), c as real, rho, 1.0);
  }

  /** Each server's share of the load is the ratio of the last two terms. */
  lemma LastTerm(c: nat, rho: real)
    requires c > 0
    ensures Term(Offered(c, rho), c) == Term(Offered(c, rho), c - 1) * rho
  {
    TermStep(Offered(c, rho), c);
    LoadPerServer(c, rho);
  }

  lemma FormulaParts(c: nat, rho: real) returns (t: real, s: real)
    requires c > 0 && 0.0 < rho < 1.0
    ensures t == Term(Offered(c, rho), c) > 0.0 && s == Terms(Offered(c, rho), c) > 0.0
    ensures ErlangFormula(c, rho) == Share(t, s, 1.0 - rho)
  {
    MulPositive(c as real, rho);
    TermsPositive(Offered(c, rho), c);
    t, s := Term(Offered(c, rho), c), Terms(Offered(c, rho), c);
  }

  lemma ShareBounds(t: real, s: real, d: real)
    requires t > 0.0 && s > 0.0 && d > 0.0
    ensures 0.0 < Share(t, s, d) < 1.0
  {
    CrossMultiply(0.0, 1.0, t, d);
    var x := t / d;
    CrossMultiply(0.0, 1.0, x, s + x);
    CrossMultiply(x, s + x, 1.0, 1.0);
  }

  lemma ShareAtMost(t: real, u: real, s: real, rho: real)
    requires 0.0 < u <= s && 0.0 < rho < 1.0 && t > 0.0 && t == u * rho
    ensures Share(t, s, 1.0 - rho) <= rho
    ensures u == s ==> Share(t, s, 1.0 - rho) == rho
  {
    var d := 1.0 - rho;
    CrossMultiply(0.0, 1.0, t, d);
    var x := t / d;
    QuotientTimes(t, d);
    MulLe(u, s, rho);
    assert x * d == x - x * rho;
    assert rho * (s + x) == s * rho + x * rho;
    CrossMultiply(x, s + x, rho, 1.0);
    CrossMultiply(rho, 1.0, x, s + x);
  }

  /** The closed form for two servers. */
  lemma ErlangAtTwoServers(rho: real)
    requires 0.0 <= rho <= 1.0
    ensures ErlangC(2, rho) * (1.0 + rho) == 2.0 * rho * rho
  {
    if 0.0 < rho < 1.0 {
      var t, s := FormulaParts(2, rho);
      var a := Offered(2, rho);
      assert Term(a, 0) == 1.0;
      TermStep(a, 1);
      TermStep(a, 2);
      assert Terms(a, 2) == Terms(a, 1) + Term(a, 1) && Terms(a, 1) == Terms(a, 0) + Term(a, 0);
      LastTerm(2, rho);
      TwoServerShare(rho, t, s);
    }
  }

  lemma TwoServerShare(rho: real, t: real, s: real)
    requires 0.0 < rho < 1.0 && t > 0.0 && s == 1.0 + 2.0 * rho && t == 2.0 * rho * rho
    ensures Share(t, s, 1.0 - rho) * (1.0 + rho) == 2.0 * rho * rho
  {
    var d := 1.0 - rho;
    CrossMultiply(0.0, 1.0, t, d);
    QuotientTimes(t, d);
    var x := t / d;
    assert x * d == t;
    QuotientTimes(x, s + x);
    var share := Share(t, s, d);
    assert share * (s + x) == x;
    assert (s + x) * d == s * d + t;
    assert s * d + t == 1.0 + rho;
    Associate(share, s + x, d);
  }

  /** Nobody waits for idle servers, and everybody for saturated or missing ones. */
  lemma ErlangAtTheEnds(c: nat, rho: real)
    ensures c > 0 ==> (ErlangC(c, rho) == 0.0 <==> rho <= 0.0)
    ensures ErlangC(c, rho) == 1.0 <==> c == 0 || rho >= 1.0
  {
    if c > 0 && 0.0 < rho < 1.0 {
      var t, s := FormulaParts(c, rho);
      ShareBounds(t, s, 1.0 - rho);
    }
  }

  lemma ErlangBounds(c: nat, rho: real)
    ensures 0.0 <= ErlangC(c, rho) <= 1.0
  {
    if c > 0 && 0.0 < rho < 1.0 {
      var t, s := FormulaParts(c, rho);
      ShareBounds(t, s, 1.0 - rho);
    }
  }

  /** Queueing is never likelier than a server is busy, and with one server exactly as likely. */
  lemma ErlangAtMostRho(c: nat, rho: real)
    requires c > 0 && 0.0 <= rho <= 1.0
    ensures ErlangC(c, rho) <= rho
    ensures c == 1 ==> ErlangC(c, rho) == rho
  {
    if 0.0 < rho < 1.0 {
      var t, s := FormulaParts(c, rho);
      var a := Offered(c, rho);
      MulPositive(c as real, rho);
      TermsPositive(a, c);
      LastTerm(c, rho);
      ShareAtMost(t, Term(a, c - 1), s, rho);
      assert c == 1 ==> s == Terms(a, 0) + Term(a, 0);
    }
  }

  /** Scaling the factors of two products by `p <= q` keeps the products in order. */
  lemma RatioStep(u: real, v: real, v': real, p: real, x: real, y: real, y': real, q: real)
    requires x > 0.0 && y > 0.0 && 0.0 < p <= q && v' == v * p && y' == y * q
    requires u * v <= x * y
    ensures u * v' <= x * y'
  {
    Associate(u, v, p);
    Associate(x, y, q);
    MulLe(u * v, x * y, p);
    MulPositive(x, y);
    MulLe(p, q, x * y);
    Commute(p, x * y);
    Commute(q, x * y);
  }

  lemma StepFactor(a: real, b: real, j: nat)
    requires 0.0 < a <= b && j > 0
    ensures 0.0 < a / j as real <= b / j as real
  {
    MulLe(a, b, j as real);
    CrossMultiply(a, j as real, b, j as real);
    CrossMultiply(0.0, 1.0, a, j as real);
  }

  /** Terms of higher order grow faster with the load. */
  lemma {:induction false} TermsRatio(a: real, b: real, k: nat, j: nat)
    requires 0.0 < a <= b && k <= j
    ensures Term(b, k) * Term(a, j) <= Term(a, k) * Term(b, j)
    decreases j
  {
    if j == k {
      Commute(Term(a, k), Term(b, k));
    } else {
      TermsRatio(a, b, k, j - 1);
      TermStep(a, j);
      TermStep(b, j);
      TermPositive(a, k);
      TermPositive(b, j - 1);
      StepFactor(a, b, j);
      RatioStep(Term(b, k), Term(a, j - 1), Term(a, j), a / j as real, Term(a, k), Term(b, j - 1), Term(b, j),
          b / j as real);
    }
  }

  lemma SumTimes(sum: real, s: real, t: real, y: real)
    requires sum == s + t
    ensures sum * y == s * y + t * y
  {
  }

  lemma {:induction false} SumRatio(a: real, b: real, n: nat, c: nat)
    requires 0.0 < a <= b && n <= c
    ensures Terms(b, n) * Term(a, c) <= Terms(a, n) * Term(b, c)
    decreases n
  {
    if n > 0 {
      SumRatio(a, b, n - 1, c);
      TermsRatio(a, b, n - 1, c);
      SumTimes(Terms(b, n), Terms(b, n - 1), Term(b, n - 1), Term(a, c));
      SumTimes(Terms(a, n), Terms(a, n - 1), Term(a, n - 1), Term(b, c));
    }
  }

  /** More load against less slack is a larger share. */
  lemma LargerShare(t1: real, s1: real, d1: real, t2: real, s2: real, d2: real)
    requires t1 > 0.0 && s1 > 0.0 && d1 > 0.0 && t2 > 0.0 && s2 > 0.0 && d2 > 0.0
    requires s2 * t1 <= s1 * t2 && d2 < d1
    ensures Share(t1, s1, d1) < Share(t2, s2, d2)
  {
    CrossMultiply(0.0, 1.0, t1, d1);
    CrossMultiply(0.0, 1.0, t2, d2);
    QuotientTimes(t1, d1);
    QuotientTimes(t2, d2);
    LargerFraction(t1, s1, d1, t1 / d1, t2, s2, d2, t2 / d2);
  }

  lemma LargerFraction(t1: real, s1: real, d1: real, x1: real, t2: real, s2: real, d2: real, x2: real)
    requires x1 > 0.0 && s1 > 0.0 && x2 > 0.0 && s2 > 0.0 && 0.0 < d2 < d1
    requires x1 * d1 == t1 && x2 * d2 == t2 && s2 * t1 <= s1 * t2
    ensures x1 / (s1 + x1) < x2 / (s2 + x2)
  {
    LargerCross(t1, s1, d1, x1, t2, s2, d2, x2);
    AddCross(x1, s1, x2, s2);
    CrossMultiply(x1, s1 + x1, x2, s2 + x2);
  }

  /** Were it not so, `s2 t1 = (x1 s2) d1 >= (x2 s1) d1 > (x2 s1) d2 = s1 t2`. */
  lemma LargerCross(t1: real, s1: real, d1: real, x1: real, t2: real, s2: real, d2: real, x2: real)
    requires x1 > 0.0 && s1 > 0.0 && x2 > 0.0 && s2 > 0.0 && 0.0 < d2 < d1
    requires x1 * d1 == t1 && x2 * d2 == t2 && s2 * t1 <= s1 * t2
    ensures x1 * s2 < x2 * s1
  {
    Regroup(s2, x1, d1, t1);
    Regroup(s1, x2, d2, t2);
    MulPositive(x2, s1);
    MulLess(d2, d1, x2 * s1);
    Commute(d1, x2 * s1);
    Commute(d2, x2 * s1);
    if x1 * s2 >= x2 * s1 {
      MulLe(x2 * s1, x1 * s2, d1);
    }
  }

  lemma Regroup(s: real, x: real, d: real, t: real)
    requires x * d == t
    ensures s * t == (x * s) * d
  {
    Associate(s, x, d);
    Commute(s, x);
  }

  lemma AddCross(x1: real, s1: real, x2: real, s2: real)
    requires x1 * s2 < x2 * s1
    ensures x1 * (s2 + x2) < x2 * (s1 + x1)
  {
    assert x1 * (s2 + x2) == x1 * s2 + x1 * x2;
    assert x2 * (s1 + x1) == x2 * s1 + x1 * x2;
  }

  lemma ErlangStrictlyMonotone(c: nat, rho1: real, rho2: real)
    requires c > 0 && 0.0 < rho1 < rho2 < 1.0
    ensures ErlangFormula(c, rho1) < ErlangFormula(c, rho2)
  {
    var t1, s1 := FormulaParts(c, rho1);
    var t2, s2 := FormulaParts(c, rho2);
    OfferedMore(c, rho1, rho2);
    SumRatio(Offered(c, rho1), Offered(c, rho2), c, c);
    LargerShare(t1, s1, 1.0 - rho1, t2, s2, 1.0 - rho2);
  }

  lemma OfferedMore(c: nat, rho1: real, rho2: real)
    requires c > 0 && 0.0 < rho1 < rho2
    ensures 0.0 < Offered(c, rho1) < Offered(c, rho2)
  {
    MulPositive(c as real, rho1);
    MulLess(rho1, rho2, c as real);
  }

  /** Higher utilization means more queueing: strictly between the extremes, weakly everywhere. */
  lemma ErlangMonotone(c: nat, rho1: real, rho2: real)
    requires rho1 <= rho2
    ensures ErlangC(c, rho1) <= ErlangC(c, rho2)
    ensures c > 0 && 0.0 < rho1 < rho2 < 1.0 ==> ErlangC(c, rho1) < ErlangC(c, rho2)
  {
    ErlangBounds(c, rho1);
    ErlangBounds(c, rho2);
    if c > 0 && 0.0 < rho1 < rho2 < 1.0 {
      ErlangStrictlyMonotone(c, rho1, rho2);
    }
  }

  // ---- waiting times -----------------------------------------------------------------------

  datatype Wait = Forever | Finite(time: real)

  ghost predicate NoLonger(a: Wait, b: Wait) {
    b.Forever? || (a.Finite? && a.time <= b.time)
  }

  /** The total service rate of `c` servers. */
  function Capacity(mu: real, c: nat): real {
    mu * c as real
  }

  /** `P_wait / (c mu (1 - rho))`, and without end once the servers cannot keep up. */
  ghost function MmcWaitTime(rate: real, mu: real, c: nat): Wait {
    if mu <= 0.0 || c == 0 then Forever
    else
      MulPositive(mu, c as real);
      var rho := rate / Capacity(mu, c);
      if rho >= 1.0 then Forever
      else
        MulPositive(Capacity(mu, c), 1.0 - rho);
        Finite(ErlangC(c, rho) / (Capacity(mu, c) * (1.0 - rho)))
  }

  /** The wait has an end exactly while the servers can keep up. */
  lemma WaitEnds(rate: real, mu: real, c: nat)
    ensures MmcWaitTime(rate, mu, c).Finite? <==> mu > 0.0 && c > 0 && rate < Capacity(mu, c)
  {
    if mu > 0.0 && c > 0 {
      MulPositive(mu, c as real);
      Slack(rate, Capacity(mu, c));
    }
  }

  /** Times the capacity to spare, it is the probability of having to wait at all. */
  lemma WaitTimesSlack(rate: real, mu: real, c: nat)
    requires mu > 0.0 && c > 0 && rate < Capacity(mu, c)
    ensures MmcWaitTime(rate, mu, c).Finite?
    ensures MmcWaitTime(rate, mu, c).time * (Capacity(mu, c) - rate) == ErlangC(c, rate / Capacity(mu, c))
  {
    MulPositive(mu, c as real);
    Slack(rate, Capacity(mu, c));
    QuotientTimes(ErlangC(c, rate / Capacity(mu, c)), Capacity(mu, c) - rate);
  }

  /** For one server it is the utilization over the capacity to spare. */
  lemma WaitAtOneServer(rate: real, mu: real)
    requires 0.0 <= rate < mu
    ensures MmcWaitTime(rate, mu, 1) == Finite((rate / mu) / (mu - rate))
  {
    assert Capacity(mu, 1) == mu;
    Slack(rate, mu);
    WaitTimesSlack(rate, mu, 1);
    ErlangAtMostRho(1, rate / mu);
    var wait, rho, slack := MmcWaitTime(rate, mu, 1).time, rate / mu, mu - rate;
    QuotientTimes(rho, slack);
    SameProduct(wait, rho / slack, slack);
  }

  lemma SameProduct(x: real, y: real, d: real)
    requires d > 0.0 && x * d == y * d
    ensures x == y
  {
    if x < y { MulLess(x, y, d); }
    if y < x { MulLess(y, x, d); }
  }

  /** Arrivals and services `k` times as fast divide the wait by `k`. */
  lemma FasterClock(rate: real, mu: real, c: nat, k: real)
    requires k > 0.0
    ensures MmcWaitTime(rate * k, mu * k, c).Finite? <==> MmcWaitTime(rate, mu, c).Finite?
    ensures MmcWaitTime(rate, mu, c).Finite? ==>
              MmcWaitTime(rate * k, mu * k, c).time * k == MmcWaitTime(rate, mu, c).time
  {
    ScaledSign(mu, k);
    ScaledCapacity(mu, c, k);
    ScaledLess(rate, Capacity(mu, c), k);
    WaitScales(rate, rate * k, mu, mu * k, c, k);
  }

  lemma WaitScales(rate: real, rate': real, mu: real, mu': real, c: nat, k: real)
    requires k > 0.0 && rate' == rate * k && (mu' > 0.0 <==> mu > 0.0)
    requires Capacity(mu', c) == Capacity(mu, c) * k
    requires rate' < Capacity(mu', c) <==> rate < Capacity(mu, c)
    ensures MmcWaitTime(rate', mu', c).Finite? <==> MmcWaitTime(rate, mu, c).Finite?
    ensures MmcWaitTime(rate, mu, c).Finite? ==> MmcWaitTime(rate', mu', c).time * k == MmcWaitTime(rate, mu, c).time
  {
    WaitEnds(rate, mu, c);
    WaitEnds(rate', mu', c);
    if mu > 0.0 && c > 0 && rate < Capacity(mu, c) {
      MulPositive(mu, c as real);
      SameRatio(rate, rate', Capacity(mu, c), Capacity(mu', c), k);
      WaitTimesSlack(rate, mu, c);
      WaitTimesSlack(rate', mu', c);
      ScaledWait(MmcWaitTime(rate, mu, c).time, MmcWaitTime(rate', mu', c).time, rate, rate', Capacity(mu, c),
                 Capacity(mu', c), k);
    }
  }

  lemma ScaledSign(mu: real, k: real)
    requires k > 0.0
    ensures mu * k > 0.0 <==> mu > 0.0
  {
    ScaledLess(0.0, mu, k);
  }

  lemma ScaledLess(a: real, b: real, k: real)
    requires k > 0.0
    ensures a * k < b * k <==> a < b
  {
    if a < b {
      MulLess(a, b, k);
    } else {
      MulLe(b, a, k);
    }
  }

  lemma ScaledCapacity(mu: real, c: nat, k: real)
    ensures Capacity(mu * k, c) == Capacity(mu, c) * k
  {
    Associate(mu, k, c as real);
    Commute(k, c as real);
    Associate(mu, c as real, k);
  }

  lemma SameRatio(rate: real, rate': real, capacity: real, capacity': real, k: real)
    requires capacity > 0.0 && k > 0.0 && rate' == rate * k && capacity' == capacity * k
    ensures capacity' > 0.0 && rate' / capacity' == rate / capacity
  {
    MulPositive(capacity, k);
    QuotientTimes(rate, capacity);
    var rho := rate / capacity;
    Associate(rho, capacity, k);
    QuotientTimes(rate', capacity');
    SameProduct(rho, rate' / capacity', capacity');
  }

  lemma ScaledWait(w: real, w': real, rate: real, rate': real, capacity: real, capacity': real, k: real)
    requires rate < capacity && k > 0.0 && rate' == rate * k && capacity' == capacity * k
    requires w' * (capacity' - rate') == w * (capacity - rate)
    ensures w' * k == w
  {
    var slack, slack' := capacity - rate, capacity' - rate';
    assert slack' == k * slack;
    Associate(w', k, slack);
    SameProduct(w' * k, w, slack);
  }

  lemma SmallerOverSame(p: real, q: real, d: real)
    requires p <= q && d > 0.0
    ensures p / d <= q / d
  {
    MulLe(p, q, d);
    CrossMultiply(p, d, q, d);
  }

  /** `c` servers never keep work waiting longer than one server of the same total capacity. */
  lemma PoolBeatsOneFastServer(rate: real, mu: real, c: nat)
    requires mu > 0.0 && c > 0
    ensures NoLonger(MmcWaitTime(rate, mu, c), MmcWaitTime(rate, Capacity(mu, c), 1))
  {
    MulPositive(mu, c as real);
    var capacity := Capacity(mu, c);
    assert Capacity(capacity, 1) == capacity;
    var rho := rate / capacity;
    if rho < 1.0 {
      MulPositive(capacity, 1.0 - rho);
      if rho > 0.0 {
        ErlangAtMostRho(c, rho);
        ErlangAtMostRho(1, rho);
      }
      SmallerOverSame(ErlangC(c, rho), ErlangC(1, rho), capacity * (1.0 - rho));
    }
  }

  /** The capacity left over. */
  lemma Slack(rate: real, capacity: real)
    requires capacity > 0.0
    ensures rate / capacity < 1.0 <==> rate < capacity
    ensures rate / capacity > 0.0 <==> rate > 0.0
    ensures (rate / capacity) * capacity == rate
    ensures capacity * (1.0 - rate / capacity) == capacity - rate
  {
    CrossMultiply(rate, capacity, 1.0, 1.0);
    CrossMultiply(1.0, 1.0, rate, capacity);
    CrossMultiply(0.0, 1.0, rate, capacity);
    QuotientTimes(rate, capacity);
    var rho := rate / capacity;
    assert capacity * (1.0 - rho) == capacity - rho * capacity;
  }

  /** One more server, at the same arrival and service rates, never lengthens the wait. */
  lemma AddingServerHelps(rate: real, mu: real, c: nat)
    requires mu > 0.0 && c > 0
    ensures NoLonger(MmcWaitTime(rate, mu, c + 1), MmcWaitTime(rate, mu, c))
  {
    MulPositive(mu, c as real);
    MulPositive(mu, (c + 1) as real);
    var few, many := Capacity(mu, c), Capacity(mu, c + 1);
    assert few < many;
    var rho, rho' := rate / few, rate / many;
    Slack(rate, few);
    Slack(rate, many);
    if rate < few {
      if rate > 0.0 {
        AddingServerQueuesLess(c, rho, rho', rate, mu);
      }
      ErlangBounds(c, rho);
      ErlangBounds(c + 1, rho');
      SmallerOverLarger(ErlangC(c + 1, rho'), many - rate, ErlangC(c, rho), few - rate);
    }
  }

  /** The more arrives, the longer the wait; strictly so while something arrives and the servers keep up. */
  lemma MoreArrivalsWaitLonger(less: real, more: real, mu: real, c: nat)
    requires less <= more
    ensures NoLonger(MmcWaitTime(less, mu, c), MmcWaitTime(more, mu, c))
    ensures mu > 0.0 && c > 0 && 0.0 < less < more < Capacity(mu, c) ==>
              !NoLonger(MmcWaitTime(more, mu, c), MmcWaitTime(less, mu, c))
  {
    if mu > 0.0 && c > 0 {
      MulPositive(mu, c as real);
      var capacity := Capacity(mu, c);
      Slack(less, capacity);
      Slack(more, capacity);
      if more < capacity {
        var rho, rho' := less / capacity, more / capacity;
        CrossMultiply(less, capacity, more, capacity);
        MulLe(less, more, capacity);
        ErlangMonotone(c, rho, rho');
        ErlangBounds(c, rho);
        SmallerOverLarger(ErlangC(c, rho), capacity - less, ErlangC(c, rho'), capacity - more);
        if 0.0 < less < more {
          MulLess(less, more, capacity);
          StrictlySmallerOver(ErlangC(c, rho), capacity - less, ErlangC(c, rho'), capacity - more);
        }
      }
    }
  }

  lemma StrictlySmallerOver(p: real, d: real, q: real, e: real)
    requires 0.0 <= p < q && 0.0 < e <= d
    ensures p / d < q / e
  {
    SmallerOverLarger(p, d, p, e);
    MulLess(p, q, e);
    CrossMultiply(p, e, q, e);
  }

  lemma SmallerOverLarger(p: real, d: real, q: real, e: real)
    requires 0.0 <= p <= q && 0.0 < e <= d
    ensures p / d <= q / e
  {
    MulLe(p, q, e);
    MulLe(e, d, q);
    Commute(e, q);
    Commute(d, q);
    CrossMultiply(p, d, q, e);
  }

  lemma SameOffered(c: nat, rho: real, c': nat, rho': real, rate: real, mu: real)
    requires mu > 0.0 && c > 0 && c' > 0
    requires rho * Capacity(mu, c) == rate == rho' * Capacity(mu, c')
    ensures Offered(c, rho) == Offered(c', rho')
  {
    Turn(rho, mu, c as real);
    Turn(rho', mu, c' as real);
    var x, y := Offered(c, rho), Offered(c', rho');
    if x < y { MulLess(x, y, mu); }
    if y < x { MulLess(y, x, mu); }
  }

  lemma Turn(rho: real, mu: real, c: real)
    ensures (c * rho) * mu == rho * (mu * c)
  {
    Commute(c, rho);
    Associate(rho, c, mu);
    Commute(c, mu);
  }

  /** At the same offered load, one more server makes queueing less likely. */
  lemma AddingServerQueuesLess(c: nat, rho: real, rho': real, rate: real, mu: real)
    requires mu > 0.0 && c > 0 && 0.0 < rho < 1.0 && 0.0 < rho' < 1.0
    requires rho * Capacity(mu, c) == rate == rho' * Capacity(mu, c + 1)
    ensures ErlangC(c + 1, rho') <= ErlangC(c, rho)
  {
    SameOffered(c, rho, c + 1, rho', rate, mu);
    var t, s := FormulaParts(c, rho);
    var t', s' := FormulaParts(c + 1, rho');
    LessPerServer(c, rho, rho');
    LastTerm(c + 1, rho');
    SmallerNextTerm(t, t', s, rho');
    LargerShare(t', s', 1.0 - rho', t, s, 1.0 - rho);
  }

  lemma SmallerNextTerm(t: real, t': real, s: real, rho': real)
    requires t > 0.0 && t' > 0.0 && s > 0.0 && 0.0 < rho' < 1.0 && t' == t * rho'
    ensures s * t' <= (s + t) * t
  {
    MulLess(rho', 1.0, t);
    MulLe(t', t, s);
    MulPositive(t, t);
    assert (s + t) * t == t * s + t * t;
    Commute(t', s);
  }

  lemma LessPerServer(c: nat, rho: real, rho': real)
    requires c > 0 && 0.0 < rho < 1.0 && 0.0 < rho' < 1.0
    requires Offered(c, rho) == Offered(c + 1, rho')
    ensures rho' < rho
  {
    assert (c + 1) as real * rho == Offered(c, rho) + rho;
    if rho' >= rho {
      MulLe(rho, rho', (c + 1) as real);
    }
  }
}
