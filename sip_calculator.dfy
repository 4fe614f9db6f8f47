/**
 * The future-value computation of a systematic investment plan (SIP): a fixed
 * yearly contribution, compounded once a year, each contribution made at the
 * start of its year (annuity-due). All quantities are exact reals.
 */
module SipCalculator {

  /** `x ** n` for a natural exponent, the power the loop raises the growth factor to. */
  function Pow(x: real, n: nat): real
  {
    if n == 0 then 1.0 else x * Pow(x, n - 1)
  }

  /** The yearly growth factor `1 + annual_return_rate / 100`. */
  function Growth(annualReturnRate: real): real
  {
    1.0 + annualReturnRate / 100.0
  }

  /**
   * The value of n contributions of p: the contribution of year y grows for
   * n - y + 1 years, so counting by years of growth k = n - y + 1 the sum is
   * p * g^1 + p * g^2 + ... + p * g^n.
   */
  function Accumulated(p: real, g: real, n: nat): real
  {
    if n == 0 then 0.0 else Accumulated(p, g, n - 1) + p * Pow(g, n)
  }

  /** The reference value of `sip_calculator`: an empty range of years gives 0. */
  function FutureValue(yearlyInvestment: real, annualReturnRate: real, years: int): real
  {
    if years <= 0 then 0.0 else Accumulated(yearlyInvestment, Growth(annualReturnRate), years)
  }

  /**
   * `sip_calculator`: for year = 1 .. years, add the contribution compounded
   * for the years - year + 1 years left, including its own.
   */
  method SipCalculator(yearlyInvestment: real, annualReturnRate: real, years: int)
    returns (futureValue: real)
    ensures futureValue == FutureValue(yearlyInvestment, annualReturnRate, years)
    ensures years <= 0 ==> futureValue == 0.0
  {
    var annualRate := annualReturnRate / 100.0;
    futureValue := 0.0;
    var year := 1;
    while year <= years
      invariant years <= 0 ==> year == 1 && futureValue == 0.0
      invariant years >= 1 ==> 1 <= year <= years + 1
      invariant years >= 1 ==>
        futureValue == Accumulated(yearlyInvestment, 1.0 + annualRate, years)
                     - Accumulated(yearlyInvestment, 1.0 + annualRate, years - year + 1)
    {
      futureValue := futureValue + yearlyInvestment * Pow(1.0 + annualRate, years - year + 1);
      year := year + 1;
    }
  }

  // ---------------------------------------------------------------------------
  // Powers of the growth factor

  lemma {:induction false} PowOfOne(n: nat)
    ensures Pow(1.0, n) == 1.0
  {
    if n > 0 {
      PowOfOne(n - 1);
    }
  }

  lemma {:induction false} PowPositive(x: real, n: nat)
    requires x > 0.0
    ensures Pow(x, n) > 0.0
  {
    if n > 0 {
      PowPositive(x, n - 1);
    }
  }

  /**
   * Products of ordered non-negative factors are ordered, strictly when the
   * larger factor is positive. The intermediate asserts are kept for solver
   * stability across random seeds.
   */
  lemma ProductMonotone(x: real, y: real, a: real, b: real)
    requires 0.0 <= x <= y && 0.0 <= a <= b
    ensures 0.0 <= x * a <= y * b
    ensures x < y && b > 0.0 ==> x * a < y * b
  {
    assert x * a <= x * b;
    assert x * b <= y * b;
    if x < y && b > 0.0 {
      assert x * b < y * b;
    }
  }

  /** Raising to a fixed power keeps the order of non-negative bases, strictly for n >= 1. */
  lemma {:induction false} PowMonotoneInBase(x: real, y: real, n: nat)
    requires 0.0 <= x <= y
    ensures 0.0 <= Pow(x, n) <= Pow(y, n)
    ensures x < y && n >= 1 ==> Pow(x, n) < Pow(y, n)
  {
    if n > 0 {
      PowMonotoneInBase(x, y, n - 1);
      if x < y {
        PowPositive(y, n - 1);
      }
      ProductMonotone(x, y, Pow(x, n - 1), Pow(y, n - 1));
    }
  }

  // ---------------------------------------------------------------------------
  // Properties of the accumulated value

  /** At zero growth every contribution keeps its face value. */
  lemma {:induction false} AccumulatedAtNoGrowth(p: real, n: nat)
    ensures Accumulated(p, 1.0, n) == p * n as real
  {
    if n > 0 {
      AccumulatedAtNoGrowth(p, n - 1);
      PowOfOne(n);
    }
  }

  /** One more year: the new contribution joins the old total and all of it grows once. */
  lemma {:induction false} AccumulatedStep(p: real, g: real, n: nat)
    ensures Accumulated(p, g, n + 1) == g * (p + Accumulated(p, g, n))
  {
    if n == 0 {
      assert Pow(g, 1) == g;
    } else {
      AccumulatedStep(p, g, n - 1);
      var x := Pow(g, n);
      calc {
        Accumulated(p, g, n + 1);
        Accumulated(p, g, n) + p * (g * x);
        g * (p + Accumulated(p, g, n - 1)) + p * (g * x);
        g * (p + (Accumulated(p, g, n - 1) + p * x));
        g * (p + Accumulated(p, g, n));
      }
    }
  }

  /**
   * One step of the closed form: adding the term p * g * a keeps
   * s * (g - 1) == p * g * (a - 1) in shape. The calc chain is kept for solver
   * stability across random seeds.
   */
  lemma ClosedFormStep(p: real, g: real, a: real, s: real)
    requires s * (g - 1.0) == p * g * (a - 1.0)
    ensures (s + p * (g * a)) * (g - 1.0) == p * g * (g * a - 1.0)
  {
    var t := p * g;
    calc {
      (s + p * (g * a)) * (g - 1.0);
      s * (g - 1.0) + t * a * (g - 1.0);
      t * (a - 1.0) + t * a * (g - 1.0);
      t * (a - 1.0 + a * (g - 1.0));
      t * (g * a - 1.0);
    }
  }

  /** The annuity-due closed form, multiplied out so that it also holds at g = 1. */
  lemma {:induction false} AccumulatedClosedForm(p: real, g: real, n: nat)
    ensures Accumulated(p, g, n) * (g - 1.0) == p * g * (Pow(g, n) - 1.0)
  {
    if n > 0 {
      AccumulatedClosedForm(p, g, n - 1);
      ClosedFormStep(p, g, Pow(g, n - 1), Accumulated(p, g, n - 1));
    }
  }

  lemma {:induction false} AccumulatedMonotoneInGrowth(p: real, g1: real, g2: real, n: nat)
    requires p >= 0.0 && 0.0 <= g1 <= g2
    ensures Accumulated(p, g1, n) <= Accumulated(p, g2, n)
    ensures p > 0.0 && g1 < g2 && n >= 1 ==> Accumulated(p, g1, n) < Accumulated(p, g2, n)
  {
    if n > 0 {
      AccumulatedMonotoneInGrowth(p, g1, g2, n - 1);
      PowMonotoneInBase(g1, g2, n);
      assert p * Pow(g1, n) <= p * Pow(g2, n);
      if p > 0.0 && g1 < g2 {
        assert p * Pow(g1, n) < p * Pow(g2, n);
      }
    }
  }

  lemma {:induction false} AccumulatedMonotoneInYears(p: real, g: real, n: nat, m: nat)
    requires p >= 0.0 && g >= 0.0 && n <= m
    ensures Accumulated(p, g, n) <= Accumulated(p, g, m)
    ensures p > 0.0 && g > 0.0 && n < m ==> Accumulated(p, g, n) < Accumulated(p, g, m)
  {
    if n < m {
      AccumulatedMonotoneInYears(p, g, n, m - 1);
      PowMonotoneInBase(0.0, g, m);
      assert p * Pow(g, m) >= 0.0;
      if p > 0.0 && g > 0.0 {
        PowPositive(g, m);
        assert p * Pow(g, m) > 0.0;
      }
    }
  }

  lemma {:induction false} AccumulatedLinear(a: real, p: real, b: real, q: real, g: real, n: nat)
    ensures Accumulated(a * p + b * q, g, n) == a * Accumulated(p, g, n) + b * Accumulated(q, g, n)
  {
    if n > 0 {
      AccumulatedLinear(a, p, b, q, g, n - 1);
      var x := Pow(g, n);
      assert (a * p + b * q) * x == a * (p * x) + b * (q * x);
    }
  }

  // ---------------------------------------------------------------------------
  // Properties of sip_calculator's result

  /** At a 0% rate the result is the plain sum of the contributions, yearly_investment * years. */
  lemma {:induction false} ZeroRateReturnsPrincipal(yearlyInvestment: real, years: int)
    requires years >= 0
    ensures FutureValue(yearlyInvestment, 0.0, years) == yearlyInvestment * years as real
  {
    if years > 0 {
      AccumulatedAtNoGrowth(yearlyInvestment, years);
    }
  }

  /** Investing one more year: FV(P, r, n + 1) == (1 + r) * (P + FV(P, r, n)). */
  lemma {:induction false} FutureValueRecurrence(yearlyInvestment: real, annualReturnRate: real, years: int)
    requires years >= 0
    ensures FutureValue(yearlyInvestment, annualReturnRate, years + 1)
         == Growth(annualReturnRate) * (yearlyInvestment + FutureValue(yearlyInvestment, annualReturnRate, years))
  {
    AccumulatedStep(yearlyInvestment, Growth(annualReturnRate), years);
  }

  /** For a non-zero rate r (as a fraction), FV == P * (1 + r) * ((1 + r)^n - 1) / r. */
  lemma FutureValueClosedForm(yearlyInvestment: real, annualReturnRate: real, years: int)
    requires annualReturnRate != 0.0 && years >= 0
    ensures var r := annualReturnRate / 100.0;
      FutureValue(yearlyInvestment, annualReturnRate, years)
        == yearlyInvestment * (1.0 + r) * (Pow(1.0 + r, years) - 1.0) / r
  {
    var r := annualReturnRate / 100.0;
    var g := 1.0 + r;
    assert Growth(annualReturnRate) == g;
    AccumulatedClosedForm(yearlyInvestment, g, years);
    var fv := FutureValue(yearlyInvestment, annualReturnRate, years);
    var y := yearlyInvestment * g * (Pow(g, years) - 1.0);
    assert fv == Accumulated(yearlyInvestment, g, years);
    assert g - 1.0 == r;
    assert fv * r == y;
    DivideOut(fv, r, y);
  }

  /** Dividing out a non-zero factor. */
  lemma DivideOut(a: real, r: real, b: real)
    requires r != 0.0 && a * r == b
    ensures a == b / r
  {
  }

  /**
   * With a non-negative contribution and rate the result is at least what was
   * paid in, and strictly more once some money grows at a positive rate.
   */
  lemma FutureValueAtLeastPrincipal(yearlyInvestment: real, annualReturnRate: real, years: int)
    requires yearlyInvestment >= 0.0 && annualReturnRate >= 0.0 && years >= 0
    ensures FutureValue(yearlyInvestment, annualReturnRate, years) >= yearlyInvestment * years as real
    ensures yearlyInvestment > 0.0 && annualReturnRate > 0.0 && years >= 1 ==>
      FutureValue(yearlyInvestment, annualReturnRate, years) > yearlyInvestment * years as real
  {
    ZeroRateReturnsPrincipal(yearlyInvestment, years);
    FutureValueMonotoneInRate(yearlyInvestment, 0.0, annualReturnRate, years);
  }

  /** A higher rate never lowers the result (as long as the growth factor stays non-negative). */
  lemma FutureValueMonotoneInRate(yearlyInvestment: real, rate1: real, rate2: real, years: int)
    requires yearlyInvestment >= 0.0 && -100.0 <= rate1 <= rate2
    ensures FutureValue(yearlyInvestment, rate1, years) <= FutureValue(yearlyInvestment, rate2, years)
    ensures yearlyInvestment > 0.0 && rate1 < rate2 && years >= 1 ==>
      FutureValue(yearlyInvestment, rate1, years) < FutureValue(yearlyInvestment, rate2, years)
  {
    if years > 0 {
      AccumulatedMonotoneInGrowth(yearlyInvestment, Growth(rate1), Growth(rate2), years);
    }
  }

  /** A longer horizon never lowers the result; it raises it when money is put in and does not vanish. */
  lemma FutureValueMonotoneInYears(yearlyInvestment: real, annualReturnRate: real, years1: int, years2: int)
    requires yearlyInvestment >= 0.0 && annualReturnRate >= -100.0 && years1 <= years2
    ensures FutureValue(yearlyInvestment, annualReturnRate, years1) <= FutureValue(yearlyInvestment, annualReturnRate, years2)
    ensures yearlyInvestment > 0.0 && annualReturnRate > -100.0 && years1 < years2 && years2 >= 1 ==>
      FutureValue(yearlyInvestment, annualReturnRate, years1) < FutureValue(yearlyInvestment, annualReturnRate, years2)
  {
    if years2 > 0 {
      var n1: nat := if years1 <= 0 then 0 else years1;
      AccumulatedMonotoneInYears(yearlyInvestment, Growth(annualReturnRate), n1, years2);
    }
  }

  /** The result is linear in the yearly contribution. */
  lemma FutureValueLinear(a: real, p: real, b: real, q: real, annualReturnRate: real, years: int)
    ensures FutureValue(a * p + b * q, annualReturnRate, years)
         == a * FutureValue(p, annualReturnRate, years) + b * FutureValue(q, annualReturnRate, years)
  {
    if years > 0 {
      AccumulatedLinear(a, p, b, q, Growth(annualReturnRate), years);
    }
  }

  /** Nothing invested, nothing accumulated, whatever the rate and horizon. */
  lemma FutureValueOfNothing(annualReturnRate: real, years: int)
    ensures FutureValue(0.0, annualReturnRate, years) == 0.0
  {
    FutureValueLinear(0.0, 0.0, 0.0, 0.0, annualReturnRate, years);
  }

  /**
   * The default inputs of the form: 5000 a month (60000 a year) at 12% for 10
   * years. On literal arguments Dafny evaluates the ten-term sum itself.
   */
  lemma DefaultScenario()
    ensures FutureValue(60000.0, 12.0, 10) == 1179274.9966727571308544
  {
  }
}
