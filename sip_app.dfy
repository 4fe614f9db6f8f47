/**
 * What the form does when "Calculate" is pressed: annualise the monthly
 * amount, compute the future value, and derive total investment, total
 * returns and the returns percentage from it.
 */
module SipApp {
  import opened SipCalculator

  datatype Option<T> = None | Some(value: T)

  /** The exception the returns percentage can raise. */
  datatype Error = ZeroDivisionError

  datatype Result<T> = Ok(value: T) | Err(error: Error)

  /** The four figures shown to the user; the percentage may be "not applicable". */
  datatype Report = Report(
    futureValue: real,
    totalInvestment: real,
    totalReturns: real,
    totalReturnsPercent: Option<real>)

  /** The ranges the input widgets allow: monthly amount >= 0, rate in [0, 100], years in [1, 50]. */
  predicate ValidInputs(monthlyInvestment: real, annualReturnRate: real, years: int)
  {
    monthlyInvestment >= 0.0 && 0.0 <= annualReturnRate <= 100.0 && 1 <= years <= 50
  }

  function YearlyInvestment(monthlyInvestment: real): real
  {
    monthlyInvestment * 12.0
  }

  function TotalInvestment(yearlyInvestment: real, years: int): real
  {
    yearlyInvestment * years as real
  }

  /** Total returns as a percentage of total investment; defined only for a non-zero investment. */
  function ReturnsPercent(totalReturns: real, totalInvestment: real): (percent: real)
    requires totalInvestment != 0.0
    ensures percent * totalInvestment == totalReturns * 100.0
    ensures (percent == 0.0) == (totalReturns == 0.0)
  {
    totalReturns / totalInvestment * 100.0
  }

  /** The percentage has the sign of the returns when something is invested. */
  lemma PercentSign(totalReturns: real, totalInvestment: real)
    requires totalInvestment > 0.0
    ensures totalReturns >= 0.0 ==> ReturnsPercent(totalReturns, totalInvestment) >= 0.0
    ensures (ReturnsPercent(totalReturns, totalInvestment) > 0.0) == (totalReturns > 0.0)
  {
    var percent := ReturnsPercent(totalReturns, totalInvestment);
    if percent > 0.0 {
      assert percent * totalInvestment > 0.0;
    }
  }

  /**
   * Lines 35-42: annualise, compute the future value, the total investment and
   * the total returns. The percentage is left unset here.
   */
  function Totals(monthlyInvestment: real, annualReturnRate: real, years: int): Report
  {
    var yearlyInvestment := YearlyInvestment(monthlyInvestment);
    var futureValue := FutureValue(yearlyInvestment, annualReturnRate, years);
    var totalInvestment := TotalInvestment(yearlyInvestment, years);
    Report(futureValue, totalInvestment, futureValue - totalInvestment, None)
  }

  /**
   * The button branch as written: the percentage is divided out unguarded, so
   * a zero total investment raises instead of producing a report.
   */
  function Calculate(monthlyInvestment: real, annualReturnRate: real, years: int): Result<Report>
  {
    var totals := Totals(monthlyInvestment, annualReturnRate, years);
    if totals.totalInvestment == 0.0 then Err(ZeroDivisionError)
    else Ok(totals.(totalReturnsPercent := Some(ReturnsPercent(totals.totalReturns, totals.totalInvestment))))
  }

  /** The button branch with the percentage reported as "not applicable" for a zero investment. */
  function CalculateGuarded(monthlyInvestment: real, annualReturnRate: real, years: int): Report
  {
    var totals := Totals(monthlyInvestment, annualReturnRate, years);
    if totals.totalInvestment == 0.0 then totals
    else totals.(totalReturnsPercent := Some(ReturnsPercent(totals.totalReturns, totals.totalInvestment)))
  }

  /**
   * Every input the widgets accept with a zero monthly amount makes the
   * branch as written raise, and no other accepted input does.
   */
  lemma CalculateRaisesExactlyOnZeroMonthly(monthlyInvestment: real, annualReturnRate: real, years: int)
    requires ValidInputs(monthlyInvestment, annualReturnRate, years)
    ensures Calculate(monthlyInvestment, annualReturnRate, years).Err? <==> monthlyInvestment == 0.0
  {
    var yearlyInvestment := YearlyInvestment(monthlyInvestment);
    if monthlyInvestment != 0.0 {
      ProductMonotone(yearlyInvestment, yearlyInvestment, 1.0, years as real);
    }
  }

  /** Where the branch as written does not raise, the guarded branch reports the same figures. */
  lemma GuardedAgreesWithCalculate(monthlyInvestment: real, annualReturnRate: real, years: int)
    ensures var guarded := CalculateGuarded(monthlyInvestment, annualReturnRate, years);
      Calculate(monthlyInvestment, annualReturnRate, years)
        == if guarded.totalReturnsPercent.None? then Err(ZeroDivisionError) else Ok(guarded)
  {
  }

  /**
   * On every accepted input the guarded report keeps its invariants: total
   * investment is monthly * 12 * years, returns are never negative, zero at a
   * 0% rate and positive at a positive rate, and the percentage is "not
   * applicable" exactly when nothing is invested.
   */
  lemma GuardedReportInvariants(monthlyInvestment: real, annualReturnRate: real, years: int)
    requires ValidInputs(monthlyInvestment, annualReturnRate, years)
    ensures var report := CalculateGuarded(monthlyInvestment, annualReturnRate, years);
      && report.futureValue == FutureValue(YearlyInvestment(monthlyInvestment), annualReturnRate, years)
      && report.totalInvestment == monthlyInvestment * 12.0 * years as real
      && report.totalReturns == report.futureValue - report.totalInvestment
      && (report.totalReturnsPercent.Some? ==>
            report.totalReturnsPercent.value * report.totalInvestment == report.totalReturns * 100.0)
      && report.futureValue >= report.totalInvestment
      && report.totalReturns >= 0.0
      && (annualReturnRate == 0.0 ==> report.totalReturns == 0.0)
      && (monthlyInvestment > 0.0 && annualReturnRate > 0.0 ==> report.totalReturns > 0.0)
      && (report.totalReturnsPercent.None? <==> monthlyInvestment == 0.0)
      && (monthlyInvestment == 0.0 ==> report.futureValue == 0.0 && report.totalReturns == 0.0)
      && (report.totalReturnsPercent.Some? ==>
            report.totalReturnsPercent.value >= 0.0
            && (report.totalReturnsPercent.value > 0.0 <==> annualReturnRate > 0.0))
  {
    var yearlyInvestment := YearlyInvestment(monthlyInvestment);
    FutureValueAtLeastPrincipal(yearlyInvestment, annualReturnRate, years);
    if annualReturnRate == 0.0 {
      ZeroRateReturnsPrincipal(yearlyInvestment, years);
    }
    if monthlyInvestment == 0.0 {
      FutureValueOfNothing(annualReturnRate, years);
    } else {
      ProductMonotone(yearlyInvestment, yearlyInvestment, 1.0, years as real);
      var totals := Totals(monthlyInvestment, annualReturnRate, years);
      PercentSign(totals.totalReturns, totals.totalInvestment);
    }
  }

  /** The form's default inputs: 5000 a month at 12% for 10 years. */
  lemma DefaultReport()
    ensures var report := CalculateGuarded(5000.0, 12.0, 10);
      && report.futureValue == 1179274.9966727571308544
      && report.totalInvestment == 600000.0
      && report.totalReturns == 579274.9966727571308544
      && report.totalReturnsPercent == Some(96.5458327787928551424)
  {
    DefaultScenario();
  }
}
