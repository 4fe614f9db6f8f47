# SIP calculator, modelled in Dafny

The system computes the future value of a systematic investment plan (SIP). The user
enters a monthly amount, an expected annual return rate in percent and a horizon in
years. The monthly amount is annualised (× 12). Each yearly contribution is made at
the start of its year and compounds once a year until the end of the horizon, so the
contribution of year `y` grows for `years - y + 1` years (annuity-due). From the future
value the app derives the total investment, the total returns and the returns as a
percentage of the investment.

The model uses exact `real` arithmetic throughout. It has two modules:

- `SipCalculator` (`sip_calculator.dfy`) models `sip_calculator`. The method
  `SipCalculator.SipCalculator` keeps the source's loop over `year = 1 .. years` and its
  accumulator. It is proved equal to the pure function `FutureValue`: 0 for an empty
  range, otherwise `Accumulated(P, 1 + r, years)`, which is `P·g¹ + … + P·gⁿ`. The loop
  invariant reindexes the source's exponent `years - year + 1` into this sum. `Pow`
  models Python's `**` for a natural exponent. The lemmas state what the result means:
  - the zero-rate case;
  - the one-more-year recurrence;
  - the annuity-due closed form;
  - the principal as a lower bound;
  - monotonicity in the rate and in the horizon;
  - linearity in the contribution;
  - the value for the form's default inputs.
- `SipApp` (`sip_app.dfy`) models the "Calculate" branch of the form:
  - `ValidInputs` gives the widget ranges.
  - `YearlyInvestment` and `TotalInvestment` are the annualisation and the principal.
  - `ReturnsPercent` is the percentage, with its division-by-zero precondition.
  - `Calculate` is the branch as written. A zero total investment gives
    `Err(ZeroDivisionError)`, because Python raises there.
  - `Totals` computes the future value, total investment and total returns (lines 35-42)
    once, for both branches below.
  - `CalculateGuarded` reports the percentage as "not applicable" (`None`) instead.

For the form's default inputs (5000 a month, 12 %, 10 years), the loop's exact value is
1179274.9966727571308544. The total returns are 579274.99667… (about 96.55 %).

## Model

| member | source | states |
|---|---|---|
| `SipCalculator.SipCalculator` | enhanced_sip_calculator.py:3-21 | the loop's result is the sum over year = 1..years of P·(1 + rate/100)^(years − year + 1); an empty range (years ≤ 0) gives 0 |
| `SipCalculator.Pow` | enhanced_sip_calculator.py:19 | `x ** n` for a natural exponent, by repeated multiplication; no contract of its own, and its behaviour is stated by `PowMonotoneInBase` (with the helpers `PowOfOne` and `PowPositive`) |
| `SipCalculator.Growth` | enhanced_sip_calculator.py:13-19 | the yearly growth factor 1 + annual_return_rate / 100; no contract of its own, and it is the factor the `FutureValue…` lemmas are stated in (`FutureValueRecurrence`, `FutureValueClosedForm`, `FutureValueMonotoneInRate`) |
| `SipCalculator.Accumulated` | enhanced_sip_calculator.py:18-19 | the sum P·g¹ + … + P·gⁿ of n contributions, the loop's terms counted by years of growth; no contract of its own, and its behaviour is stated by `AccumulatedStep`, `AccumulatedClosedForm`, `AccumulatedAtNoGrowth`, both `Accumulated…Monotone…` lemmas and `AccumulatedLinear` |
| `SipCalculator.FutureValue` | enhanced_sip_calculator.py:3-21 | the reference value of `sip_calculator`: 0 for years ≤ 0, otherwise the sum P·g¹ + … + P·gⁿ with g = 1 + rate/100; no contract of its own, and its behaviour is stated by `SipCalculator.SipCalculator` (the loop computes it) and by the `FutureValue…` lemmas below |
| `SipCalculator.AccumulatedAtNoGrowth` | enhanced_sip_calculator.py:18-19 | at growth factor 1 the n contributions of p add up to p·n |
| `SipCalculator.AccumulatedStep` | enhanced_sip_calculator.py:18-19 | one more contribution: Acc(n+1) = g·(p + Acc(n)) |
| `SipCalculator.AccumulatedClosedForm` | enhanced_sip_calculator.py:18-19 | Acc(n)·(g − 1) = p·g·(gⁿ − 1), for every g |
| `SipCalculator.AccumulatedMonotoneInGrowth` | enhanced_sip_calculator.py:18-19 | for p ≥ 0 and 0 ≤ g1 ≤ g2 the sum does not decrease; it increases strictly when p > 0, g1 < g2 and n ≥ 1 |
| `SipCalculator.AccumulatedMonotoneInYears` | enhanced_sip_calculator.py:18-19 | for p ≥ 0 and g ≥ 0 the sum does not decrease with n; it increases strictly when p > 0 and g > 0 |
| `SipCalculator.AccumulatedLinear` | enhanced_sip_calculator.py:19 | the sum is linear in the contribution: Acc(a·p + b·q) = a·Acc(p) + b·Acc(q) |
| `SipCalculator.ZeroRateReturnsPrincipal` | enhanced_sip_calculator.py:13-19 | for years ≥ 0, at a 0 % rate the future value is yearly_investment · years, the same as the total investment (for years < 0 the range is empty and the value is 0) |
| `SipCalculator.FutureValueRecurrence` | enhanced_sip_calculator.py:18-19 | FV(P, rate, n+1) = (1 + rate/100)·(P + FV(P, rate, n)) for n ≥ 0 |
| `SipCalculator.FutureValueClosedForm` | enhanced_sip_calculator.py:13-19 | for a non-zero rate r = rate/100, FV = P·(1 + r)·((1 + r)ⁿ − 1)/r |
| `SipCalculator.FutureValueAtLeastPrincipal` | enhanced_sip_calculator.py:13-19 | for P ≥ 0 and rate ≥ 0 the future value is at least P·years; it is strictly more when P > 0, rate > 0 and years ≥ 1 |
| `SipCalculator.FutureValueMonotoneInRate` | enhanced_sip_calculator.py:13-19 | for P ≥ 0 a higher rate (from −100 % up) never lowers the future value; it raises it strictly when P > 0 and years ≥ 1 |
| `SipCalculator.FutureValueMonotoneInYears` | enhanced_sip_calculator.py:18-19 | for P ≥ 0 and rate ≥ −100 % a longer horizon never lowers the future value; it raises it strictly from years1 to years2 when P > 0, rate > −100 %, years1 < years2 and years2 ≥ 1 (for years1 < years2 ≤ 0 both values are 0) |
| `SipCalculator.FutureValueLinear` | enhanced_sip_calculator.py:19 | the future value is linear in yearly_investment |
| `SipCalculator.FutureValueOfNothing` | enhanced_sip_calculator.py:19 | a zero contribution gives a zero future value, whatever the rate and horizon |
| `SipCalculator.DefaultScenario` | enhanced_sip_calculator.py:28-37 | for 60000 a year at 12 % for 10 years the future value is exactly 1179274.9966727571308544 |
| `SipApp.ValidInputs` | enhanced_sip_calculator.py:28-30 | the widget bounds: monthly ≥ 0, rate in [0, 100], years in [1, 50]; no contract of its own, and it is the precondition of `CalculateRaisesExactlyOnZeroMonthly` and `GuardedReportInvariants` |
| `SipApp.YearlyInvestment` | enhanced_sip_calculator.py:35 | the yearly amount, monthly · 12; no contract of its own, and its value is stated by `GuardedReportInvariants` (FV is taken on monthly·12 a year) |
| `SipApp.TotalInvestment` | enhanced_sip_calculator.py:40 | total investment = yearly amount · years; no contract of its own, and its value is stated by `GuardedReportInvariants` (total investment = monthly·12·years) and `CalculateRaisesExactlyOnZeroMonthly` (it is 0 exactly when monthly is 0) |
| `SipApp.Totals` | enhanced_sip_calculator.py:35-42 | yearly = monthly·12, FV of the loop, total investment = yearly·years, returns = FV − investment, with no percentage yet; no contract of its own, and its values are stated by `GuardedReportInvariants` |
| `SipApp.Calculate` | enhanced_sip_calculator.py:35-44 | the button branch as written: `Err(ZeroDivisionError)` when the total investment is 0, otherwise the four figures; no contract of its own, and it is stated by `CalculateRaisesExactlyOnZeroMonthly` and `GuardedAgreesWithCalculate` |
| `SipApp.CalculateGuarded` | enhanced_sip_calculator.py:35-44 | the corrected branch: the same figures, with the percentage "not applicable" (`None`) when the total investment is 0; no contract of its own, and it is stated by `GuardedAgreesWithCalculate`, `GuardedReportInvariants` and `DefaultReport` |
| `SipApp.ReturnsPercent` | enhanced_sip_calculator.py:44 | percent · total_investment = total_returns · 100, so the percent is zero exactly when the returns are; requires a non-zero total investment |
| `SipApp.PercentSign` | enhanced_sip_calculator.py:44 | for a positive total investment the percent is ≥ 0 when the returns are, and positive exactly when the returns are |
| `SipApp.CalculateRaisesExactlyOnZeroMonthly` | enhanced_sip_calculator.py:28-44 | among inputs the widgets accept, the branch as written raises ZeroDivisionError exactly when the monthly amount is 0 |
| `SipApp.GuardedAgreesWithCalculate` | enhanced_sip_calculator.py:35-44 | the guarded branch reports the same four figures as the branch as written wherever the latter does not raise; it reports "not applicable" exactly where the latter raises |
| `SipApp.GuardedReportInvariants` | enhanced_sip_calculator.py:28-44 | on accepted inputs: FV is the loop's value for monthly·12 a year; total investment = monthly·12·years; returns = FV − total investment; a reported percent satisfies percent · total investment = returns · 100; FV ≥ total investment; returns ≥ 0; returns are 0 at a 0 % rate and positive at a positive rate with money invested; the percent is "not applicable" exactly when monthly = 0 (then FV and returns are 0); otherwise the percent is ≥ 0 and positive exactly when the rate is |
| `SipApp.DefaultReport` | enhanced_sip_calculator.py:28-44 | for the form's defaults (5000, 12 %, 10): FV 1179274.9966727571308544, investment 600000, returns 579274.9966727571308544, percent exactly 96.5458327787928551424 |

## Left out

- Streamlit calls are not modelled: the title, text, number inputs, slider, button, success/info boxes and LaTeX (enhanced_sip_calculator.py lines 1, 24-33, 47-57). They are UI glue around a foreign library. The widget bounds are kept as `SipApp.ValidInputs`.
- Currency and percentage formatting (`:,.2f`, `:.2f`) is not modelled. It is presentation only.
- IEEE-754 double rounding is not modelled. Every quantity is an exact real, so the model does not reproduce Python's float results digit for digit.
- The formula text `FV = P × (1 + r)^n` shown on the page is not modelled. It is display text only, and it does not describe what the loop computes.
- `sip_calculator` initialises its accumulator to the integer `0`, so for `years ≤ 0` it returns an int, not a float. The model returns the real `0.0`, which has the same value.
- SipCalculator.SipCalculator: float overflow of `**` at enhanced_sip_calculator.py:19 is not modelled. CPython raises OverflowError once `(1 + annual_rate) ** (years - year + 1)` leaves the double range (for example rate 100 with years ≥ 1024), while the model returns the exact real. This cannot happen on inputs the widgets accept (years ≤ 50 and rate ≤ 100 keep the power at most 2⁵⁰).
- Python's dynamic typing is not modelled: non-numeric or non-integer arguments to `sip_calculator` are out of scope. `years` is an `int`, and the rate and amount are reals.

## Findings

| source | as written | input that shows it | evidently intended | confidence | as-written member | corrected member |
|---|---|---|---|---|---|---|
| enhanced_sip_calculator.py:44 | `total_returns / total_investment` is divided unguarded. A monthly amount of 0, which the widget's `min_value=0.0` accepts, makes total_investment 0, so the branch raises ZeroDivisionError (`SipApp.CalculateRaisesExactlyOnZeroMonthly`). | monthly 0.0, rate 12, years 10 | report the returns percentage as "not applicable" when nothing is invested, and still show the other figures (proved in `SipApp.GuardedReportInvariants`) | high (not executed) | `SipApp.Calculate` | `SipApp.CalculateGuarded` |
