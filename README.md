# Finance engine of the loan and debt-stress backend

The backend records a user's loans and reports how much strain they put on the
user's budget. Its computations sit in two utilities. The `analyze` and
`simulateLoan` handlers take their inputs from the request body
(`controllers/financeController.js:7`, `controllers/loanSimController.js:5`).
The stress and suggestion handlers read them from the database
(`controllers/stressController.js:14-18`,
`controllers/suggestionsController.js:8-10`).

- `utils/financeCalculations.js` — `utils/finance.js` is a byte-for-byte copy
  of lines 2-80, so the model treats the two as one:
  - `emi` gives a loan's monthly instalment;
  - `totalInterest` gives the interest its schedule costs;
  - `debtHealthScore` scores a budget from 0 to 100 and names a category;
  - `loanPriority` picks the loan to pay down first;
  - `simulate` replays a what-if plan of extra monthly payments or a one-time
    prepayment.
- `utils/stressCalculator.js`:
  - `calculateStressMetrics` gives a debt ratio, a stress level and a risk
    score from 0 to 100;
  - `getStressLevelColor` maps a level to a display colour;
  - `getStressSuggestion` gives the two pieces of advice for a level.

The model has one Dafny module per part of the engine:

- `JsMath` (jsmath.dfy): the JavaScript number operations the code relies on,
  over exact reals:
  - `toFixed` rounds halves away from zero;
  - `Math.round` rounds halves up;
  - `Math.ceil` and `Math.pow` with a whole exponent.
- `Amortization` (amortization.dfy):
  - the loan record, `emi` and `totalInterest`;
  - the annuity theory behind the EMI formula. The payment it computes is the
    constant payment that clears the loan in exactly its tenure, and the
    balance it leaves falls every month.
- `DebtHealth` (health.dfy): `debtHealthScore` and its monotonicity. More EMI,
  a larger loan or one more loan never raises the score or improves the
  category.
- `Priority` (priority.dfy): `loanPriority`. The sort is a stable sort, proved
  a permutation that orders by rate and then by EMI. The chosen loan is the
  first, in input order, of the highest-ranked loans.
- `Simulator` (simulator.dfy): `simulate`.
  - The month-by-month loop is the imperative method `PayDown`, proved against
    the recursive function `Amortize`. `Simulate` is proved against
    `SimulationOf`.
  - The lemmas cover the bounds of the result and when a plan stalls.
  - Paying more never takes longer.
  - With no extra payment, an interest-free plan lasts exactly its tenure. So
    does a plan that pays the exact annuity payment. The EMI `simulate` pays is
    rounded to cents, though, and on a small loan that can stall the plan.
- `Stress` (stress.dfy): the three `stressCalculator.js` functions. The stress
  level and the risk score are monotone in the EMI. The suggestions agree with
  the metrics they are built from.

Points where the code behaves in a way that is easy to misread:

- `emi` at a zero rate returns `amount / tenureMonths` unrounded.
- `loanPriority` returns a shallow copy of the chosen loan with `_emi` added,
  not the input element itself.
- `simulate` rounds the new monthly payment to cents.
- When a plan stalls in its first month, `simulate` reports the whole baseline
  interest as saved, not 0 (`Simulator.StalledPlanSavesBaseline`).
- The 1200-month cap applies only to the loop at a positive rate. The
  zero-rate branch has no cap.
- In `calculateStressMetrics`, a positive disposable income with a total EMI
  of 0 gives JavaScript `30 - Infinity * 30`. `Math.max(0, …)` turns that into
  a disposable-income score of 0, and the model has that 0.

## Model

| member | source | states |
|---|---|---|
| JsMath.ToFixed | utils/financeCalculations.js:6 | `Number(x.toFixed(d))` lies within half a unit of the last kept decimal of x, and keeps x's sign (built on the rounding helper `RoundedMagnitude`) |
| JsMath.RoundedMagnitudeSteps | utils/financeCalculations.js:6 | a magnitude rounded to steps of 1/s is a whole number of steps |
| JsMath.ToFixedSteps | utils/financeCalculations.js:6 | `Number(x.toFixed(d))` has at most d decimals: times 10^d it is an integer |
| JsMath.ToFixedMonotone | utils/financeCalculations.js:12 | rounding with toFixed never puts two numbers in the opposite order |
| JsMath.ToFixedOfZero | utils/stressCalculator.js:48 | toFixed of 0 is 0 at every number of decimals |
| JsMath.Round | utils/financeCalculations.js:33 | `Math.round(x)` is an integer within half of x, and halves go up |
| JsMath.RoundMonotone | utils/stressCalculator.js:45 | `Math.round` never puts two numbers in the opposite order |
| JsMath.Ceil | utils/finance.js:57 | `Math.ceil(x)` is the least integer not below x |
| Amortization.Emi | utils/financeCalculations.js:2-7 | with the monthly rate `MonthlyRate` (the annual percentage over 1200) and the unrounded formula `AnnuityPayment`: at a zero rate, the EMI times the tenure is exactly the amount (and a tenure of 0 months gives 0); at a positive rate, the EMI is within half a cent of the annuity payment; a non-negative amount gives a non-negative EMI |
| Amortization.AnnuityBounds | utils/financeCalculations.js:5 | the annuity payment is at least amount / tenure, and for a positive amount it exceeds the first month's interest |
| Amortization.PowAboveOne | utils/financeCalculations.js:5 | for `Pow`, the whole-exponent `Math.pow`: (1+r)^n is at least 1, and above 1 for r > 0 and n >= 1, so the formula's divisor is positive |
| Amortization.PowIncreasing | utils/financeCalculations.js:5 | (1+r)^k grows strictly with k for r > 0 |
| Amortization.BalanceClosedForm | utils/financeCalculations.js:5 | after k constant payments, balance * r = amount * r * (1+r)^k - payment * ((1+r)^k - 1) |
| Amortization.AnnuityIdentity | utils/financeCalculations.js:5 | the annuity payment e satisfies e * ((1+r)^n - 1) = amount * r * (1+r)^n |
| Amortization.AnnuityBalance | utils/financeCalculations.js:5 | under the annuity payment, the balance after k months is amount * ((1+r)^n - (1+r)^k) / ((1+r)^n - 1) |
| Amortization.AnnuityPaysOff | utils/financeCalculations.js:5 | the annuity payment leaves a balance of exactly 0 after the tenure |
| Amortization.AnnuityBalancePositive | utils/financeCalculations.js:5 | before the tenure ends, a positive loan under the annuity payment still owes something |
| Amortization.AnnuityBalanceDecreases | utils/financeCalculations.js:5 | under the annuity payment, each month's interest is below the payment, and the balance falls strictly every month |
| Amortization.AnnuityOrdered | utils/financeCalculations.js:5 | at the same rate and tenure, the annuity payment is monotone in the amount |
| Amortization.TotalInterest | utils/financeCalculations.js:9-13 | the interest is EMI times tenure less the amount, rounded to within half a cent; an interest-free loan costs 0 interest; at a positive rate, the rounded EMI loses at most half a cent per month, so the interest is at least -(tenure+1)/200 |
| Amortization.TotalInterestInCents | utils/financeCalculations.js:12 | the interest is a whole number of cents |
| Amortization.InterestBeforeRounding | utils/financeCalculations.js:9-13 | before its final rounding, the schedule costs exactly 0 at a zero rate; at a positive rate it is within half a cent per month of the exact annuity interest on either side, and for a non-negative amount no less than minus half a cent per month |
| Amortization.ExactInterestNonNegative | utils/financeCalculations.js:9-13 | the exact annuity schedule pays back at least the amount borrowed |
| DebtHealth.CategoryLabel | utils/financeCalculations.js:30-32 | the label is 'High Risk' exactly for the high-risk category, 'Moderate' exactly for the moderate one and 'Safe' exactly for the safe one, so the three labels differ |
| DebtHealth.TotalEmi | utils/financeCalculations.js:23 | the sum (`Sum` over the list `Emis` of each loan's EMI) is non-negative when no amount is negative |
| DebtHealth.RawScore | utils/financeCalculations.js:22-29 | the unrounded score is at least 0, and at most 100 for a total EMI that is not negative |
| DebtHealth.DebtHealthScore | utils/financeCalculations.js:21-34 | the rounded score lies between 0 and 100; it is `Math.round` of the unrounded score; the category (`CategoryOf`) is fixed by the unrounded score at the thresholds 40 and 70; the reported total EMI is within half a cent of the sum |
| DebtHealth.ScoreMonotone | utils/financeCalculations.js:23-33 | more total EMI never raises the unrounded score or the rounded score, and never improves the category |
| DebtHealth.ExtraLoanPenalty | utils/financeCalculations.js:28-29 | beyond the first loan, each further loan costs 5 points, down to a floor of 0 |
| DebtHealth.NoLoansIsSafe | utils/financeCalculations.js:21-34 | with disposable income and no loans, the result is score 100, 'Safe' and total EMI 0 |
| DebtHealth.NoDisposableIncomeIsHighRisk | utils/financeCalculations.js:22-31 | when expenses reach income, the score is 0 and the category is 'High Risk', whatever the loans |
| DebtHealth.CategoryBeforeRounding | utils/financeCalculations.js:30-33 | the category comes from the unrounded score: a raw 39.5 is reported as score 40 with category 'High Risk' |
| DebtHealth.EmiMonotoneInAmount | utils/financeCalculations.js:2-7 | at the same rate and tenure, a larger amount never gives a smaller EMI |
| DebtHealth.TotalEmiReplace | utils/financeCalculations.js:23 | replacing one loan changes the total EMI by exactly the difference of the two EMIs |
| DebtHealth.ScoreMonotoneInLoanAmount | utils/financeCalculations.js:21-34 | raising one loan's amount never raises the score and never improves the category |
| DebtHealth.SumAppend | utils/financeCalculations.js:23 | appending an EMI to the list adds it to the total |
| DebtHealth.TotalEmiAppend | utils/financeCalculations.js:23 | appending a loan adds its own EMI to the total EMI |
| DebtHealth.OneMoreLoanScore | utils/financeCalculations.js:23-33 | one more loan together with no less total EMI never raises the unrounded or the rounded score and never improves the category |
| DebtHealth.AnotherLoanNeverHelps | utils/financeCalculations.js:21-34 | adding one more loan of non-negative amount never raises the score and never improves the category |
| Priority.CompareOrdersByRank | utils/financeCalculations.js:40 | the comparator is negative exactly when the first loan has a higher rate, or the same rate and a higher EMI |
| Priority.SortPermutes | utils/financeCalculations.js:40 | the sort (`StableSort`, an insertion sort built on `Insert` and the comparator `Compare`) holds the same copies, each as often as before |
| Priority.SortOrders | utils/financeCalculations.js:40 | after the sort, no copy stands behind one it ranks above |
| Priority.SortHeadIsFirstTop | utils/financeCalculations.js:40-41 | the head of the sort is the highest-ranked copy that comes first in the input, which is the stability guarantee |
| Priority.TopExists | utils/financeCalculations.js:40-41 | every non-empty list has a first highest-ranked element: one ranked below by nothing and ranked above everything before it |
| Priority.HeadIsMaximal | utils/financeCalculations.js:40-41 | nothing in the input ranks above the head of the sort |
| Priority.IdOf | utils/financeCalculations.js:42 | the id is `_id` when that is non-empty, else `id` when that is non-empty, else null |
| Priority.LoanPriority | utils/financeCalculations.js:36-43 | null exactly for an empty list; otherwise the copy of an input loan with its own EMI, ranked below by no other copy, and the first of the highest-ranked in input order (which always exists), together with its id and the fixed reason and suggestion |
| Priority.SingleLoanIsPriority | utils/financeCalculations.js:36-43 | a one-loan list recommends that loan, with its EMI attached |
| Simulator.Amortize | utils/finance.js:60-72 | the loop ends within 1200 months; the principal never grows and never goes negative; it ends with nothing owed or at the cap; interest paid never decreases; a stall leaves a positive balance and forces the count to 1200 |
| Simulator.PayDown | utils/finance.js:60-72 | the imperative loop returns the month count and interest paid of `Amortize` from the start state |
| Simulator.ZeroRateMonthsAsWritten | utils/finance.js:57 | `Math.ceil(principal / pay)` has no numeric value exactly when nothing is owed and nothing is paid (0/0) |
| Simulator.ZeroRateMonths | utils/finance.js:56-58 | nothing owed takes 0 months; otherwise the count is the least number of payments that covers the principal |
| Simulator.AsWrittenAgreesWhenDefined | utils/finance.js:57 | wherever the code's month count is a number, it equals the corrected count |
| Simulator.NothingOwedNothingPaid | utils/finance.js:48-57 | an interest-free loan of 0 with no extra payment has a payment of 0; the code's count is NaN there, and the model's count is 0 |
| Simulator.ZeroRatePayCovers | utils/finance.js:48-55 | at a zero rate, the payment is not negative, and it is positive whenever something is owed |
| Simulator.Simulate | utils/finance.js:45-80 | the method computes `SimulationOf`, which starts from `StartPrincipal` (amount less prepayment, floored at 0) and pays `MonthlyPayment` (EMI plus extra) each month; the month count is at least 0, at most 1200 at a positive rate and at most the tenure at a zero rate; the interest saved is never negative |
| Simulator.SimulationBounds | utils/finance.js:45-80 | the bounds on months and interest saved, and the new EMI is the EMI plus the extra payment rounded to cents |
| Simulator.ZeroRatePlanKeepsTenure | utils/finance.js:56-58 | an interest-free loan with no extra payment takes exactly its tenure and saves no interest |
| Simulator.ZeroRateWithinTenure | utils/finance.js:52-58 | at a zero rate, no prepayment or extra payment makes the plan longer than the tenure |
| Simulator.PayingMoreNeverTakesLonger | utils/finance.js:60-72 | a smaller principal and a larger payment never make the loop take more months |
| Simulator.ZeroRateMonthsMonotone | utils/finance.js:57 | a smaller principal and a larger payment never need more zero-rate months |
| Simulator.PayingMoreNeverLonger | utils/finance.js:45-73 | a larger extra payment and a larger prepayment never lengthen the simulated plan |
| Simulator.CoveredPlanNeverStalls | utils/finance.js:61-67 | a payment above the first month's interest never stalls, because the principal only falls |
| Simulator.StallsOnlyInFirstMonth | utils/finance.js:61-67 | a plan that stalls does so in its first month, with nothing repaid and no interest counted |
| Simulator.AnnuityPlanNeverStalls | utils/finance.js:48-67 | paying at least the exact annuity instalment, after any prepayment, never stalls |
| Simulator.StalledPlanSavesBaseline | utils/finance.js:63-78 | a stalled plan reports 1200 months, and the whole baseline interest, rounded and floored at 0, as saved |
| Simulator.ShrinkingSchedule | utils/finance.js:60-72 | a balance sequence that falls by payment minus interest each month and reaches 0 in month n is exactly what the loop does: it takes n months and pays n * payment - amount in interest |
| Simulator.AnnuityScheduleShrinks | utils/financeCalculations.js:5 | the annuity payment produces such a sequence: positive balances that reach 0 exactly at the tenure |
| Simulator.AnnuityPlanKeepsTenure | utils/finance.js:60-72 | paying the exact annuity instalment, the loop takes exactly the tenure and pays n * payment - amount in interest |
| Simulator.RoundedEmiCanStall | utils/finance.js:48-67 | a one-month loan of 0.004 at 12% has an EMI rounded to 0, so with no extra payment the plan stalls and reports 1200 months |
| Stress.LevelMonotone | utils/stressCalculator.js:19-26 | a higher debt ratio never gives a lower stress level (`LevelOf`) |
| Stress.DebtRatioScore | utils/stressCalculator.js:30 | the debt-ratio component is at most 50 and not negative for a non-negative ratio; it is 50 exactly when the ratio is at least 0.8 |
| Stress.DisposableScore | utils/stressCalculator.js:33-39 | with no disposable income, the component is 30; with disposable income and no EMI, it is 0; it lies in [0, 30] for a non-negative EMI; it is 0 exactly when disposable income covers the EMI |
| Stress.ExpenseScore | utils/stressCalculator.js:42-43 | the expense component is at most 20 and not negative; it is 20 exactly when expenses reach income |
| Stress.RiskSum | utils/stressCalculator.js:28-45 | the three components add up to between 0 and 100 |
| Stress.CalculateStressMetrics | utils/stressCalculator.js:6-52 | income of 0 or less gives (0, DANGEROUS, 100). Otherwise: SAFE exactly when the EMI is at most 30% of income, RISKY exactly between 30% and 50%, DANGEROUS above 50%; the ratio is within 0.00005 of EMI / income; the risk score is the rounded component sum, capped at 100, and lies in [0, 100] |
| Stress.CapUnneeded | utils/stressCalculator.js:45-50 | for a non-negative EMI, the 100 cap never changes the rounded score |
| Stress.LevelMonotoneInEmi | utils/stressCalculator.js:16-26 | at the same income and expenses, more EMI never gives a lower stress level |
| Stress.RiskScoreMonotoneInEmi | utils/stressCalculator.js:28-50 | at the same income and expenses, more EMI never gives a lower risk score |
| Stress.LevelBeforeRounding | utils/stressCalculator.js:16-50 | the level comes from the unrounded ratio: an EMI of 30.004% of income is reported as ratio 0.3 and level RISKY |
| Stress.SafeExample | utils/stressCalculator.js:6-52 | income 50000, expenses 20000 and EMI 10000 give ratio 0.2, SAFE and risk score 21 |
| Stress.StressLevelColor | utils/stressCalculator.js:54-65 | the colour is one of four; it is gray exactly when the level is not one of the three names |
| Stress.LevelColorsDistinct | utils/stressCalculator.js:54-65 | each of the three levels has its own colour, and none of them is gray |
| Stress.StressSuggestion | utils/stressCalculator.js:67-107 | two suggestions with one priority: low exactly for SAFE, medium exactly for RISKY, high otherwise; the first quotes the ratio as a percentage with one decimal; only SAFE quotes the rupee amount, 25% of income rounded; the second is plain text |
| Stress.SuggestionsFollowMetrics | utils/stressCalculator.js:6-107 | advice built from computed metrics has the priority of their level, and high priority when income is 0 or less; for SAFE metrics the quoted borrowing amount is not negative |

## Left out

- `loanEndDate` and `simulate`'s `newEndDate`: these read the clock and do calendar arithmetic, so `Simulation` has no end date.
- `assistantReply` and `portfolioSimulation`: neither is part of this model.
- The HTTP handlers, the document store and authentication are not part of this model. The handlers are where the inputs come from.
- IEEE-754 doubles are modelled as exact reals. Binary rounding error, overflow, NaN and Infinity are not modelled. The exceptions are the two divisions by zero the model states explicitly: the zero-EMI disposable score, and the 0/0 month count under "## Findings".
- `toFixed` is modelled on the exact decimal value. On a double whose binary value lies just below .5, the real function can round down.
- Amortization.Emi: requires a non-negative rate and, at a positive rate, a tenure of at least one month. A positive rate with a tenure of 0 divides by zero in the code.
- Simulator.SimulationDefined: `simulate` is modelled for loans with an amount and rate of at least 0 and a tenure of at least 1 whole month, and for non-negative extra payments and prepayments. A negative extra payment can make the zero-rate count negative, infinite or NaN. The destructuring defaults of `extraEMI` and `prepayment` are taken as 0 by the caller.
- Amortization.Loan: the tenure is modelled as a whole number of months (`int`), although the loan schema (`models/Loan.js:10`) and the handlers admit any number of at least 1. `Math.pow` with a fractional exponent is therefore not modelled. For a fractional tenure the zero-rate count with no extra payment is the tenure rounded up, more months than the tenure itself, so `Simulator.Simulate`'s zero-rate bound and `Simulator.ZeroRatePlanKeepsTenure` hold only for whole tenures.
- Priority.LoanPriority: the code sorts its local copy in place with `Array.prototype.sort`. The model states the sorted copy functionally, because the caller never sees the copy's intermediate order.
- Stress.StressSuggestion: a message is a sequence of text pieces and numbers, not a rendered string. The number-to-text formatting of template literals is not modelled.
- Simulator.AnnuityPlanKeepsTenure: proved for the exact annuity payment. `simulate` pays the EMI rounded to cents, up to half a cent below it. On a small loan that can leave the balance unpaid when the tenure ends, and even stall the plan at 1200 months (`Simulator.RoundedEmiCanStall`).
- Simulator.AnnuityPlanNeverStalls: proved for a payment of at least the exact annuity payment. The rounded EMI can be half a cent below it, and then even a plan with no extra payment can stall (`Simulator.RoundedEmiCanStall`).
- Amortization.TotalInterest: states a lower bound of -(tenure+1)/200 rather than 0, because EMI rounding can make the interest slightly negative.

## Findings

| source | as written | input that shows it | evidently intended | confidence | as-written member | corrected member |
|---|---|---|---|---|---|---|
| utils/finance.js:57 (and utils/financeCalculations.js:57) | the zero-rate branch sets the month count to `Math.ceil(principal / pay)` | an interest-free loan of amount 0 with no extra payment: the EMI is 0, so `pay` is 0 and the count is `Math.ceil(0 / 0)`, NaN | nothing owed takes 0 months | not executed | Simulator.ZeroRateMonthsAsWritten, Simulator.NothingOwedNothingPaid | Simulator.ZeroRateMonths |
