/**
 * The what-if payoff simulator `simulate(loan, { extraEMI, prepayment })`:
 * takes any prepayment off the principal at once, pays the loan's EMI plus the
 * extra amount every month, and reports how many months the plan takes and
 * how much interest it saves against the loan's own schedule.
 */
module Simulator {
  import opened Wrappers
  import opened JsMath
  import opened Amortization

  /** The month cap of the simulation loop: 1200 months, 100 years. */
  const MaxMonths: nat := 1200

  datatype WhatIf = WhatIf(extraEmi: real, prepayment: real)

  /**
   * What `simulate` returns, without its `newEndDate` (today's date moved on
   * by `months` calendar months).
   */
  datatype Simulation = Simulation(months: int, interestSaved: real, newEmi: real)

  /**
   * Where the month-by-month loop stops: the month count, the interest paid,
   * the principal still owed, and whether it stopped because a payment did
   * not cover the month's interest.
   */
  datatype Payoff = Payoff(months: nat, interestPaid: real, principal: real, stalled: bool)

  /**
   * The loop of `simulate` from a given state: while something is owed and
   * fewer than 1200 months have passed, charge a month's interest and repay
   * what the payment leaves over, at most the whole principal; a payment that
   * leaves nothing over ends the loop at once with the count forced to 1200
   * and that month's interest not added.
   */
  function Amortize(principal: real, r: real, pay: real, months: nat, interestPaid: real): (p: Payoff)
    requires months <= MaxMonths
    ensures months <= p.months <= MaxMonths
    ensures principal >= 0.0 ==> 0.0 <= p.principal <= principal
    ensures principal >= 0.0 ==> p.principal == 0.0 || p.months == MaxMonths
    ensures r >= 0.0 ==> p.interestPaid >= interestPaid
    ensures p.stalled ==> p.months == MaxMonths && p.principal > 0.0
    decreases MaxMonths - months
  {
    if principal > 0.0 && months < MaxMonths then
      var interest := principal * r;
      var principalPay := Min(principal, pay - interest);
      if principalPay <= 0.0 then Payoff(MaxMonths, interestPaid, principal, true)
      else
        assert r >= 0.0 ==> interest >= 0.0 by {
          if r >= 0.0 { MulNonNeg(principal, r); }
        }
        Amortize(principal - principalPay, r, pay, months + 1, interestPaid + interest)
    else
      Payoff(months, interestPaid, principal, false)
  }

  /**
   * The zero-rate month count `Math.ceil(principal / pay)` as written: when
   * nothing is owed and nothing is paid it is `Math.ceil(0 / 0)`, NaN (None).
   */
  function ZeroRateMonthsAsWritten(principal: real, pay: real): (m: Option<int>)
    requires principal >= 0.0 && pay >= 0.0 && (principal > 0.0 ==> pay > 0.0)
    ensures m.None? <==> principal == 0.0 && pay == 0.0
  {
    if pay == 0.0 then None else Some(Ceil(Div(principal, pay)))
  }

  /** m payments of `pay` cover the principal and m - 1 do not. */
  predicate PaymentsCover(m: int, principal: real, pay: real)
  {
    (m as real - 1.0) * pay < principal <= m as real * pay
  }

  /**
   * The zero-rate month count as intended: the fewest monthly payments that
   * cover the principal, and no months when nothing is owed.
   */
  function ZeroRateMonths(principal: real, pay: real): (m: nat)
    requires principal >= 0.0 && pay >= 0.0 && (principal > 0.0 ==> pay > 0.0)
    ensures principal == 0.0 ==> m == 0
    ensures principal > 0.0 ==> PaymentsCover(m, principal, pay)
  {
    if principal == 0.0 then 0
    else
      var q := Div(principal, pay);
      var c := Ceil(q);
      SignFromProduct(q, pay);
      CeilCovers(principal, pay, c);
      c
  }

  /**
   * Wherever the count as written is a number it is the intended count: the
   * two differ only when nothing is owed and nothing is paid.
   */
  lemma AsWrittenAgreesWhenDefined(principal: real, pay: real)
    requires principal >= 0.0 && pay >= 0.0 && (principal > 0.0 ==> pay > 0.0)
    ensures ZeroRateMonthsAsWritten(principal, pay) ==
            if principal == 0.0 && pay == 0.0 then None else Some(ZeroRateMonths(principal, pay) as int)
  {
    if principal == 0.0 && pay > 0.0 {
      var q := Div(principal, pay);
      SignFromProduct(q, pay);
      SignFromProduct(-q, pay);
      assert (-q) * pay == -(q * pay);
      assert q == 0.0;
    }
  }

  /**
   * An interest-free loan of nothing, simulated without extra payments: the
   * payment is 0, so the count as written is `Math.ceil(0 / 0)`, NaN, where
   * the intended count, and the model's, is 0 months.
   */
  lemma NothingOwedNothingPaid(loan: Loan)
    requires ValidLoan(loan) && loan.amount == 0.0 && loan.interestRate == 0.0
    ensures var w := WhatIf(0.0, 0.0);
      SimulationDefined(loan, w) &&
      StartPrincipal(loan, w) == 0.0 && MonthlyPayment(loan, w) == 0.0 &&
      ZeroRateMonthsAsWritten(StartPrincipal(loan, w), MonthlyPayment(loan, w)) == None &&
      SimulationOf(loan, w).months == 0
  {
    var e := LoanEmi(loan);
    var n := loan.tenureMonths as real;
    assert e * n == 0.0;
    SignFromProduct(-e, n);
    assert (-e) * n == -(e * n);
  }

  /** The inputs `simulate` is modelled on (see the README for the rest). */
  predicate SimulationDefined(loan: Loan, whatIf: WhatIf)
  {
    ValidLoan(loan) && whatIf.extraEmi >= 0.0 && whatIf.prepayment >= 0.0
  }

  /** The principal after the prepayment, and the constant monthly payment. */
  function StartPrincipal(loan: Loan, whatIf: WhatIf): real
  {
    Max(0.0, loan.amount - whatIf.prepayment)
  }

  function MonthlyPayment(loan: Loan, whatIf: WhatIf): (pay: real)
    requires ValidLoan(loan)
  {
    LoanEmi(loan) + whatIf.extraEmi
  }

  lemma ZeroRatePayCovers(loan: Loan, whatIf: WhatIf)
    requires SimulationDefined(loan, whatIf) && loan.interestRate == 0.0
    ensures StartPrincipal(loan, whatIf) > 0.0 ==> MonthlyPayment(loan, whatIf) > 0.0
    ensures MonthlyPayment(loan, whatIf) >= 0.0
  {
    var n := loan.tenureMonths as real;
    var e := LoanEmi(loan);
    assert e * n == loan.amount;
    if loan.amount > 0.0 {
      SignFromProduct(e, n);
    }
  }

  /** The result of `simulate`, as a function of its inputs. */
  function SimulationOf(loan: Loan, whatIf: WhatIf): Simulation
    requires SimulationDefined(loan, whatIf)
  {
    var r := MonthlyRate(loan.interestRate);
    var principal := StartPrincipal(loan, whatIf);
    var pay := MonthlyPayment(loan, whatIf);
    var (months, interestPaid) :=
      if r == 0.0 then
        ZeroRatePayCovers(loan, whatIf);
        (ZeroRateMonths(principal, pay) as int, 0.0)
      else
        var p := Amortize(principal, r, pay, 0, 0.0);
        (p.months as int, p.interestPaid);
    var baseInterest := TotalInterest(loan.amount, loan.interestRate, loan.tenureMonths);
    Simulation(months, Max(0.0, ToFixed(baseInterest - interestPaid, 2)), ToFixed(pay, 2))
  }

  /** `simulate`, whose result is bounded as `SimulationBounds` states. */
  method Simulate(loan: Loan, whatIf: WhatIf) returns (result: Simulation)
    requires SimulationDefined(loan, whatIf)
    ensures result == SimulationOf(loan, whatIf)
    ensures result.months >= 0 && result.interestSaved >= 0.0
    ensures loan.interestRate > 0.0 ==> result.months <= MaxMonths
    ensures loan.interestRate == 0.0 ==> result.months <= loan.tenureMonths
  {
    var baseEmi := LoanEmi(loan);
    var r := MonthlyRate(loan.interestRate);
    var principal := Max(0.0, loan.amount - whatIf.prepayment);
    var months: nat := 0;
    var interestPaid := 0.0;
    var pay := baseEmi + whatIf.extraEmi;
    assert principal == StartPrincipal(loan, whatIf) && pay == MonthlyPayment(loan, whatIf);
    if r == 0.0 {
      ZeroRatePayCovers(loan, whatIf);
      months := ZeroRateMonths(principal, pay);
      interestPaid := 0.0;
    } else {
      months, interestPaid := PayDown(principal, r, pay);
    }
    var baseInterest := TotalInterest(loan.amount, loan.interestRate, loan.tenureMonths);
    var interestSaved := Max(0.0, ToFixed(baseInterest - interestPaid, 2));
    result := Simulation(months, interestSaved, ToFixed(pay, 2));
    SimulationBounds(loan, whatIf);
  }

  /**
   * The month count is never negative, at most 1200 for a loan that bears
   * interest and at most the tenure for one that does not; the interest saved
   * is never negative; the new monthly payment is the EMI plus the extra
   * payment, rounded to cents.
   */
  lemma SimulationBounds(loan: Loan, whatIf: WhatIf)
    requires SimulationDefined(loan, whatIf)
    ensures var s := SimulationOf(loan, whatIf);
      s.months >= 0 && s.interestSaved >= 0.0 &&
      (loan.interestRate > 0.0 ==> s.months <= MaxMonths) &&
      (loan.interestRate == 0.0 ==> s.months <= loan.tenureMonths) &&
      s.newEmi == ToFixed(LoanEmi(loan) + whatIf.extraEmi, 2)
  {
    if loan.interestRate == 0.0 {
      ZeroRateWithinTenure(loan, whatIf);
    }
  }

  /**
   * The month-by-month loop of `simulate` at a rate that is not zero, from
   * the principal left after the prepayment.
   */
  method PayDown(principal0: real, r: real, pay: real) returns (months: nat, interestPaid: real)
    ensures months == Amortize(principal0, r, pay, 0, 0.0).months
    ensures interestPaid == Amortize(principal0, r, pay, 0, 0.0).interestPaid
  {
    var principal := principal0;
    months := 0;
    interestPaid := 0.0;
    ghost var outcome := Amortize(principal, r, pay, 0, 0.0);
    ghost var repaid := 0.0;
    while principal > 0.0 && months < MaxMonths
      invariant months <= MaxMonths
      invariant Amortize(principal, r, pay, months, interestPaid) == outcome
      invariant principal + repaid == principal0
      invariant principal0 >= 0.0 ==> 0.0 <= principal <= principal0
      invariant r >= 0.0 ==> interestPaid >= 0.0
      decreases MaxMonths - months
    {
      var interest := principal * r;
      var principalPay := Min(principal, pay - interest);
      MonthStep(principal, r, pay, months, interestPaid, interest, principalPay);
      if principalPay <= 0.0 {
        // the payment does not cover the month's interest
        principalPay := 0.0;
        months := MaxMonths;
        break;
      }
      principal := principal - principalPay;
      repaid := repaid + principalPay;
      interestPaid := interestPaid + interest;
      months := months + 1;
    }
  }

  /** One pass of the loop of `PayDown` takes `Amortize` one month on. */
  lemma MonthStep(principal: real, r: real, pay: real, months: nat, interestPaid: real,
                  interest: real, principalPay: real)
    requires principal > 0.0 && months < MaxMonths
    requires interest == principal * r && principalPay == Min(principal, pay - interest)
    ensures r >= 0.0 ==> interest >= 0.0
    ensures principalPay <= 0.0 ==>
      Amortize(principal, r, pay, months, interestPaid) == Payoff(MaxMonths, interestPaid, principal, true)
    ensures principalPay > 0.0 ==>
      Amortize(principal, r, pay, months, interestPaid) ==
      Amortize(principal - principalPay, r, pay, months + 1, interestPaid + interest)
  {
    if r >= 0.0 {
      MulNonNeg(principal, r);
    }
  }

  /**
   * Without extra payments or prepayments an interest-free loan takes exactly
   * its tenure and saves nothing.
   */
  lemma ZeroRatePlanKeepsTenure(loan: Loan)
    requires ValidLoan(loan) && loan.interestRate == 0.0 && loan.amount > 0.0
    ensures SimulationDefined(loan, WhatIf(0.0, 0.0))
    ensures SimulationOf(loan, WhatIf(0.0, 0.0)).months == loan.tenureMonths
    ensures SimulationOf(loan, WhatIf(0.0, 0.0)).interestSaved == 0.0
  {
    var whatIf := WhatIf(0.0, 0.0);
    var n := loan.tenureMonths as real;
    var e := LoanEmi(loan);
    assert e * n == loan.amount;
    SignFromProduct(e, n);
    ZeroRatePayCovers(loan, whatIf);
    var m := ZeroRateMonths(loan.amount, e);
    assert loan.amount == n * e;
    CoverCount(m, loan.tenureMonths, loan.amount, e);
    ToFixedOfZero(2);
  }

  /** At a zero rate the plan never takes longer than the tenure. */
  lemma ZeroRateWithinTenure(loan: Loan, whatIf: WhatIf)
    requires SimulationDefined(loan, whatIf) && loan.interestRate == 0.0
    ensures MonthlyPayment(loan, whatIf) >= 0.0
    ensures StartPrincipal(loan, whatIf) > 0.0 ==> MonthlyPayment(loan, whatIf) > 0.0
    ensures ZeroRateMonths(StartPrincipal(loan, whatIf), MonthlyPayment(loan, whatIf)) <= loan.tenureMonths
  {
    ZeroRatePayCovers(loan, whatIf);
    var principal, pay := StartPrincipal(loan, whatIf), MonthlyPayment(loan, whatIf);
    var m := ZeroRateMonths(principal, pay);
    if principal > 0.0 {
      var n := loan.tenureMonths as real;
      var e := LoanEmi(loan);
      assert e * n == loan.amount;
      WithinInstalments(principal, loan.amount, e, pay, n);
      CoverCount(m, loan.tenureMonths, principal, pay);
    }
  }

  /** What is owed is at most the amount, n e, so n payments of at least e cover it. */
  lemma WithinInstalments(principal: real, amount: real, e: real, pay: real, n: real)
    requires principal <= amount && e * n == amount && e <= pay && n >= 0.0
    ensures principal <= n * pay
  {
    MulLe(e, pay, n);
    assert pay * n == n * pay;
  }

  /**
   * Owing less and paying more never makes the loop run longer: month by
   * month the smaller plan owes no more than the larger, and it stalls only
   * where the larger stalls too.
   */
  lemma {:induction false} PayingMoreNeverTakesLonger(p1: real, p2: real, r: real, pay1: real, pay2: real,
                                                      months: nat, i1: real, i2: real)
    requires months <= MaxMonths && r >= 0.0 && 0.0 <= p1 <= p2 && pay1 >= pay2
    ensures Amortize(p1, r, pay1, months, i1).months <= Amortize(p2, r, pay2, months, i2).months
    decreases MaxMonths - months
  {
    if p1 > 0.0 && months < MaxMonths {
      var interest1, rest1, stalls1 := OneMonth(p1, r, pay1, months, i1);
      var interest2, rest2, stalls2 := OneMonth(p2, r, pay2, months, i2);
      InterestOrdered(p1, p2, r, interest1, interest2);
      MonthsCompare(p1, p2, pay1, pay2, interest1, interest2, rest1, rest2);
      if !stalls1 && !stalls2 {
        PayingMoreNeverTakesLonger(rest1, rest2, r, pay1, pay2, months + 1, i1 + interest1, i2 + interest2);
      }
    }
  }

  /**
   * One month of the loop, over plain names: the interest charged, the
   * principal left, and whether the payment failed to cover the interest.
   */
  lemma OneMonth(principal: real, r: real, pay: real, months: nat, interestPaid: real)
    returns (interest: real, rest: real, stalls: bool)
    requires principal > 0.0 && months < MaxMonths
    ensures interest == principal * r && (r >= 0.0 ==> interest >= 0.0)
    ensures stalls <==> pay - interest <= 0.0
    ensures rest == principal - Min(principal, pay - interest) && 0.0 <= rest
    ensures stalls ==> Amortize(principal, r, pay, months, interestPaid) == Payoff(MaxMonths, interestPaid, principal, true)
    ensures !stalls ==> Amortize(principal, r, pay, months, interestPaid) ==
                        Amortize(rest, r, pay, months + 1, interestPaid + interest)
  {
    interest := principal * r;
    rest := principal - Min(principal, pay - interest);
    stalls := pay - interest <= 0.0;
    if r >= 0.0 {
      MulNonNeg(principal, r);
    }
  }

  lemma InterestOrdered(p1: real, p2: real, r: real, i1: real, i2: real)
    requires p1 <= p2 && r >= 0.0 && i1 == p1 * r && i2 == p2 * r
    ensures i1 <= i2
  {
    MulLe(p1, p2, r);
  }

  /** Of two months, the one owing less and paying more leaves less and stalls no sooner. */
  lemma MonthsCompare(p1: real, p2: real, pay1: real, pay2: real, i1: real, i2: real, rest1: real, rest2: real)
    requires 0.0 < p1 <= p2 && pay1 >= pay2 && i1 <= i2
    requires rest1 == p1 - Min(p1, pay1 - i1) && rest2 == p2 - Min(p2, pay2 - i2)
    ensures rest1 <= rest2
    ensures pay1 - i1 <= 0.0 ==> pay2 - i2 <= 0.0
  {
  }

  /** At a zero rate, too, owing less and paying more never takes more months. */
  lemma ZeroRateMonthsMonotone(p1: real, p2: real, pay1: real, pay2: real)
    requires 0.0 <= p1 <= p2 && pay1 >= pay2 >= 0.0 && (p2 > 0.0 ==> pay2 > 0.0)
    ensures ZeroRateMonths(p1, pay1) <= ZeroRateMonths(p2, pay2)
  {
    if p1 > 0.0 {
      CoverMonotone(ZeroRateMonths(p1, pay1), ZeroRateMonths(p2, pay2), p1, p2, pay1, pay2);
    }
  }

  /** Counts of payments that cover the principals order as the principals and payments do. */
  lemma CoverMonotone(m1: int, m2: int, p1: real, p2: real, pay1: real, pay2: real)
    requires PaymentsCover(m1, p1, pay1) && PaymentsCover(m2, p2, pay2)
    requires 0.0 < p1 <= p2 && pay1 >= pay2 > 0.0 && m2 >= 0
    ensures m1 <= m2
  {
    if m2 < m1 {
      MulLe(pay2, pay1, m2 as real);
      MulLe(m2 as real, m1 as real - 1.0, pay1);
    }
  }

  /**
   * A larger extra payment and a larger prepayment never make the simulated
   * payoff take more months.
   */
  lemma PayingMoreNeverLonger(loan: Loan, less: WhatIf, more: WhatIf)
    requires SimulationDefined(loan, less) && SimulationDefined(loan, more)
    requires less.extraEmi <= more.extraEmi && less.prepayment <= more.prepayment
    ensures SimulationOf(loan, more).months <= SimulationOf(loan, less).months
  {
    var r := MonthlyRate(loan.interestRate);
    var p1, p2 := StartPrincipal(loan, more), StartPrincipal(loan, less);
    var pay1, pay2 := MonthlyPayment(loan, more), MonthlyPayment(loan, less);
    if r == 0.0 {
      ZeroRatePayCovers(loan, less);
      ZeroRatePayCovers(loan, more);
      ZeroRateMonthsMonotone(p1, p2, pay1, pay2);
    } else {
      PayingMoreNeverTakesLonger(p1, p2, r, pay1, pay2, 0, 0.0, 0.0);
    }
  }

  /**
   * Once a payment covers a month's interest it covers every later month's
   * too, because the principal only shrinks: the loop then never stalls.
   */
  lemma {:induction false} CoveredPlanNeverStalls(principal: real, r: real, pay: real, months: nat, interestPaid: real)
    requires months <= MaxMonths && r >= 0.0 && principal >= 0.0 && pay > principal * r
    ensures !Amortize(principal, r, pay, months, interestPaid).stalled
    decreases MaxMonths - months
  {
    if principal > 0.0 && months < MaxMonths {
      var interest := principal * r;
      var principalPay := Min(principal, pay - interest);
      var rest := principal - principalPay;
      MulNonNeg(principal - rest, r);
      assert principal * r - rest * r == (principal - rest) * r;
      CoveredPlanNeverStalls(rest, r, pay, months + 1, interestPaid + interest);
    }
  }

  /**
   * A plan that stalls does so in its first month: it pays no interest and
   * leaves the principal as it found it.
   */
  lemma StallsOnlyInFirstMonth(principal: real, r: real, pay: real)
    requires r >= 0.0 && principal >= 0.0
    requires Amortize(principal, r, pay, 0, 0.0).stalled
    ensures pay <= principal * r
    ensures Amortize(principal, r, pay, 0, 0.0) == Payoff(MaxMonths, 0.0, principal, true)
  {
    if pay > principal * r {
      CoveredPlanNeverStalls(principal, r, pay, 0, 0.0);
    }
  }

  /**
   * With the EMI unrounded, no prepayment below zero and no extra payment
   * below zero, the first month's payment covers its interest, so the
   * simulation never stalls.
   */
  lemma AnnuityPlanNeverStalls(amount: real, r: real, n: nat, extraEmi: real, prepayment: real)
    requires r > 0.0 && n >= 1 && amount >= 0.0 && extraEmi >= 0.0 && prepayment >= 0.0
    ensures !Amortize(Max(0.0, amount - prepayment), r, AnnuityPayment(amount, r, n) + extraEmi, 0, 0.0).stalled
  {
    var principal := Max(0.0, amount - prepayment);
    if principal > 0.0 {
      AnnuityBounds(amount, r, n);
      MulNonNeg(amount - principal, r);
      assert amount * r - principal * r == (amount - principal) * r;
      assert principal * r <= amount * r < AnnuityPayment(amount, r, n);
      CoveredPlanNeverStalls(principal, r, AnnuityPayment(amount, r, n) + extraEmi, 0, 0.0);
    }
  }

  /** A stalled plan is reported as taking 1200 months and saving the whole baseline interest. */
  lemma StalledPlanSavesBaseline(loan: Loan, whatIf: WhatIf)
    requires SimulationDefined(loan, whatIf) && loan.interestRate > 0.0
    requires Amortize(StartPrincipal(loan, whatIf), MonthlyRate(loan.interestRate),
                      MonthlyPayment(loan, whatIf), 0, 0.0).stalled
    ensures SimulationOf(loan, whatIf).months == MaxMonths
    ensures SimulationOf(loan, whatIf).interestSaved ==
            Max(0.0, ToFixed(TotalInterest(loan.amount, loan.interestRate, loan.tenureMonths), 2))
  {
    var r := MonthlyRate(loan.interestRate);
    StallsOnlyInFirstMonth(StartPrincipal(loan, whatIf), r, MonthlyPayment(loan, whatIf));
    var t := TotalInterest(loan.amount, loan.interestRate, loan.tenureMonths);
    assert t - 0.0 == t;
  }

  /**
   * Month j + 1 of the balance schedule `bs`: a month's interest at rate r
   * is charged and the payment e taken, and the balance falls, though not
   * below zero.
   */
  predicate MonthFalls(bs: seq<real>, r: real, e: real, j: nat)
    requires j + 1 < |bs|
  {
    bs[j + 1] == bs[j] * (1.0 + r) - e && 0.0 <= bs[j + 1] < bs[j]
  }

  /**
   * Any schedule whose balance falls every month and is zero after the last
   * one: run from month k with its balance and the interest paid so far,
   * the loop clears the loan in the last month without stalling, having paid
   * every payment less the principal in interest.
   */
  lemma {:induction false} ShrinkingScheduleFrom(bs: seq<real>, r: real, e: real, k: nat, paid: real)
    requires k < |bs| <= MaxMonths + 1 && bs[|bs| - 1] == 0.0
    requires forall j :: k <= j < |bs| - 1 ==> MonthFalls(bs, r, e, j)
    requires paid == Payments(e, k) - bs[0] + bs[k]
    ensures Amortize(bs[k], r, e, k, paid) ==
            Payoff(|bs| - 1, Payments(e, |bs| - 1) - bs[0], 0.0, false)
    decreases |bs| - k
  {
    if k < |bs| - 1 {
      assert MonthFalls(bs, r, e, k);
      MonthOfSchedule(bs[k], bs[k + 1], r, e);
      AmortizeStep(bs[k], r, e, k, paid, bs[k + 1]);
      ShrinkingScheduleFrom(bs, r, e, k + 1, paid + bs[k] * r);
    }
  }

  /** The sum of k payments of e. */
  function Payments(e: real, k: nat): real
  {
    if k == 0 then 0.0 else Payments(e, k - 1) + e
  }

  lemma {:induction false} PaymentsSum(e: real, k: nat)
    ensures Payments(e, k) == k as real * e
  {
    if k > 0 {
      PaymentsSum(e, k - 1);
      assert k as real * e == (k - 1) as real * e + e;
    }
  }

  /**
   * The exact annuity schedule's first n + 1 balances: they start at the
   * principal, fall every month and are zero after month n.
   */
  lemma AnnuityScheduleShrinks(amount: real, r: real, n: nat, e: real) returns (bs: seq<real>)
    requires r > 0.0 && amount > 0.0 && n >= 1
    requires e == AnnuityPayment(amount, r, n)
    ensures |bs| == n + 1 && bs[0] == amount && bs[n] == 0.0
    ensures forall j :: 0 <= j < n ==> MonthFalls(bs, r, e, j)
  {
    bs := seq(n + 1, j requires 0 <= j <= n => Balance(amount, r, e, j));
    AnnuityPaysOff(amount, r, n, e);
    forall j | 0 <= j < n
      ensures MonthFalls(bs, r, e, j)
    {
      AnnuityMonthFalls(amount, r, n, e, bs, j);
    }
  }

  /** Month j of the annuity schedule, as a step of the balances bs. */
  lemma AnnuityMonthFalls(amount: real, r: real, n: nat, e: real, bs: seq<real>, j: nat)
    requires r > 0.0 && amount > 0.0 && n >= 1 && j < n && e == AnnuityPayment(amount, r, n)
    requires |bs| == n + 1 && bs[n] == 0.0
    requires bs[j] == Balance(amount, r, e, j) && bs[j + 1] == Balance(amount, r, e, j + 1)
    ensures MonthFalls(bs, r, e, j)
  {
    if j + 1 < n {
      AnnuityBalancePositive(amount, r, n, j + 1, e);
    }
    AnnuityBalanceDecreases(amount, r, n, j, e);
  }

  /**
   * The EMI the simulator pays is rounded to cents, so a plan can stall even
   * with no extra payment: a one-month loan of 0.004 at 12% a year has an
   * annuity payment of 0.00404, an EMI of 0, and the loop stops at 1200
   * months instead of the one-month tenure.
   */
  lemma RoundedEmiCanStall()
    ensures var loan, w := Loan(None, None, "Loan", 0.004, 12.0, 1), WhatIf(0.0, 0.0);
      SimulationDefined(loan, w) && LoanEmi(loan) == 0.0 &&
      Amortize(StartPrincipal(loan, w), MonthlyRate(loan.interestRate), MonthlyPayment(loan, w), 0, 0.0).stalled &&
      SimulationOf(loan, w).months == MaxMonths
  {
    var loan, w := Loan(None, None, "Loan", 0.004, 12.0, 1), WhatIf(0.0, 0.0);
    var r := MonthlyRate(12.0);
    assert r == 0.01;
    assert Pow(1.0 + r, 1) == 1.01;
    assert AnnuityPayment(0.004, r, 1) == 0.00404;
    assert DecimalScale(2) == 100;
    assert Round(0.00404 * 100.0) == 0;
    assert LoanEmi(loan) == 0.0;
    assert StartPrincipal(loan, w) == 0.004;
    assert Amortize(0.004, r, 0.0, 0, 0.0) == Payoff(MaxMonths, 0.0, 0.004, true);
  }

  /**
   * Paying the unrounded EMI takes exactly the tenure and pays exactly the
   * schedule's interest.
   */
  lemma AnnuityPlanKeepsTenure(amount: real, r: real, n: nat, e: real)
    requires r > 0.0 && amount > 0.0 && 1 <= n <= MaxMonths
    requires e == AnnuityPayment(amount, r, n)
    ensures Amortize(amount, r, e, 0, 0.0) == Payoff(n, n as real * e - amount, 0.0, false)
  {
    var bs := AnnuityScheduleShrinks(amount, r, n, e);
    ShrinkingSchedule(bs, amount, r, e, n);
  }

  /** A shrinking schedule of n months run from its start. */
  lemma ShrinkingSchedule(bs: seq<real>, amount: real, r: real, e: real, n: nat)
    requires |bs| == n + 1 && n <= MaxMonths && bs[0] == amount && bs[n] == 0.0
    requires forall j :: 0 <= j < n ==> MonthFalls(bs, r, e, j)
    ensures Amortize(amount, r, e, 0, 0.0) == Payoff(n, n as real * e - amount, 0.0, false)
  {
    ShrinkingScheduleFrom(bs, r, e, 0, 0.0);
    PaymentsSum(e, n);
  }

  /**
   * If m payments are the fewest that cover the principal and n payments
   * cover it too, then m <= n, with equality when n payments come to exactly
   * the principal.
   */
  lemma CoverCount(m: int, n: int, principal: real, pay: real)
    requires pay > 0.0 && PaymentsCover(m, principal, pay) && principal <= n as real * pay
    ensures m <= n
    ensures principal == n as real * pay ==> m == n
  {
    if m > n {
      MulLe(n as real, m as real - 1.0, pay);
    }
    if principal == n as real * pay && m < n {
      MulStrict(m as real, n as real, pay);
    }
  }

  /** One month of the loop in which the payment repays principal - rest. */
  lemma AmortizeStep(principal: real, r: real, pay: real, months: nat, interestPaid: real, rest: real)
    requires months < MaxMonths && 0.0 <= rest < principal && pay - principal * r == principal - rest
    ensures Amortize(principal, r, pay, months, interestPaid) ==
            Amortize(rest, r, pay, months + 1, interestPaid + principal * r)
  {
    assert principal - Min(principal, pay - principal * r) == rest;
  }

  lemma MonthOfSchedule(b: real, b': real, r: real, e: real)
    requires b' == b * (1.0 + r) - e
    ensures e - b * r == b - b'
    ensures b + b * r == e + b'
  {
    assert b * (1.0 + r) == b + b * r;
  }

  lemma CeilCovers(principal: real, pay: real, c: int)
    requires pay > 0.0 && principal > 0.0
    requires Div(principal, pay) <= c as real < Div(principal, pay) + 1.0
    ensures PaymentsCover(c, principal, pay)
  {
    var q := Div(principal, pay);
    MulStrict(c as real - 1.0, q, pay);
    MulLe(q, c as real, pay);
  }
}
