/**
 * Amortisation helpers of the finance engine: the monthly instalment (EMI) of
 * a loan and the interest its schedule costs. The loan record itself is the
 * one every other part of the engine reads.
 */
module Amortization {
  import opened Wrappers
  import opened JsMath

  /**
   * A loan as the engine reads it: the document's `_id`, a caller-side `id`,
   * a display name, the principal, the annual interest rate in percent and the
   * tenure in months.
   */
  datatype Loan = Loan(
    mongoId: Option<string>,
    id: Option<string>,
    name: string,
    amount: real,
    interestRate: real,
    tenureMonths: int)

  /** The monthly rate as a fraction: annual percent / 12 / 100. */
  function MonthlyRate(annualRate: real): (r: real)
    ensures r * 1200.0 == annualRate
  {
    annualRate / 12.0 / 100.0
  }

  /**
   * The inputs on which `emi` computes a number: a rate that is not negative
   * (the loan schema's minimum) and, for a positive rate, a tenure of at least
   * one month, where the annuity formula does not divide by zero.
   */
  predicate EmiDefined(annualRate: real, tenureMonths: int)
  {
    annualRate >= 0.0 && (annualRate > 0.0 ==> tenureMonths >= 1)
  }

  predicate LoanEmiDefined(l: Loan)
  {
    EmiDefined(l.interestRate, l.tenureMonths)
  }

  predicate AllEmiDefined(loans: seq<Loan>)
  {
    forall i :: 0 <= i < |loans| ==> LoanEmiDefined(loans[i])
  }

  /** A loan as the loan schema admits it. */
  predicate ValidLoan(l: Loan)
  {
    l.amount >= 0.0 && l.interestRate >= 0.0 && l.tenureMonths >= 1
  }

  lemma {:induction false} PowAboveOne(r: real, n: nat)
    requires r >= 0.0
    ensures Pow(1.0 + r, n) >= 1.0
    ensures r > 0.0 && n >= 1 ==> Pow(1.0 + r, n) > 1.0
  {
    if n > 0 {
      PowAboveOne(r, n - 1);
      var q := Pow(1.0 + r, n - 1);
      assert Pow(1.0 + r, n) == q + r * q;
      assert r * q >= 0.0;
      assert r > 0.0 ==> r * q > 0.0;
    }
  }

  /** Growth of (1+r)^n is at most n r (1+r)^n: (1+r)^n - 1 <= n r (1+r)^n. */
  lemma {:induction false} PowGrowth(r: real, n: nat)
    requires r >= 0.0
    ensures Pow(1.0 + r, n) - 1.0 <= (n as real) * r * Pow(1.0 + r, n)
  {
    if n > 0 {
      PowGrowth(r, n - 1);
      PowAboveOne(r, n - 1);
      var q := Pow(1.0 + r, n - 1);
      assert Pow(1.0 + r, n) == (1.0 + r) * q;
      GrowthStep(q, r, (n - 1) as real);
    }
  }

  lemma {:induction false} PowIncreasing(r: real, k: nat, n: nat)
    requires r > 0.0 && k < n
    ensures Pow(1.0 + r, k) < Pow(1.0 + r, n)
    decreases n - k
  {
    PowAboveOne(r, n - 1);
    var q := Pow(1.0 + r, n - 1);
    assert Pow(1.0 + r, n) == (1.0 + r) * q;
    StrictGrowth(q, r);
    if k < n - 1 {
      PowIncreasing(r, k, n - 1);
    }
  }

  /**
   * The annuity payment: the constant monthly amount that repays `amount` in
   * n months at monthly rate r, amount r (1+r)^n / ((1+r)^n - 1).
   */
  function AnnuityPayment(amount: real, r: real, n: nat): real
    requires r > 0.0 && n >= 1
  {
    PowAboveOne(r, n);
    var p := Pow(1.0 + r, n);
    Div(amount * r * p, p - 1.0)
  }

  /**
   * `emi(amount, annualRate, tenureMonths)`: at a zero rate the principal
   * spread evenly over the tenure, exactly and unrounded (0 for a tenure of no
   * months); at a positive rate the annuity payment rounded to cents.
   */
  function Emi(amount: real, annualRate: real, tenureMonths: int): (e: real)
    requires EmiDefined(annualRate, tenureMonths)
    ensures annualRate == 0.0 && tenureMonths > 0 ==> e * tenureMonths as real == amount
    ensures annualRate == 0.0 && tenureMonths <= 0 ==> e == 0.0
    ensures annualRate > 0.0 ==>
      AnnuityPayment(amount, MonthlyRate(annualRate), tenureMonths) - 0.005 <= e <=
      AnnuityPayment(amount, MonthlyRate(annualRate), tenureMonths) + 0.005
    ensures amount >= 0.0 ==> e >= 0.0
  {
    var r := MonthlyRate(annualRate);
    if r == 0.0 then
      (if tenureMonths > 0 then amount / tenureMonths as real else 0.0)
    else
      assert DecimalScale(2) == 100;
      if amount >= 0.0 then AnnuityBounds(amount, r, tenureMonths); ToFixed(AnnuityPayment(amount, r, tenureMonths), 2)
      else ToFixed(AnnuityPayment(amount, r, tenureMonths), 2)
  }

  /** The EMI of one loan record. */
  function LoanEmi(l: Loan): real
    requires LoanEmiDefined(l)
  {
    Emi(l.amount, l.interestRate, l.tenureMonths)
  }

  /**
   * The annuity payment repays at least the interest-free instalment
   * amount / n, and strictly more than one month's interest on the principal.
   */
  lemma AnnuityBounds(amount: real, r: real, n: nat)
    requires r > 0.0 && n >= 1 && amount >= 0.0
    ensures AnnuityPayment(amount, r, n) >= amount / n as real
    ensures amount > 0.0 ==> AnnuityPayment(amount, r, n) > amount * r
  {
    PowAboveOne(r, n);
    PowGrowth(r, n);
    var p := Pow(1.0 + r, n);
    var e := AnnuityPayment(amount, r, n);
    assert e * (p - 1.0) == amount * r * p;
    AnnuityAboveInstalment(amount, r, p, n as real, e);
    if amount > 0.0 {
      AnnuityAboveInterest(amount, r, p, e);
    }
  }

  /**
   * The balance left after k months of a schedule that charges rate r on the
   * balance each month and then takes a payment.
   */
  function Balance(amount: real, r: real, payment: real, k: nat): real
  {
    if k == 0 then amount else Balance(amount, r, payment, k - 1) * (1.0 + r) - payment
  }

  /** The closed form of the schedule, B_k r == amount r (1+r)^k - payment ((1+r)^k - 1). */
  predicate ClosedForm(amount: real, r: real, payment: real, b: real, pk: real)
  {
    b * r == amount * r * pk - payment * (pk - 1.0)
  }

  /**
   * The balance b == B_k after k months obeys the closed form with
   * pk == (1+r)^k; b and pk are returned so that the solver's arithmetic sees
   * plain unknowns.
   */
  lemma {:induction false} BalanceClosedForm(amount: real, r: real, payment: real, k: nat)
    returns (b: real, pk: real)
    ensures b == Balance(amount, r, payment, k) && pk == Pow(1.0 + r, k)
    ensures ClosedForm(amount, r, payment, b, pk)
  {
    if k == 0 {
      b, pk := amount, 1.0;
    } else {
      var b0, q := BalanceClosedForm(amount, r, payment, k - 1);
      b, pk := ClosedStep(amount, r, payment, k, b0, q);
    }
  }

  /** The defining identity of the annuity payment, e ((1+r)^n - 1) == amount r (1+r)^n. */
  lemma AnnuityIdentity(amount: real, r: real, n: nat, e: real) returns (p: real)
    requires r > 0.0 && n >= 1 && e == AnnuityPayment(amount, r, n)
    ensures p == Pow(1.0 + r, n) && p > 1.0
    ensures e * (p - 1.0) == amount * r * p
  {
    PowAboveOne(r, n);
    p := Pow(1.0 + r, n);
  }

  /**
   * Under the annuity payment e the balance b after k of n months is
   * amount ((1+r)^n - (1+r)^k) / ((1+r)^n - 1).
   */
  lemma AnnuityBalance(amount: real, r: real, n: nat, k: nat, e: real) returns (b: real, p: real, pk: real)
    requires r > 0.0 && n >= 1 && e == AnnuityPayment(amount, r, n)
    ensures b == Balance(amount, r, e, k) && p == Pow(1.0 + r, n) && pk == Pow(1.0 + r, k) && p > 1.0
    ensures b * (p - 1.0) == amount * (p - pk)
  {
    b, pk := BalanceClosedForm(amount, r, e, k);
    p := AnnuityIdentity(amount, r, n, e);
    AnnuityBalanceStep(amount, r, e, b, p, pk);
  }

  /** Paying the annuity payment every month clears the loan after exactly n months. */
  lemma AnnuityPaysOff(amount: real, r: real, n: nat, e: real)
    requires r > 0.0 && n >= 1 && e == AnnuityPayment(amount, r, n)
    ensures Balance(amount, r, e, n) == 0.0
  {
    var b, p, pk := AnnuityBalance(amount, r, n, n, e);
    ZeroFactor(b, p, amount, pk);
  }

  /** Before the last month the annuity schedule still owes something. */
  lemma AnnuityBalancePositive(amount: real, r: real, n: nat, k: nat, e: real)
    requires r > 0.0 && n >= 1 && k < n && amount > 0.0 && e == AnnuityPayment(amount, r, n)
    ensures Balance(amount, r, e, k) > 0.0
  {
    var b, p, pk := AnnuityBalance(amount, r, n, k, e);
    PowIncreasing(r, k, n);
    PositiveBalance(b, p, amount, pk);
  }

  /**
   * The annuity schedule owes strictly less each month: the payment always
   * exceeds the month's interest on what is still owed.
   */
  lemma AnnuityBalanceDecreases(amount: real, r: real, n: nat, k: nat, e: real)
    requires r > 0.0 && amount > 0.0 && n >= 1 && e == AnnuityPayment(amount, r, n)
    ensures Balance(amount, r, e, k) * r < e
    ensures Balance(amount, r, e, k + 1) < Balance(amount, r, e, k)
  {
    var b, pk := BalanceClosedForm(amount, r, e, k);
    AnnuityBounds(amount, r, n);
    PowAboveOne(r, k);
    InterestBelowPayment(b, r, amount, e, pk);
    assert b * (1.0 + r) == b + b * r;
  }

  /**
   * `totalInterest(amount, annualRate, tenureMonths)`: what the EMI schedule
   * pays above the principal, rounded to cents. Interest-free loans cost
   * nothing; at a positive rate only the rounding of the EMI and of the
   * result, at most half a cent a month and half a cent once, can make it
   * negative.
   */
  function TotalInterest(amount: real, annualRate: real, tenureMonths: int): (t: real)
    requires EmiDefined(annualRate, tenureMonths)
    ensures annualRate == 0.0 && tenureMonths > 0 ==> t == 0.0
    ensures annualRate > 0.0 && amount >= 0.0 ==> t >= -(tenureMonths as real + 1.0) / 200.0
    ensures var cost := Emi(amount, annualRate, tenureMonths) * tenureMonths as real - amount;
      cost - 0.005 <= t <= cost + 0.005
  {
    var cost := Emi(amount, annualRate, tenureMonths) * tenureMonths as real - amount;
    InterestBeforeRounding(amount, annualRate, tenureMonths);
    assert DecimalScale(2) == 100;
    ToFixedOfZero(2);
    ToFixed(cost, 2)
  }

  /** The total interest is a whole number of cents. */
  lemma TotalInterestInCents(amount: real, annualRate: real, tenureMonths: int) returns (cents: int)
    requires EmiDefined(annualRate, tenureMonths)
    ensures TotalInterest(amount, annualRate, tenureMonths) * 100.0 == cents as real
  {
    var cost := Emi(amount, annualRate, tenureMonths) * tenureMonths as real - amount;
    assert DecimalScale(2) == 100;
    cents := ToFixedSteps(cost, 2);
  }

  /**
   * Before the final rounding: at a zero rate the EMI schedule repays exactly
   * the principal; at a positive rate it is within half a cent a month of the
   * unrounded annuity schedule, and for a non-negative principal it costs no
   * less than minus half a cent a month, the most the EMI's own rounding can
   * take off.
   */
  lemma InterestBeforeRounding(amount: real, annualRate: real, tenureMonths: int)
    requires EmiDefined(annualRate, tenureMonths)
    ensures annualRate == 0.0 && tenureMonths > 0 ==>
      Emi(amount, annualRate, tenureMonths) * tenureMonths as real - amount == 0.0
    ensures annualRate > 0.0 ==>
      var exact := AnnuityPayment(amount, MonthlyRate(annualRate), tenureMonths) * tenureMonths as real - amount;
      var cost := Emi(amount, annualRate, tenureMonths) * tenureMonths as real - amount;
      exact - 0.005 * tenureMonths as real <= cost <= exact + 0.005 * tenureMonths as real
    ensures annualRate > 0.0 && amount >= 0.0 ==>
      Emi(amount, annualRate, tenureMonths) * tenureMonths as real - amount >= -0.005 * tenureMonths as real
  {
    if annualRate > 0.0 {
      var r := MonthlyRate(annualRate);
      var e, raw := Emi(amount, annualRate, tenureMonths), AnnuityPayment(amount, r, tenureMonths);
      ScaledWithin(e, raw, tenureMonths as real);
      if amount >= 0.0 {
        AnnuityBounds(amount, r, tenureMonths);
        RoundedScheduleCost(e, raw, amount, tenureMonths as real);
      }
    }
  }

  /**
   * Without rounding the schedule never costs less than the principal: the
   * annuity payment over n months minus the principal is not negative.
   */
  lemma ExactInterestNonNegative(amount: real, r: real, n: nat)
    requires r > 0.0 && n >= 1 && amount >= 0.0
    ensures AnnuityPayment(amount, r, n) * n as real - amount >= 0.0
  {
    AnnuityBounds(amount, r, n);
    InstalmentsCoverPrincipal(AnnuityPayment(amount, r, n), amount, n as real);
  }

  // Arithmetic steps over plain reals, kept apart so that each proof sees
  // only the few terms it needs.

  lemma GrowthStep(q: real, r: real, m: real)
    requires r >= 0.0 && q >= 1.0 && m >= 0.0 && q - 1.0 <= m * r * q
    ensures (1.0 + r) * q - 1.0 <= (m + 1.0) * r * ((1.0 + r) * q)
  {
    assert (1.0 + r) * q - 1.0 == (q - 1.0) + r * q;
    assert (m + 1.0) * r * q == m * r * q + r * q;
    assert (m + 1.0) * r * ((1.0 + r) * q) == (m + 1.0) * r * q + (m + 1.0) * r * q * r;
    var t := (m + 1.0) * r * q;
    assert t >= 0.0;
    assert t * r >= 0.0;
  }

  lemma StrictGrowth(q: real, r: real)
    requires r > 0.0 && q >= 1.0
    ensures q < (1.0 + r) * q
  {
    assert (1.0 + r) * q == q + r * q;
    assert r * q > 0.0;
  }

  lemma ClosedStep(a: real, r: real, e: real, k: nat, b: real, q: real) returns (b': real, q': real)
    requires k >= 1 && b == Balance(a, r, e, k - 1) && q == Pow(1.0 + r, k - 1)
    requires ClosedForm(a, r, e, b, q)
    ensures b' == Balance(a, r, e, k) && q' == Pow(1.0 + r, k)
    ensures ClosedForm(a, r, e, b', q')
  {
    b' := BalanceStep(a, r, e, k, b);
    q' := PowStep(r, k, q);
    ClosedFormStep(a, r, e, b, q, b', q');
  }

  lemma BalanceStep(a: real, r: real, e: real, k: nat, b: real) returns (b': real)
    requires k >= 1 && b == Balance(a, r, e, k - 1)
    ensures b' == Balance(a, r, e, k) && b' == b * (1.0 + r) - e
  {
    b' := b * (1.0 + r) - e;
  }

  lemma PowStep(r: real, k: nat, q: real) returns (q': real)
    requires k >= 1 && q == Pow(1.0 + r, k - 1)
    ensures q' == Pow(1.0 + r, k) && q' == (1.0 + r) * q
  {
    q' := (1.0 + r) * q;
  }

  lemma ClosedFormStep(a: real, r: real, e: real, b: real, q: real, b': real, q': real)
    requires ClosedForm(a, r, e, b, q)
    requires b' == b * (1.0 + r) - e && q' == (1.0 + r) * q
    ensures ClosedForm(a, r, e, b', q')
  {
    assert b' * r == (b * r) * (1.0 + r) - e * r;
  }

  lemma AnnuityBalanceStep(a: real, r: real, e: real, b: real, p: real, pk: real)
    requires r > 0.0
    requires ClosedForm(a, r, e, b, pk)
    requires e * (p - 1.0) == a * r * p
    ensures b * (p - 1.0) == a * (p - pk)
  {
    assert r * (b * (p - 1.0)) == (a * r * pk - e * (pk - 1.0)) * (p - 1.0);
    assert (a * r * pk - e * (pk - 1.0)) * (p - 1.0) == a * r * pk * (p - 1.0) - (e * (p - 1.0)) * (pk - 1.0);
    assert a * r * pk * (p - 1.0) - (a * r * p) * (pk - 1.0) == r * (a * (p - pk));
    assert r * (b * (p - 1.0)) == r * (a * (p - pk));
  }

  lemma InterestBelowPayment(b: real, r: real, a: real, e: real, pk: real)
    requires ClosedForm(a, r, e, b, pk) && e > a * r && pk >= 1.0
    ensures b * r < e
  {
    MulPos(pk, e - a * r);
    assert b * r - e == -(pk * (e - a * r));
  }

  lemma ZeroFactor(b: real, p: real, a: real, pk: real)
    requires b * (p - 1.0) == a * (p - pk) && p > 1.0 && pk == p
    ensures b == 0.0
  {
    if b > 0.0 {
      MulPos(b, p - 1.0);
    } else if b < 0.0 {
      MulPos(-b, p - 1.0);
    }
  }

  lemma PositiveBalance(b: real, p: real, a: real, pk: real)
    requires b * (p - 1.0) == a * (p - pk) && p > 1.0 && a > 0.0 && pk < p
    ensures b > 0.0
  {
    PositiveFactor(b, p - 1.0, a, p - pk);
  }

  lemma PositiveFactor(b: real, c: real, a: real, d: real)
    requires b * c == a * d && c > 0.0 && a > 0.0 && d > 0.0
    ensures b > 0.0
  {
    assert a * d > 0.0;
  }

  lemma AnnuityAboveInstalment(amount: real, r: real, p: real, nn: real, e: real)
    requires amount >= 0.0 && r > 0.0 && p > 1.0 && nn > 0.0
    requires p - 1.0 <= nn * r * p && e * (p - 1.0) == amount * r * p
    ensures e >= amount / nn
  {
    assert (e * nn) * (p - 1.0) == amount * (nn * r * p);
    MulNonNeg(amount, nn * r * p - (p - 1.0));
    assert amount * (nn * r * p) - amount * (p - 1.0) == amount * (nn * r * p - (p - 1.0));
    assert (e * nn - amount) * (p - 1.0) == (e * nn) * (p - 1.0) - amount * (p - 1.0);
    SignFromProduct(e * nn - amount, p - 1.0);
    assert e - amount / nn == (e * nn - amount) / nn;
    SignFromProduct(e - amount / nn, nn);
  }

  lemma AnnuityAboveInterest(amount: real, r: real, p: real, e: real)
    requires amount > 0.0 && r > 0.0 && p > 1.0
    requires e * (p - 1.0) == amount * r * p
    ensures e > amount * r
  {
    assert (e - amount * r) * (p - 1.0) == e * (p - 1.0) - amount * r * (p - 1.0);
    assert (e - amount * r) * (p - 1.0) == amount * r;
    MulPos(amount, r);
    SignFromProduct(e - amount * r, p - 1.0);
  }

  /** Of two annuities on the same terms, the one on the larger principal is larger. */
  lemma AnnuityOrdered(a1: real, a2: real, r: real, p: real, e1: real, e2: real)
    requires a1 <= a2 && r > 0.0 && p > 1.0
    requires e1 * (p - 1.0) == a1 * r * p && e2 * (p - 1.0) == a2 * r * p
    ensures e1 <= e2
  {
    MulPos(r, p);
    MulNonNeg(a2 - a1, r * p);
    assert (e2 - e1) * (p - 1.0) == (a2 - a1) * (r * p);
    SignFromProduct(e2 - e1, p - 1.0);
  }

  lemma InstalmentsCoverPrincipal(e: real, amount: real, nn: real)
    requires nn > 0.0 && e >= amount / nn
    ensures e * nn - amount >= 0.0
  {
    assert e * nn - amount == (e - amount / nn) * nn;
    MulNonNeg(e - amount / nn, nn);
  }

  lemma ScaledWithin(e: real, raw: real, nn: real)
    requires nn >= 0.0 && raw - 0.005 <= e <= raw + 0.005
    ensures raw * nn - 0.005 * nn <= e * nn <= raw * nn + 0.005 * nn
  {
    MulNonNeg(e - raw + 0.005, nn);
    MulNonNeg(raw + 0.005 - e, nn);
    assert (e - raw + 0.005) * nn == e * nn - raw * nn + 0.005 * nn;
    assert (raw + 0.005 - e) * nn == raw * nn + 0.005 * nn - e * nn;
  }

  lemma RoundedScheduleCost(e: real, raw: real, amount: real, nn: real)
    requires nn >= 1.0 && raw >= amount / nn && raw - 0.005 <= e
    ensures e * nn - amount >= -0.005 * nn
  {
    InstalmentsCoverPrincipal(raw, amount, nn);
    MulNonNeg(e - raw + 0.005, nn);
    assert (e - raw + 0.005) * nn == e * nn - raw * nn + 0.005 * nn;
  }

}
