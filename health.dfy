/**
 * The debt-health scorer `debtHealthScore(monthlyIncome, monthlyExpenses,
 * loans)`: the share of disposable income the loans' EMIs take, turned into a
 * score out of 100, lowered by a flat penalty per loan beyond the first, and
 * sorted into three categories.
 */
module DebtHealth {
  import opened Wrappers
  import opened JsMath
  import opened Amortization

  datatype Category = HighRisk | Moderate | Safe

  /** The strings the scorer returns. */
  function CategoryLabel(c: Category): (s: string)
    ensures s == "High Risk" <==> c == HighRisk
    ensures s == "Moderate" <==> c == Moderate
    ensures s == "Safe" <==> c == Safe
  {
    match c
    case HighRisk => "High Risk"
    case Moderate => "Moderate"
    case Safe => "Safe"
  }

  /** How healthy a category is, worst first. */
  function Rank(c: Category): nat
  {
    match c
    case HighRisk => 0
    case Moderate => 1
    case Safe => 2
  }

  datatype HealthScore = HealthScore(score: int, category: Category, totalEmi: real)

  predicate AllAmountsNonNegative(loans: seq<Loan>)
  {
    forall i :: 0 <= i < |loans| ==> loans[i].amount >= 0.0
  }

  /** The loans' EMIs, in list order: the values the `reduce` adds up. */
  function Emis(loans: seq<Loan>): (es: seq<real>)
    requires AllEmiDefined(loans)
    ensures |es| == |loans|
    ensures forall i :: 0 <= i < |loans| ==> es[i] == LoanEmi(loans[i])
  {
    seq(|loans|, i requires 0 <= i < |loans| => LoanEmi(loans[i]))
  }

  /** `reduce((sum, x) => sum + x, 0)`: the sum taken from the first element on. */
  function Sum(xs: seq<real>): real
  {
    if xs == [] then 0.0 else Sum(xs[..|xs| - 1]) + xs[|xs| - 1]
  }

  /** The total EMI the scorer adds up over the loans. */
  function TotalEmi(loans: seq<Loan>): (t: real)
    requires AllEmiDefined(loans)
    ensures AllAmountsNonNegative(loans) ==> t >= 0.0
  {
    var es := Emis(loans);
    assert AllAmountsNonNegative(loans) ==> forall i :: 0 <= i < |es| ==> es[i] >= 0.0;
    SumNonNegative(es);
    Sum(es)
  }

  lemma {:induction false} SumNonNegative(xs: seq<real>)
    ensures (forall i :: 0 <= i < |xs| ==> xs[i] >= 0.0) ==> Sum(xs) >= 0.0
  {
    if xs != [] {
      SumNonNegative(xs[..|xs| - 1]);
    }
  }

  /** Replacing one summand changes the sum by the difference. */
  lemma {:induction false} SumReplace(xs: seq<real>, i: nat, v: real)
    requires i < |xs|
    ensures Sum(xs[i := v]) == Sum(xs) - xs[i] + v
    decreases |xs|
  {
    var last := |xs| - 1;
    var ys := xs[i := v];
    if i == last {
      assert ys[..last] == xs[..last];
    } else {
      assert ys[..last] == xs[..last][i := v];
      SumReplace(xs[..last], i, v);
    }
  }

  /**
   * The score before `Math.round`: 100 less 100 times the EMI share of
   * disposable income (a share capped at 1, and taken as 1 when nothing is
   * left to spend), less 5 points per loan beyond the first, never below 0.
   */
  function RawScore(income: real, expenses: real, loanCount: nat, totalEmi: real): (s: real)
    ensures 0.0 <= s
    ensures totalEmi >= 0.0 ==> s <= 100.0
  {
    var disposable := Max(0.0, income - expenses);
    var ratio := if disposable > 0.0 then DivSign(totalEmi, disposable); Div(totalEmi, disposable) else 1.0;
    var base := Max(0.0, 100.0 - Min(1.0, ratio) * 100.0);
    var penalty := (if loanCount >= 1 then loanCount - 1 else 0) as real * 5.0;
    Max(0.0, base - penalty)
  }

  /** The thresholds, applied to the unrounded score. */
  function CategoryOf(score: real): Category
  {
    if score < 40.0 then HighRisk
    else if score < 70.0 then Moderate
    else Safe
  }

  /**
   * `debtHealthScore`: the category is read off the unrounded score; the
   * score returned is that score rounded to a whole number, and the EMI total
   * is rounded to cents.
   */
  function DebtHealthScore(income: real, expenses: real, loans: seq<Loan>): (h: HealthScore)
    requires AllEmiDefined(loans)
    ensures 0 <= h.score
    ensures AllAmountsNonNegative(loans) ==> h.score <= 100
    ensures var s := RawScore(income, expenses, |loans|, TotalEmi(loans));
      s - 0.5 < h.score as real <= s + 0.5 &&
      (h.category == HighRisk <==> s < 40.0) &&
      (h.category == Moderate <==> 40.0 <= s < 70.0) &&
      (h.category == Safe <==> 70.0 <= s)
    ensures TotalEmi(loans) - 0.005 <= h.totalEmi <= TotalEmi(loans) + 0.005
  {
    var total := TotalEmi(loans);
    var s := RawScore(income, expenses, |loans|, total);
    assert DecimalScale(2) == 100;
    HealthScore(Round(s), CategoryOf(s), ToFixed(total, 2))
  }

  /**
   * For a fixed income, expenses and number of loans, a larger EMI total
   * never raises the score, rounded or not, and never improves the category.
   */
  lemma ScoreMonotone(income: real, expenses: real, loanCount: nat, e1: real, e2: real)
    requires e1 <= e2
    ensures RawScore(income, expenses, loanCount, e2) <= RawScore(income, expenses, loanCount, e1)
    ensures Round(RawScore(income, expenses, loanCount, e2)) <= Round(RawScore(income, expenses, loanCount, e1))
    ensures Rank(CategoryOf(RawScore(income, expenses, loanCount, e2))) <=
            Rank(CategoryOf(RawScore(income, expenses, loanCount, e1)))
  {
    var disposable := Max(0.0, income - expenses);
    if disposable > 0.0 {
      var r1, r2 := Div(e1, disposable), Div(e2, disposable);
      assert (r2 - r1) * disposable == e2 - e1;
      SignFromProduct(r2 - r1, disposable);
    }
    RoundMonotone(RawScore(income, expenses, loanCount, e2), RawScore(income, expenses, loanCount, e1));
  }

  /** Each loan beyond the first costs five more points, down to 0. */
  lemma ExtraLoanPenalty(income: real, expenses: real, loanCount: nat, totalEmi: real)
    requires loanCount >= 1
    ensures RawScore(income, expenses, loanCount + 1, totalEmi) ==
            Max(0.0, RawScore(income, expenses, loanCount, totalEmi) - 5.0)
  {
  }

  /** No loans and money left over: a perfect score. */
  lemma NoLoansIsSafe(income: real, expenses: real)
    requires income > expenses
    ensures DebtHealthScore(income, expenses, []) == HealthScore(100, Safe, 0.0)
  {
    assert Div(0.0, income - expenses) == 0.0;
    ToFixedOfZero(2);
  }

  /** Nothing left after expenses: score 0 and high risk, whatever the loans. */
  lemma NoDisposableIncomeIsHighRisk(income: real, expenses: real, loans: seq<Loan>)
    requires AllEmiDefined(loans) && income <= expenses
    ensures DebtHealthScore(income, expenses, loans).score == 0
    ensures DebtHealthScore(income, expenses, loans).category == HighRisk
  {
  }

  /**
   * The category is decided before rounding: a raw score of 39.5 is returned
   * as 40 and still labelled high risk.
   */
  lemma CategoryBeforeRounding()
    ensures DebtHealthScore(1000.0, 0.0, [Loan(None, None, "Loan", 605.0, 0.0, 1)]) ==
            HealthScore(40, HighRisk, 605.0)
  {
    var loans := [Loan(None, None, "Loan", 605.0, 0.0, 1)];
    assert loans[..0] == [];
    assert TotalEmi(loans) == 605.0;
    assert Div(605.0, 1000.0) == 0.605;
    assert RawScore(1000.0, 0.0, 1, 605.0) == 39.5;
    assert DecimalScale(2) == 100;
    assert Round(605.0 * 100.0) == 60500;
  }

  /** A larger principal never lowers a loan's EMI. */
  lemma EmiMonotoneInAmount(a1: real, a2: real, annualRate: real, tenureMonths: int)
    requires EmiDefined(annualRate, tenureMonths) && a1 <= a2
    ensures Emi(a1, annualRate, tenureMonths) <= Emi(a2, annualRate, tenureMonths)
  {
    var r := MonthlyRate(annualRate);
    if r == 0.0 {
      if tenureMonths > 0 {
        DivideMonotone(a1, a2, tenureMonths as real);
      }
    } else {
      var e1, e2 := AnnuityPayment(a1, r, tenureMonths), AnnuityPayment(a2, r, tenureMonths);
      var p := AnnuityIdentity(a1, r, tenureMonths, e1);
      var p2 := AnnuityIdentity(a2, r, tenureMonths, e2);
      AnnuityOrdered(a1, a2, r, p, e1, e2);
      ToFixedMonotone(e1, e2, 2);
    }
  }

  /** Raising the EMI of one loan raises the total by the same amount. */
  lemma TotalEmiReplace(loans: seq<Loan>, i: nat, l: Loan)
    requires AllEmiDefined(loans) && i < |loans| && LoanEmiDefined(l)
    ensures AllEmiDefined(loans[i := l])
    ensures TotalEmi(loans[i := l]) == TotalEmi(loans) - LoanEmi(loans[i]) + LoanEmi(l)
  {
    var m := loans[i := l];
    assert AllEmiDefined(m) by {
      forall j | 0 <= j < |m|
        ensures LoanEmiDefined(m[j])
      {
        if j != i { assert m[j] == loans[j]; }
      }
    }
    assert Emis(m) == Emis(loans)[i := LoanEmi(l)];
    SumReplace(Emis(loans), i, LoanEmi(l));
  }

  /**
   * Lending more on any one loan never raises the debt-health score or
   * improves its category.
   */
  lemma ScoreMonotoneInLoanAmount(income: real, expenses: real, loans: seq<Loan>, i: nat, amount: real)
    requires AllEmiDefined(loans) && i < |loans| && loans[i].amount <= amount
    ensures AllEmiDefined(loans[i := loans[i].(amount := amount)])
    ensures DebtHealthScore(income, expenses, loans[i := loans[i].(amount := amount)]).score <=
            DebtHealthScore(income, expenses, loans).score
    ensures Rank(DebtHealthScore(income, expenses, loans[i := loans[i].(amount := amount)]).category) <=
            Rank(DebtHealthScore(income, expenses, loans).category)
  {
    var l := loans[i].(amount := amount);
    TotalEmiReplace(loans, i, l);
    EmiMonotoneInAmount(loans[i].amount, amount, l.interestRate, l.tenureMonths);
    ScoreMonotone(income, expenses, |loans|, TotalEmi(loans), TotalEmi(loans[i := l]));
  }

  /** Appending one value adds it to the sum. */
  lemma SumAppend(xs: seq<real>, v: real)
    ensures Sum(xs + [v]) == Sum(xs) + v
  {
    assert (xs + [v])[..|xs|] == xs;
  }

  /** Appending a loan adds its EMI to the total. */
  lemma TotalEmiAppend(loans: seq<Loan>, l: Loan)
    requires AllEmiDefined(loans) && LoanEmiDefined(l)
    ensures AllEmiDefined(loans + [l])
    ensures TotalEmi(loans + [l]) == TotalEmi(loans) + LoanEmi(l)
  {
    var m := loans + [l];
    assert AllEmiDefined(m) by {
      forall j | 0 <= j < |m|
        ensures LoanEmiDefined(m[j])
      {
        if j < |loans| { assert m[j] == loans[j]; }
      }
    }
    assert Emis(m) == Emis(loans) + [LoanEmi(l)];
    SumAppend(Emis(loans), LoanEmi(l));
  }

  /**
   * One more loan and at least as much total EMI never raise the score,
   * rounded or not, and never improve the category.
   */
  lemma OneMoreLoanScore(income: real, expenses: real, loanCount: nat, e1: real, e2: real)
    requires e1 <= e2
    ensures RawScore(income, expenses, loanCount + 1, e2) <= RawScore(income, expenses, loanCount, e1)
    ensures Round(RawScore(income, expenses, loanCount + 1, e2)) <= Round(RawScore(income, expenses, loanCount, e1))
    ensures Rank(CategoryOf(RawScore(income, expenses, loanCount + 1, e2))) <=
            Rank(CategoryOf(RawScore(income, expenses, loanCount, e1)))
  {
    ScoreMonotone(income, expenses, loanCount + 1, e1, e2);
    if loanCount >= 1 {
      ExtraLoanPenalty(income, expenses, loanCount, e1);
    }
    var after, before := RawScore(income, expenses, loanCount + 1, e2), RawScore(income, expenses, loanCount, e1);
    RoundMonotone(after, before);
  }

  /**
   * Taking on one more loan, of any non-negative principal, never raises the
   * debt-health score or improves its category: its EMI adds to the total and
   * it may add a 5-point penalty.
   */
  lemma AnotherLoanNeverHelps(income: real, expenses: real, loans: seq<Loan>, l: Loan)
    requires AllEmiDefined(loans) && LoanEmiDefined(l) && l.amount >= 0.0
    ensures AllEmiDefined(loans + [l])
    ensures DebtHealthScore(income, expenses, loans + [l]).score <=
            DebtHealthScore(income, expenses, loans).score
    ensures Rank(DebtHealthScore(income, expenses, loans + [l]).category) <=
            Rank(DebtHealthScore(income, expenses, loans).category)
  {
    TotalEmiAppend(loans, l);
    OneMoreLoanScore(income, expenses, |loans|, TotalEmi(loans), TotalEmi(loans + [l]));
  }
}
