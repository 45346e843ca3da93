/**
 * The stress-metrics scorer: a second, independent scoring of a household's
 * debt. The debt ratio (total EMI over income) is sorted into three stress
 * levels, and a risk score out of 100 adds up three capped components: the
 * debt ratio, the EMI against disposable income, and the expense ratio. Two
 * helpers pick a display colour for a level and two suggestions for it.
 */
module Stress {
  import opened JsMath

  datatype StressLevel = Safe | Risky | Dangerous

  /** The strings the scorer stores and compares: 'SAFE', 'RISKY', 'DANGEROUS'. */
  function LevelName(l: StressLevel): string
  {
    match l
    case Safe => "SAFE"
    case Risky => "RISKY"
    case Dangerous => "DANGEROUS"
  }

  /** How severe a level is, mildest first. */
  function Severity(l: StressLevel): nat
  {
    match l
    case Safe => 0
    case Risky => 1
    case Dangerous => 2
  }

  datatype StressMetrics = StressMetrics(debtRatio: real, stressLevel: StressLevel, riskScore: int)

  /** The tiers: up to 0.3 safe, above that up to 0.5 risky, beyond dangerous. */
  function LevelOf(ratio: real): StressLevel
  {
    if ratio <= 0.3 then Safe
    else if ratio <= 0.5 then Risky
    else Dangerous
  }

  /** Tiers never get milder as the ratio grows. */
  lemma LevelMonotone(r1: real, r2: real)
    requires r1 <= r2
    ensures Severity(LevelOf(r1)) <= Severity(LevelOf(r2))
  {
  }

  /**
   * The debt-ratio component `min(ratio / 0.8 * 50, 50)`: up to 50 points,
   * the full 50 from a ratio of 0.8 on.
   */
  function DebtRatioScore(ratio: real): (s: real)
    ensures s <= 50.0
    ensures ratio >= 0.0 ==> s >= 0.0
    ensures s == 50.0 <==> ratio >= 0.8
  {
    Min(ratio / 0.8 * 50.0, 50.0)
  }

  /**
   * The disposable-income component: 30 points when nothing is left after
   * expenses; otherwise `max(0, 30 - disposable / totalEmi * 30)`, which
   * JavaScript evaluates to 0 for a zero EMI (the quotient is Infinity).
   * With a non-negative EMI it lies in [0, 30] and reaches 0 exactly once the
   * disposable income covers the EMI.
   */
  function DisposableScore(income: real, expense: real, totalEmi: real): (s: real)
    ensures income - expense <= 0.0 ==> s == 30.0
    ensures income - expense > 0.0 && totalEmi == 0.0 ==> s == 0.0
    ensures totalEmi >= 0.0 ==> 0.0 <= s <= 30.0
    ensures income - expense > 0.0 && totalEmi > 0.0 ==> (s == 0.0 <==> income - expense >= totalEmi)
  {
    var disposable := income - expense;
    if disposable > 0.0 then
      if totalEmi == 0.0 then 0.0
      else
        var q := Div(disposable, totalEmi);
        CoverageScore(disposable, totalEmi, q);
        Max(0.0, 30.0 - q * 30.0)
    else 30.0
  }

  /** The expense component `min(expense / income * 20, 20)`: full once expenses reach income. */
  function ExpenseScore(income: real, expense: real): (s: real)
    requires income > 0.0
    ensures s <= 20.0
    ensures expense >= 0.0 ==> s >= 0.0
    ensures s == 20.0 <==> expense >= income
  {
    var q := Div(expense, income);
    ShareBelow(expense, income, q, 1.0);
    SignFromProduct(q, income);
    Min(q * 20.0, 20.0)
  }

  /** The three components added up, before rounding and the cap. */
  function RiskSum(income: real, expense: real, totalEmi: real): (s: real)
    requires income > 0.0
    ensures totalEmi >= 0.0 ==> s <= 100.0
    ensures totalEmi >= 0.0 && expense >= 0.0 ==> s >= 0.0
  {
    DivSign(totalEmi, income);
    DebtRatioScore(Div(totalEmi, income)) + DisposableScore(income, expense, totalEmi) +
      ExpenseScore(income, expense)
  }

  /**
   * `calculateStressMetrics(monthlyIncome, monthlyExpense, totalLoanEMI)`:
   * without income, the fixed answer 0 / DANGEROUS / 100. Otherwise the level
   * compares the EMI with 30 % and 50 % of income, the returned ratio is
   * rounded to four decimals, and the risk score is the rounded component sum
   * capped at 100.
   */
  function CalculateStressMetrics(income: real, expense: real, totalEmi: real): (m: StressMetrics)
    ensures income <= 0.0 ==> m == StressMetrics(0.0, Dangerous, 100)
    ensures income > 0.0 ==>
      (m.stressLevel == Safe <==> totalEmi <= 0.3 * income) &&
      (m.stressLevel == Risky <==> 0.3 * income < totalEmi <= 0.5 * income) &&
      (m.stressLevel == Dangerous <==> totalEmi > 0.5 * income)
    ensures income > 0.0 ==>
      totalEmi / income - 0.00005 <= m.debtRatio <= totalEmi / income + 0.00005
    ensures income > 0.0 ==>
      var s := RiskSum(income, expense, totalEmi);
      (m.riskScore < 100 ==> s - 0.5 < m.riskScore as real <= s + 0.5) &&
      (m.riskScore == 100 <==> s >= 99.5)
    ensures m.riskScore <= 100
    ensures expense >= 0.0 && totalEmi >= 0.0 ==> m.riskScore >= 0
  {
    if income <= 0.0 then StressMetrics(0.0, Dangerous, 100)
    else
      var ratio := Div(totalEmi, income);
      LevelOfShare(totalEmi, income, ratio);
      assert DecimalScale(4) == 10000;
      var risk := Round(RiskSum(income, expense, totalEmi));
      StressMetrics(ToFixed(ratio, 4), LevelOf(ratio), if risk <= 100 then risk else 100)
  }

  /** With no negative inputs the component sum never exceeds 100, so the cap never bites. */
  lemma CapUnneeded(income: real, expense: real, totalEmi: real)
    requires income > 0.0 && totalEmi >= 0.0
    ensures CalculateStressMetrics(income, expense, totalEmi).riskScore ==
            Round(RiskSum(income, expense, totalEmi))
  {
    RoundMonotone(RiskSum(income, expense, totalEmi), 100.0);
    assert Round(100.0) == 100;
  }

  /** For a fixed income, a larger EMI never makes the level milder. */
  lemma LevelMonotoneInEmi(income: real, expense: real, e1: real, e2: real)
    requires e1 <= e2
    ensures Severity(CalculateStressMetrics(income, expense, e1).stressLevel) <=
            Severity(CalculateStressMetrics(income, expense, e2).stressLevel)
  {
  }

  /** For a fixed income and expenses, a larger (non-negative) EMI never lowers the risk score. */
  lemma RiskScoreMonotoneInEmi(income: real, expense: real, e1: real, e2: real)
    requires 0.0 <= e1 <= e2
    ensures CalculateStressMetrics(income, expense, e1).riskScore <=
            CalculateStressMetrics(income, expense, e2).riskScore
  {
    if income > 0.0 {
      DivideMonotone(e1, e2, income);
      assert Div(e1, income) <= Div(e2, income);
      DisposableScoreMonotone(income - expense, e1, e2);
      assert DisposableScore(income, expense, e1) <= DisposableScore(income, expense, e2);
      RoundMonotone(RiskSum(income, expense, e1), RiskSum(income, expense, e2));
    }
  }

  /**
   * The level is decided on the unrounded ratio: an EMI of 30.004 % of income
   * is reported as a ratio of 0.3 and still rated risky.
   */
  lemma LevelBeforeRounding()
    ensures CalculateStressMetrics(100000.0, 0.0, 30004.0) == StressMetrics(0.3, Risky, 19)
  {
    assert Div(30004.0, 100000.0) == 0.30004;
    assert RiskSum(100000.0, 0.0, 30004.0) == 18.7525 by {
      assert DisposableScore(100000.0, 0.0, 30004.0) == 0.0;
      assert Div(0.0, 100000.0) == 0.0;
    }
    RatioRoundsDown();
  }

  /** Four decimals of 0.30004 give 0.3. */
  lemma RatioRoundsDown()
    ensures ToFixed(0.30004, 4) == 0.3
  {
    assert DecimalScale(4) == 10000;
    assert RoundedMagnitude(0.30004, 10000.0) == 0.3 by {
      assert Round(0.30004 * 10000.0) == 3000;
    }
  }

  /** A household spending a fifth of its income on EMIs is safe. */
  lemma SafeExample()
    ensures CalculateStressMetrics(50000.0, 20000.0, 10000.0) == StressMetrics(0.2, Safe, 21)
  {
    assert Div(10000.0, 50000.0) == 0.2;
    assert DecimalScale(4) == 10000;
    assert Round(0.2 * 10000.0) == 2000;
    assert Div(30000.0, 10000.0) == 3.0;
    assert Div(20000.0, 50000.0) == 0.4;
    assert RiskSum(50000.0, 20000.0, 10000.0) == 20.5;
  }

  /** The colour for an unknown level. */
  const Gray := "#6b7280"

  /** `getStressLevelColor(stressLevel)`: green, yellow or red for the three levels; gray otherwise. */
  function StressLevelColor(level: string): (c: string)
    ensures c in {"#22c55e", "#eab308", "#ef4444", Gray}
    ensures c == Gray <==> level !in {"SAFE", "RISKY", "DANGEROUS"}
  {
    if level == "SAFE" then "#22c55e"
    else if level == "RISKY" then "#eab308"
    else if level == "DANGEROUS" then "#ef4444"
    else Gray
  }

  /** The three levels get three different colours, none of them the default. */
  lemma LevelColorsDistinct(l1: StressLevel, l2: StressLevel)
    ensures StressLevelColor(LevelName(l1)) != Gray
    ensures l1 != l2 ==> StressLevelColor(LevelName(l1)) != StressLevelColor(LevelName(l2))
  {
  }

  datatype Priority = Low | Medium | High

  /**
   * A message: literal text with numbers in between. Turning the numbers
   * into text is not modelled.
   */
  datatype Part = Text(text: string) | Percent(value: real) | Rupees(amount: int)

  datatype Suggestion = Suggestion(title: string, message: seq<Part>, priority: Priority)

  predicate PlainText(message: seq<Part>)
  {
    forall i :: 0 <= i < |message| ==> message[i].Text?
  }

  /**
   * `getStressSuggestion(debtRatio, stressLevel, monthlyIncome)`: two
   * suggestions of one priority, low for 'SAFE', medium for 'RISKY' and high
   * for any other string. The first quotes the debt ratio as a percentage
   * with one decimal; for 'SAFE' it also offers a quarter of the income,
   * rounded to whole rupees, as further borrowing. The second is plain text.
   */
  function StressSuggestion(debtRatio: real, level: string, income: real): (s: seq<Suggestion>)
    ensures |s| == 2
    ensures s[0].priority == s[1].priority
    ensures s[0].priority == Low <==> level == "SAFE"
    ensures s[0].priority == Medium <==> level == "RISKY"
    ensures s[0].priority == High <==> level != "SAFE" && level != "RISKY"
    ensures Percent(ToFixed(debtRatio * 100.0, 1)) in s[0].message
    ensures level == "SAFE" ==> Rupees(Round(income * 0.25)) in s[0].message
    ensures level != "SAFE" ==> forall i :: 0 <= i < |s[0].message| ==> !s[0].message[i].Rupees?
    ensures PlainText(s[1].message)
  {
    var percent := Percent(ToFixed(debtRatio * 100.0, 1));
    if level == "SAFE" then
      [Suggestion(HealthGoodTitle,
                  [Text(HealthyRatioText), percent, Text(BorrowText), Rupees(Round(income * 0.25)), Text(MoreText)],
                  Low),
       Suggestion(DisciplineTitle, [Text(DisciplineText)], Low)]
    else if level == "RISKY" then
      [Suggestion(MonitorTitle, [Text(RatioAtText), percent, Text(NoNewLoansText)], Medium),
       Suggestion(ActionTitle, [Text(ActionText)], Medium)]
    else
      [Suggestion(CriticalTitle, [Text(RatioIsText), percent, Text(ImmediateText)], High),
       Suggestion(UrgentTitle, [Text(UrgentText)], High)]
  }

  const HealthGoodTitle := "\U{2705} Financial Health Good"
  const HealthyRatioText := "Your debt ratio is healthy at "
  const BorrowText := "%. You can safely borrow up to \U{20B9}"
  const MoreText := " more."
  const DisciplineTitle := "\U{1F4A1} Maintain Your Discipline"
  const DisciplineText := "Continue managing your expenses well. Consider building an emergency fund."
  const MonitorTitle := "\U{26A0}\U{FE0F} Monitor Carefully"
  const RatioAtText := "Your debt ratio is at "
  const NoNewLoansText := "%. Avoid taking new loans."
  const ActionTitle := "\U{1F3AF} Action Items"
  const ActionText := "Control expenses, increase income if possible, or consider debt consolidation."
  const CriticalTitle := "\U{1F6A8} Critical Situation"
  const RatioIsText := "Your debt ratio is "
  const ImmediateText := "%. This requires immediate action."
  const UrgentTitle := "\U{1F4B0} Urgent Recommendations"
  const UrgentText := "Focus on closing high-interest loans, reduce non-essential spending, increase income, or seek financial counseling."

  /** The priority of a known level's suggestions grows with its severity. */
  function PriorityOf(l: StressLevel): Priority
  {
    match l
    case Safe => Low
    case Risky => Medium
    case Dangerous => High
  }

  /**
   * Suggestions for the metrics of a household carry the priority of its
   * level: high whenever there is no income, and, for a safe household with
   * income, a borrowing offer that is not negative.
   */
  lemma SuggestionsFollowMetrics(income: real, expense: real, totalEmi: real)
    ensures var m := CalculateStressMetrics(income, expense, totalEmi);
      var s := StressSuggestion(m.debtRatio, LevelName(m.stressLevel), income);
      s[0].priority == PriorityOf(m.stressLevel) &&
      (income <= 0.0 ==> s[0].priority == High)
    ensures income > 0.0 && CalculateStressMetrics(income, expense, totalEmi).stressLevel == Safe ==>
      Round(income * 0.25) >= 0
  {
  }

  // Arithmetic steps over plain reals.

  /** For a share q == x / d of a positive d: q <= c exactly when x <= c d. */
  lemma ShareBelow(x: real, d: real, q: real, c: real)
    requires d > 0.0 && q * d == x
    ensures q <= c <==> x <= c * d
    ensures q >= c <==> x >= c * d
  {
    if q < c {
      MulStrict(q, c, d);
    } else if c < q {
      MulStrict(c, q, d);
    }
  }

  /** The tier of a share q == x / d of a positive d, read off x against 30 % and 50 % of d. */
  lemma LevelOfShare(x: real, d: real, q: real)
    requires d > 0.0 && q * d == x
    ensures LevelOf(q) == Safe <==> x <= 0.3 * d
    ensures LevelOf(q) == Risky <==> 0.3 * d < x <= 0.5 * d
    ensures LevelOf(q) == Dangerous <==> x > 0.5 * d
  {
    ShareBelow(x, d, q, 0.3);
    ShareBelow(x, d, q, 0.5);
  }

  /** The uncapped disposable score 30 - 30 q, for q == disposable / emi, vanishes once q >= 1. */
  lemma CoverageScore(disposable: real, totalEmi: real, q: real)
    requires disposable > 0.0 && totalEmi != 0.0 && q * totalEmi == disposable
    ensures totalEmi > 0.0 ==> q > 0.0 && (30.0 - q * 30.0 <= 0.0 <==> disposable >= totalEmi)
  {
    if totalEmi > 0.0 {
      SignFromProduct(q, totalEmi);
      ShareBelow(disposable, totalEmi, q, 1.0);
    }
  }

  /** The share d / e of a positive d shrinks as a positive e grows. */
  lemma DisposableScoreMonotone(disposable: real, e1: real, e2: real)
    requires 0.0 <= e1 <= e2
    ensures disposable > 0.0 && e1 > 0.0 ==> Div(disposable, e2) <= Div(disposable, e1)
  {
    if disposable > 0.0 && e1 > 0.0 {
      var q1, q2 := Div(disposable, e1), Div(disposable, e2);
      SignFromProduct(q1, e1);
      MulLe(e1, e2, q1);
      assert q1 * e2 >= disposable;
      ShareBelow(disposable, e2, q2, q1);
    }
  }
}
