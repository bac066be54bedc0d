/** What the risk score and its categories promise: the bounds of the
    unclamped sum, monotonicity in every factor, and bands that partition
    the scores at 80, 60 and 40. */
module RiskProperties {
  import opened Risk

  // ----- the score -----

  /** The unclamped sum never exceeds 50 + 25 + 10 + 10 + 5 = 100, and reaches
      it exactly for the best band of every factor. */
  lemma RawScoreAtMost100(b: Borrower)
    ensures RawScore(b) <= 100
    ensures RawScore(b) == 100 <==>
              b.creditScore >= 750 && b.dti < 0.3 && b.yearsEmployed >= 5.0 && b.missedPayments == 0
  {
    if b.missedPayments > 0 {
      assert PaymentAdjustment(b.missedPayments) <= -5;
    }
  }

  /** The score is 100 exactly for the best band of every factor. */
  lemma TopScore(b: Borrower)
    ensures RiskScore(b) == 100 <==>
              b.creditScore >= 750 && b.dti < 0.3 && b.yearsEmployed >= 5.0 && b.missedPayments == 0
  {
    RawScoreAtMost100(b);
  }

  /** Clamping never reorders scores. */
  lemma ClampMonotone(x: int, y: int)
    requires x <= y
    ensures Clamp(x) <= Clamp(y)
  {
  }

  /** A higher credit score never lowers the risk score. */
  lemma MonotoneInCreditScore(b: Borrower, creditScore: int)
    requires b.creditScore <= creditScore
    ensures RiskScore(b) <= RiskScore(b.(creditScore := creditScore))
  {
    assert CreditAdjustment(b.creditScore) <= CreditAdjustment(creditScore);
    ClampMonotone(RawScore(b), RawScore(b.(creditScore := creditScore)));
  }

  /** A higher debt-to-income ratio never raises the risk score. */
  lemma AntitoneInDti(b: Borrower, dti: real)
    requires b.dti <= dti
    ensures RiskScore(b.(dti := dti)) <= RiskScore(b)
  {
    assert DtiAdjustment(dti) <= DtiAdjustment(b.dti);
    ClampMonotone(RawScore(b.(dti := dti)), RawScore(b));
  }

  /** Longer employment never lowers the risk score. */
  lemma MonotoneInYearsEmployed(b: Borrower, yearsEmployed: real)
    requires b.yearsEmployed <= yearsEmployed
    ensures RiskScore(b) <= RiskScore(b.(yearsEmployed := yearsEmployed))
  {
    assert EmploymentAdjustment(b.yearsEmployed) <= EmploymentAdjustment(yearsEmployed);
    ClampMonotone(RawScore(b), RawScore(b.(yearsEmployed := yearsEmployed)));
  }

  /** More missed payments never raise the risk score. */
  lemma AntitoneInMissedPayments(b: Borrower, missedPayments: nat)
    requires b.missedPayments <= missedPayments
    ensures RiskScore(b.(missedPayments := missedPayments)) <= RiskScore(b)
  {
    assert PaymentAdjustment(missedPayments) <= PaymentAdjustment(b.missedPayments);
    ClampMonotone(RawScore(b.(missedPayments := missedPayments)), RawScore(b));
  }

  /** From 19 missed payments on, nothing else can lift the score above 0. */
  lemma ManyMissedPaymentsScoreZero(b: Borrower)
    requires b.missedPayments >= 19
    ensures RiskScore(b) == 0
  {
    assert RawScore(b) <= 95 - 5 * b.missedPayments;
  }

  /** 19 is the smallest such count: with 18 missed payments and every other
      factor at its best, the score is still 5. */
  lemma EighteenMissedPayments()
    ensures RiskScore(Borrower(750, 0.0, 5.0, 18)) == 5
  {
  }

  // ----- categories -----

  /** The four categories differ in both name and colour. */
  lemma CategoriesDistinct()
    ensures LowRisk.name != MediumRisk.name && LowRisk.name != HighRisk.name
    ensures LowRisk.name != VeryHighRisk.name && MediumRisk.name != HighRisk.name
    ensures MediumRisk.name != VeryHighRisk.name && HighRisk.name != VeryHighRisk.name
    ensures LowRisk.color != MediumRisk.color && LowRisk.color != HighRisk.color
    ensures LowRisk.color != VeryHighRisk.color && MediumRisk.color != HighRisk.color
    ensures MediumRisk.color != VeryHighRisk.color && HighRisk.color != VeryHighRisk.color
  {
    assert LowRisk.name[0] != MediumRisk.name[0];
    assert HighRisk.name[0] != VeryHighRisk.name[0];
    assert LowRisk.name[0] != HighRisk.name[0];
    assert LowRisk.name[0] != VeryHighRisk.name[0];
    assert MediumRisk.name[0] != HighRisk.name[0];
    assert MediumRisk.name[0] != VeryHighRisk.name[0];
    assert LowRisk.color[1] != MediumRisk.color[1];
    assert LowRisk.color[1] != HighRisk.color[1];
    assert LowRisk.color[1] != VeryHighRisk.color[1];
    assert MediumRisk.color[1] != HighRisk.color[1];
    assert MediumRisk.color[1] != VeryHighRisk.color[1];
    assert HighRisk.color[1] != VeryHighRisk.color[1];
  }

  /** The boundary scores belong to the higher band. */
  lemma CategoryBoundaries()
    ensures GetRiskCategory(80) == LowRisk && GetRiskCategory(79) == MediumRisk
    ensures GetRiskCategory(60) == MediumRisk && GetRiskCategory(59) == HighRisk
    ensures GetRiskCategory(40) == HighRisk && GetRiskCategory(39) == VeryHighRisk
  {
  }

  /** A higher score never lands in a more severe band. */
  lemma SeverityAntitone(s1: int, s2: int)
    requires s1 <= s2
    ensures Severity(GetRiskCategory(s2)) <= Severity(GetRiskCategory(s1))
  {
    CategoriesDistinct();
  }

  /** Raising the credit score never moves a borrower to a more severe band. */
  lemma CreditNeverWorsensCategory(b: Borrower, creditScore: int)
    requires b.creditScore <= creditScore
    ensures Severity(GetRiskCategory(RiskScore(b.(creditScore := creditScore))))
            <= Severity(GetRiskCategory(RiskScore(b)))
  {
    MonotoneInCreditScore(b, creditScore);
    SeverityAntitone(RiskScore(b), RiskScore(b.(creditScore := creditScore)));
  }
}
