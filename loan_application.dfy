/** The borrower's loan-application page: a rate quoted from the amount, the
    EMI and interest at that rate, the debt-to-income ratio rounded to one
    decimal, and the eligibility gate on the submit button. */
module LoanApplication {
  import opened Money
  import opened Amortization
  import opened AmortizationProperties

  /** The form fields the quote reads: the amount, the tenure in months and
      the annual income. */
  datatype Application = Application(amount: real, tenure: nat, income: real)

  /** `estimatedRate`: 7.5% up to 10 000, 9% up to 50 000, 6.5% up to
      200 000, 5% above. Every tier is a positive rate. */
  function EstimatedRate(amount: real): (rate: real)
    ensures rate > 0.0
  {
    if amount <= 10000.0 then 7.5
    else if amount <= 50000.0 then 9.0
    else if amount <= 200000.0 then 6.5
    else 5.0
  }

  /** The tiers are not monotone: the rate rises past 10 000, then falls past
      50 000 and again past 200 000. */
  lemma RateTiersNotMonotone()
    ensures EstimatedRate(10000.0) < EstimatedRate(10000.01)
    ensures EstimatedRate(50000.01) < EstimatedRate(50000.0)
    ensures EstimatedRate(200000.01) < EstimatedRate(200000.0)
  {
  }

  /** The quoted EMI: `calculateEMI` at the estimated rate. */
  function QuotedEmi(a: Application): real
    requires a.tenure >= 1
  {
    PositiveRateDenominator(EstimatedRate(a.amount), a.tenure);
    Emi(a.amount, EstimatedRate(a.amount), a.tenure)
  }

  /** The quoted total interest: `calculateTotalInterest` at the estimated rate. */
  function QuotedInterest(a: Application): real
    requires a.tenure >= 1
  {
    PositiveRateDenominator(EstimatedRate(a.amount), a.tenure);
    TotalInterest(a.amount, EstimatedRate(a.amount), a.tenure)
  }

  /** The total repayment shown: the amount plus the total interest. It is
      the instalments' total to within half a cent. */
  function TotalRepayment(a: Application): (total: real)
    requires a.tenure >= 1
    ensures var paid := QuotedEmi(a) * a.tenure as real;
            paid - 0.005 < total <= paid + 0.005
  {
    a.amount + QuotedInterest(a)
  }

  /** `x.toFixed(1)` read back as a number: the nearest tenth, a tie going
      away from zero. */
  function Round1(x: real): (t: real)
    ensures x >= 0.0 ==> t >= 0.0 && x - 0.05 < t <= x + 0.05
    ensures x < 0.0 ==> t <= 0.0 && x - 0.05 <= t < x + 0.05
    ensures (10.0 * t).Floor as real == 10.0 * t
  {
    if x >= 0.0 then NearestTenth(x)
    else
      var t := NearestTenth(-x);
      var k := (10.0 * t).Floor;
      assert 10.0 * -t == (-k) as real;
      assert ((-k) as real).Floor == -k;
      -t
  }

  /** The nearest tenth of a non-negative x, a tie going up. */
  function NearestTenth(x: real): (t: real)
    requires x >= 0.0
    ensures t >= 0.0 && x - 0.05 < t <= x + 0.05
    ensures (10.0 * t).Floor as real == 10.0 * t
  {
    var k := (10.0 * x + 0.5).Floor;
    assert k as real <= 10.0 * x + 0.5 < k as real + 1.0;
    assert 10.0 * (k as real / 10.0) == k as real;
    assert (k as real).Floor == k;
    k as real / 10.0
  }

  /** A rounded ratio is below 45 exactly when the ratio is below 44.95. */
  lemma Round1Below45(x: real)
    ensures Round1(x) < 45.0 <==> x < 44.95
  {
    if x >= 0.0 {
      var k := (10.0 * x + 0.5).Floor;
      assert NearestTenth(x) == k as real / 10.0;
      assert k < 450 <==> 10.0 * x + 0.5 < 450.0;
    }
  }

  /** The unrounded ratio: a year of instalments as a percentage of the income. */
  function RawDti(a: Application): real
    requires a.tenure >= 1 && a.income > 0.0
  {
    (QuotedEmi(a) * 12.0) / a.income * 100.0
  }

  /** `dti`: the ratio to one decimal with a positive income, otherwise 0. */
  function Dti(a: Application): (d: real)
    requires a.tenure >= 1
    ensures a.income <= 0.0 ==> d == 0.0
    ensures a.income > 0.0 ==> RawDti(a) - 0.05 <= d <= RawDti(a) + 0.05
    ensures (10.0 * d).Floor as real == 10.0 * d
  {
    if a.income > 0.0 then Round1(RawDti(a)) else 0.0
  }

  /** `eligible`: the rounded ratio is below 45. */
  predicate Eligible(a: Application)
    requires a.tenure >= 1
  {
    Dti(a) < 45.0
  }

  /** The submit button is enabled when the applicant is eligible and has not
      just submitted. */
  predicate SubmitEnabled(a: Application, submitted: bool)
    requires a.tenure >= 1
  {
    Eligible(a) && !submitted
  }

  /** An applicant is eligible exactly when the income is not positive or the
      unrounded ratio is below 44.95. */
  lemma EligibleIff(a: Application)
    requires a.tenure >= 1
    ensures Eligible(a) <==> a.income <= 0.0 || RawDti(a) < 44.95
  {
    if a.income > 0.0 {
      Round1Below45(RawDti(a));
    }
  }

  /** An applicant with no positive income always passes the gate. */
  lemma NoIncomeIsEligible(a: Application)
    requires a.tenure >= 1 && a.income <= 0.0
    ensures Eligible(a)
  {
  }

  /** Submitting is possible exactly when the applicant has not just
      submitted and the ratio passes the gate. */
  lemma SubmitRule(a: Application, submitted: bool)
    requires a.tenure >= 1
    ensures SubmitEnabled(a, submitted) <==> !submitted && (a.income <= 0.0 || RawDti(a) < 44.95)
  {
    EligibleIff(a);
  }
}
