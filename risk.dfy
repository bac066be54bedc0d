/** The risk half of the loan engine: an additive credit score clamped to
    [0, 100], and the four risk bands it falls into. */
module Risk {

  /** The borrower attributes the score reads: a credit score, the
      debt-to-income ratio as a fraction, years in employment and the number
      of missed payments. */
  datatype Borrower = Borrower(creditScore: int, dti: real, yearsEmployed: real, missedPayments: nat)

  /** The credit-score band: +25 from 750, +15 from 650, +5 from 550, else -15. */
  function CreditAdjustment(creditScore: int): int
  {
    if creditScore >= 750 then 25
    else if creditScore >= 650 then 15
    else if creditScore >= 550 then 5
    else -15
  }

  /** The debt-to-income band: +10 below 0.3, +5 below 0.45, else -10. */
  function DtiAdjustment(dti: real): int
  {
    if dti < 0.3 then 10 else if dti < 0.45 then 5 else -10
  }

  /** The employment band: +10 from 5 years, +5 from 2 years, else nothing. */
  function EmploymentAdjustment(yearsEmployed: real): int
  {
    if yearsEmployed >= 5.0 then 10 else if yearsEmployed >= 2.0 then 5 else 0
  }

  /** +5 for a clean record, otherwise -5 per missed payment. */
  function PaymentAdjustment(missedPayments: nat): int
  {
    if missedPayments == 0 then 5 else -(missedPayments * 5)
  }

  /** The base of 50 plus one adjustment per factor, before clamping. */
  function RawScore(b: Borrower): int
  {
    50 + CreditAdjustment(b.creditScore) + DtiAdjustment(b.dti)
       + EmploymentAdjustment(b.yearsEmployed) + PaymentAdjustment(b.missedPayments)
  }

  /** `Math.max(0, Math.min(100, x))`. */
  function Clamp(x: int): (c: int)
    ensures 0 <= c <= 100
    ensures 0 <= x <= 100 ==> c == x
    ensures x < 0 ==> c == 0
    ensures x > 100 ==> c == 100
  {
    if x > 100 then 100 else if x < 0 then 0 else x
  }

  /** The score `assessRiskScore` returns. */
  function RiskScore(b: Borrower): (s: int)
    ensures 0 <= s <= 100
  {
    Clamp(RawScore(b))
  }

  /** `assessRiskScore`: start at 50, adjust a local score factor by factor,
      then clamp it. */
  method AssessRiskScore(b: Borrower) returns (score: int)
    ensures score == RiskScore(b)
    ensures 0 <= score <= 100
  {
    score := 50;
    if b.creditScore >= 750 {
      score := score + 25;
    } else if b.creditScore >= 650 {
      score := score + 15;
    } else if b.creditScore >= 550 {
      score := score + 5;
    } else {
      score := score - 15;
    }

    if b.dti < 0.3 {
      score := score + 10;
    } else if b.dti < 0.45 {
      score := score + 5;
    } else {
      score := score - 10;
    }

    if b.yearsEmployed >= 5.0 {
      score := score + 10;
    } else if b.yearsEmployed >= 2.0 {
      score := score + 5;
    }

    if b.missedPayments == 0 {
      score := score + 5;
    } else {
      score := score - b.missedPayments * 5;
    }

    var capped := if score < 100 then score else 100;
    score := if capped > 0 then capped else 0;
  }

  // ----- categories -----

  /** The `{ label, color }` object `getRiskCategory` returns; the label is
      the field `name`, `label` being a Dafny keyword. */
  datatype RiskCategory = RiskCategory(name: string, color: string)

  const LowRisk := RiskCategory("Low Risk", "#06d6a0")
  const MediumRisk := RiskCategory("Medium Risk", "#ffd166")
  const HighRisk := RiskCategory("High Risk", "#ef476f")
  const VeryHighRisk := RiskCategory("Very High Risk", "#d62828")

  /** `getRiskCategory`: the first threshold the score reaches, 80, 60 or 40,
      each threshold belonging to the band above it. */
  function GetRiskCategory(score: int): (c: RiskCategory)
    ensures c == LowRisk <==> score >= 80
    ensures c == MediumRisk <==> 60 <= score < 80
    ensures c == HighRisk <==> 40 <= score < 60
    ensures c == VeryHighRisk <==> score < 40
  {
    if score >= 80 then LowRisk
    else if score >= 60 then MediumRisk
    else if score >= 40 then HighRisk
    else VeryHighRisk
  }

  /** How severe a band is: 0 for Low Risk up to 3 for Very High Risk. */
  function Severity(c: RiskCategory): nat
  {
    if c == LowRisk then 0 else if c == MediumRisk then 1 else if c == HighRisk then 2 else 3
  }
}
