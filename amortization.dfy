/** The amortization half of the loan engine: the level monthly instalment
    (EMI), the month-by-month schedule, total interest and the closed-form
    outstanding balance. */
module Amortization {
  import opened Money

  /** `annualRate / 100 / 12`: the monthly rate of an annual percentage. */
  function MonthlyRate(annualRate: real): real
  {
    annualRate / 100.0 / 12.0
  }

  /** The inputs on which the EMI is a finite number: at least one month, and
      for a non-zero rate a non-zero annuity denominator `(1+r)^n - 1`. */
  predicate EmiDefined(annualRate: real, tenureMonths: nat)
  {
    tenureMonths >= 1 &&
    (annualRate == 0.0 || Pow(1.0 + MonthlyRate(annualRate), tenureMonths) != 1.0)
  }

  /** The unrounded annuity payment `P r (1+r)^n / ((1+r)^n - 1)`. */
  function Annuity(principal: real, r: real, n: nat): real
    requires Pow(1.0 + r, n) != 1.0
  {
    var q := Pow(1.0 + r, n);
    principal * r * q / (q - 1.0)
  }

  /** The annuity times its denominator is its numerator. */
  lemma AnnuityEquation(principal: real, r: real, n: nat)
    requires Pow(1.0 + r, n) != 1.0
    ensures Annuity(principal, r, n) * (Pow(1.0 + r, n) - 1.0) == principal * r * Pow(1.0 + r, n)
  {
    var q := Pow(1.0 + r, n);
    DivisionCancels(principal * r * q, q - 1.0, Annuity(principal, r, n));
  }

  lemma DivisionCancels(x: real, y: real, z: real)
    requires y != 0.0 && z == x / y
    ensures z * y == x
  {
  }

  /** The balance still owed after k level payments of `payment`, interest
      accruing at r per month and nothing rounded: the reference against
      which the EMI and the outstanding-balance formula are proved. */
  function OwedAfter(principal: real, r: real, payment: real, k: nat): real
  {
    if k == 0 then principal else OwedAfter(principal, r, payment, k - 1) * (1.0 + r) - payment
  }

  /** `calculateEMI`: with a zero rate the principal split evenly and not
      rounded; otherwise the annuity payment rounded to the cent. */
  function Emi(principal: real, annualRate: real, tenureMonths: nat): real
    requires EmiDefined(annualRate, tenureMonths)
  {
    if annualRate == 0.0 then principal / tenureMonths as real
    else Round2(Annuity(principal, MonthlyRate(annualRate), tenureMonths))
  }

  // ----- the schedule -----

  datatype Status = Paid | Upcoming | Pending

  /** One row of `generateAmortizationSchedule` (the due date is left out). */
  datatype Installment = Installment(month: nat, emi: real, principal: real,
                                     interest: real, balance: real, status: Status)

  /** The engine's display tag: months 1 to 6 paid, 7 upcoming, later pending. */
  function StatusOfMonth(month: nat): Status
  {
    if month <= 6 then Paid else if month == 7 then Upcoming else Pending
  }

  function InterestPart(balance: real, r: real): real
  {
    Round2(balance * r)
  }

  function PrincipalPart(balance: real, r: real, emi: real): real
  {
    Round2(emi - InterestPart(balance, r))
  }

  /** The balance after one row: rounded, and set to 0 when it would be negative. */
  function NextBalance(balance: real, r: real, emi: real): real
  {
    Max0(Round2(balance - PrincipalPart(balance, r, emi)))
  }

  /** The running balance of the schedule after k rows. */
  function BalanceAfter(principal: real, r: real, emi: real, k: nat): real
  {
    if k == 0 then principal else NextBalance(BalanceAfter(principal, r, emi, k - 1), r, emi)
  }

  /** Row i (0-based) of the schedule: month i + 1, computed from the balance
      carried out of the rows before it. */
  function ScheduleRow(principal: real, r: real, emi: real, i: nat): Installment
  {
    var b := BalanceAfter(principal, r, emi, i);
    Installment(i + 1, emi, PrincipalPart(b, r, emi), InterestPart(b, r),
                NextBalance(b, r, emi), StatusOfMonth(i + 1))
  }

  /** The first n rows of the schedule of a loan of `principal` at monthly
      rate r paying `emi` a month. */
  function Rows(principal: real, r: real, emi: real, n: nat): (rows: seq<Installment>)
    ensures |rows| == n
    ensures forall i :: 0 <= i < n ==> rows[i] == ScheduleRow(principal, r, emi, i)
  {
    seq(n, i requires 0 <= i => ScheduleRow(principal, r, emi, i))
  }

  /** The schedule that `generateAmortizationSchedule` returns. */
  function Schedule(principal: real, annualRate: real, tenureMonths: nat): seq<Installment>
    requires EmiDefined(annualRate, tenureMonths)
  {
    Rows(principal, MonthlyRate(annualRate), Emi(principal, annualRate, tenureMonths), tenureMonths)
  }

  /** `generateAmortizationSchedule`: the EMI and the monthly rate, then the
      loop over the months. */
  method GenerateAmortizationSchedule(principal: real, annualRate: real, tenureMonths: nat)
    returns (schedule: seq<Installment>)
    requires EmiDefined(annualRate, tenureMonths)
    ensures schedule == Schedule(principal, annualRate, tenureMonths)
  {
    var emi := Emi(principal, annualRate, tenureMonths);
    var r := MonthlyRate(annualRate);
    schedule := AppendMonths(principal, r, emi, tenureMonths);
  }

  /** The loop of `generateAmortizationSchedule`: one pass over months 1..n
      that carries the balance and appends a row per month. */
  method AppendMonths(principal: real, r: real, emi: real, tenureMonths: nat)
    returns (schedule: seq<Installment>)
    ensures schedule == Rows(principal, r, emi, tenureMonths)
  {
    var balance := principal;
    schedule := [];
    var i := 1;
    while i <= tenureMonths
      invariant 1 <= i <= tenureMonths + 1
      invariant |schedule| == i - 1
      invariant balance == BalanceAfter(principal, r, emi, i - 1)
      invariant forall k :: 0 <= k < i - 1 ==> schedule[k] == ScheduleRow(principal, r, emi, k)
    {
      var interestPayment := InterestPart(balance, r);
      var principalPayment := Round2(emi - interestPayment);
      balance := Round2(balance - principalPayment);
      if balance < 0.0 {
        balance := 0.0;
      }
      var status := if i <= 6 then Paid else if i == 7 then Upcoming else Pending;
      schedule := schedule + [Installment(i, emi, principalPayment, interestPayment, balance, status)];
      i := i + 1;
    }
  }

  // ----- totals and projections -----

  /** `calculateTotalInterest`: the instalments' total less the principal, rounded. */
  function TotalInterest(principal: real, annualRate: real, tenureMonths: nat): real
    requires EmiDefined(annualRate, tenureMonths)
  {
    Round2(Emi(principal, annualRate, tenureMonths) * tenureMonths as real - principal)
  }

  /** `calculateOutstandingBalance`: the closed-form balance after
      `monthsPaid` instalments; unrounded and unclamped at a zero rate,
      otherwise rounded and clamped at 0. It agrees with the month-by-month
      reference `OwedAfter` paying the EMI. */
  function OutstandingBalance(principal: real, annualRate: real, tenureMonths: nat, monthsPaid: nat): (b: real)
    requires EmiDefined(annualRate, tenureMonths)
    ensures var r := MonthlyRate(annualRate);
            var owed := OwedAfter(principal, r, Emi(principal, annualRate, tenureMonths), monthsPaid);
            b == if r == 0.0 then owed else Max0(Round2(owed))
  {
    var r := MonthlyRate(annualRate);
    var emi := Emi(principal, annualRate, tenureMonths);
    if r == 0.0 then
      OwedAtZeroRate(principal, emi, monthsPaid);
      principal - emi * monthsPaid as real
    else
      OwedClosedForm(principal, r, emi, monthsPaid);
      Max0(Round2(ClosedForm(principal, r, emi, monthsPaid)))
  }

  /** `P (1+r)^k - payment ((1+r)^k - 1) / r`, the balance formula of
      `calculateOutstandingBalance` for a non-zero rate. */
  function ClosedForm(principal: real, r: real, payment: real, k: nat): real
    requires r != 0.0
  {
    principal * Pow(1.0 + r, k) - payment * ((Pow(1.0 + r, k) - 1.0) / r)
  }

  /** At a zero rate the balance falls by one payment a month. */
  lemma {:induction false} OwedAtZeroRate(principal: real, payment: real, k: nat)
    ensures OwedAfter(principal, 0.0, payment, k) == principal - payment * k as real
  {
    if k > 0 {
      OwedAtZeroRate(principal, payment, k - 1);
    }
  }

  /** The month-by-month balance agrees with the closed form. */
  lemma {:induction false} OwedClosedForm(principal: real, r: real, payment: real, k: nat)
    requires r != 0.0
    ensures OwedAfter(principal, r, payment, k) == ClosedForm(principal, r, payment, k)
  {
    OwedTimesRate(principal, r, payment, k);
    DivideThrough(principal, r, Pow(1.0 + r, k), payment, OwedAfter(principal, r, payment, k));
  }

  lemma DivideThrough(p: real, r: real, q: real, e: real, owed: real)
    requires r != 0.0
    requires r * owed == p * r * q - e * (q - 1.0)
    ensures owed == p * q - e * ((q - 1.0) / r)
  {
    assert e * ((q - 1.0) / r) == (e * (q - 1.0)) / r;
    assert owed == (r * owed) / r;
  }

  /** The closed form multiplied through by r, so that its induction needs no division. */
  lemma {:induction false} OwedTimesRate(principal: real, r: real, payment: real, k: nat)
    ensures r * OwedAfter(principal, r, payment, k)
            == principal * r * Pow(1.0 + r, k) - payment * (Pow(1.0 + r, k) - 1.0)
  {
    if k > 0 {
      OwedTimesRate(principal, r, payment, k - 1);
      AccrueAndPay(principal, r, payment,
                   Pow(1.0 + r, k - 1), OwedAfter(principal, r, payment, k - 1),
                   Pow(1.0 + r, k), OwedAfter(principal, r, payment, k));
    }
  }

  /** One month of the scaled balance: if `r b = p r q - e (q - 1)`, then
      after accruing and paying, `r b' = p r q' - e (q' - 1)` with `q' = q (1+r)`. */
  lemma AccrueAndPay(p: real, r: real, e: real, q: real, b: real, q': real, b': real)
    requires r * b == p * r * q - e * (q - 1.0)
    requires q' == (1.0 + r) * q && b' == b * (1.0 + r) - e
    ensures r * b' == p * r * q' - e * (q' - 1.0)
  {
    calc {
      r * b';
      r * (b * (1.0 + r) - e);
      (r * b) * (1.0 + r) - r * e;
      (p * r * q - e * (q - 1.0)) * (1.0 + r) - r * e;
      p * r * ((1.0 + r) * q) - e * ((1.0 + r) * q - 1.0);
    }
  }
}
