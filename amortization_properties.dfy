/** What the amortization functions promise, proved about the model:
    the EMI solves the level-payment equation, the schedule's shape and
    running balance, how total interest relates to the schedule, and the
    outstanding-balance projection at its end points. */
module AmortizationProperties {
  import opened Money
  import opened Amortization

  // ----- the EMI -----

  /** At a zero rate the EMI is the principal split evenly over the months. */
  lemma ZeroRateEmi(principal: real, tenureMonths: nat)
    requires tenureMonths >= 1
    ensures Emi(principal, 0.0, tenureMonths) * tenureMonths as real == principal
  {
    DivisionCancels(principal, tenureMonths as real, Emi(principal, 0.0, tenureMonths));
  }

  /** With a non-zero rate the EMI is the annuity payment to the nearest cent. */
  lemma EmiNearAnnuity(principal: real, annualRate: real, tenureMonths: nat)
    requires EmiDefined(annualRate, tenureMonths) && annualRate != 0.0
    ensures var exact := Annuity(principal, MonthlyRate(annualRate), tenureMonths);
            exact - 0.005 < Emi(principal, annualRate, tenureMonths) <= exact + 0.005
  {
  }

  /** With a non-zero rate the EMI is a whole number of cents. */
  lemma EmiIsCents(principal: real, annualRate: real, tenureMonths: nat)
    requires EmiDefined(annualRate, tenureMonths) && annualRate != 0.0
    ensures IsCents(Emi(principal, annualRate, tenureMonths))
  {
  }

  /** A positive rate over at least one month always has a positive annuity
      denominator, so the EMI is defined. */
  lemma PositiveRateDenominator(annualRate: real, tenureMonths: nat)
    requires annualRate > 0.0 && tenureMonths >= 1
    ensures Pow(1.0 + MonthlyRate(annualRate), tenureMonths) - 1.0 > 0.0
    ensures EmiDefined(annualRate, tenureMonths)
  {
    PowAboveOne(1.0 + MonthlyRate(annualRate), tenureMonths);
  }

  /** The annuity payment is the one level payment that leaves nothing owed
      after n months, and it is the only one. */
  lemma AnnuityIsTheLevelPayment(principal: real, r: real, n: nat, payment: real)
    requires r != 0.0 && Pow(1.0 + r, n) != 1.0
    ensures OwedAfter(principal, r, payment, n) == 0.0 <==> payment == Annuity(principal, r, n)
  {
    OwedTimesRate(principal, r, payment, n);
    var owed := OwedAfter(principal, r, payment, n);
    AnnuityEquation(principal, r, n);
    LevelPaymentAlgebra(principal, r, Pow(1.0 + r, n), Annuity(principal, r, n), payment, r * owed);
    ZeroProduct(r, owed);
  }

  /** The algebra behind the annuity: with `a = p r q / (q - 1)`, the scaled
      balance `p r q - e (q - 1)` is `(a - e)(q - 1)`, zero exactly when `e = a`. */
  lemma LevelPaymentAlgebra(p: real, r: real, q: real, a: real, e: real, scaled: real)
    requires q != 1.0
    requires a * (q - 1.0) == p * r * q
    requires scaled == p * r * q - e * (q - 1.0)
    ensures scaled == 0.0 <==> e == a
  {
    Shortfall(p, r, q, a, e, scaled);
    ZeroProduct(q - 1.0, a - e);
  }

  /** The scaled balance `p r q - e (q - 1)` is the shortfall `(a - e)(q - 1)`. */
  lemma Shortfall(p: real, r: real, q: real, a: real, e: real, scaled: real)
    requires a * (q - 1.0) == p * r * q
    requires scaled == p * r * q - e * (q - 1.0)
    ensures scaled == (a - e) * (q - 1.0)
  {
    assert scaled == a * (q - 1.0) - e * (q - 1.0);
  }

  lemma ZeroProduct(x: real, y: real)
    requires x != 0.0
    ensures x * y == 0.0 <==> y == 0.0
  {
    if x * y == 0.0 {
      assert y == (x * y) / x;
    }
  }

  /** At a zero rate the EMI repays the principal in exactly n payments. */
  lemma ZeroRateEmiAmortizes(principal: real, tenureMonths: nat)
    requires tenureMonths >= 1
    ensures OwedAfter(principal, 0.0, Emi(principal, 0.0, tenureMonths), tenureMonths) == 0.0
  {
    ZeroRateEmi(principal, tenureMonths);
    OwedAtZeroRate(principal, Emi(principal, 0.0, tenureMonths), tenureMonths);
  }

  // ----- the schedule -----

  /** n rows, months 1..n in order, the same EMI on every row, no negative
      balance, and the engine's index-based status tag. */
  lemma ScheduleShape(principal: real, annualRate: real, tenureMonths: nat)
    requires EmiDefined(annualRate, tenureMonths)
    ensures var s := Schedule(principal, annualRate, tenureMonths);
            && |s| == tenureMonths
            && (forall i :: 0 <= i < |s| ==> s[i].month == i + 1)
            && (forall i :: 0 <= i < |s| ==> s[i].emi == Emi(principal, annualRate, tenureMonths))
            && (forall i :: 0 <= i < |s| ==> s[i].balance >= 0.0)
            && (forall i :: 0 <= i < |s| ==> s[i].status == StatusOfMonth(i + 1))
  {
  }

  /** Each row is computed from the balance the previous row left (the first
      from the principal): interest on it, then principal, then the new balance. */
  lemma ScheduleCarriesBalance(principal: real, annualRate: real, tenureMonths: nat, i: nat)
    requires EmiDefined(annualRate, tenureMonths) && i < tenureMonths
    ensures var s := Schedule(principal, annualRate, tenureMonths);
            var r := MonthlyRate(annualRate);
            var prev := if i == 0 then principal else s[i - 1].balance;
            && s[i].interest == InterestPart(prev, r)
            && s[i].principal == Round2(s[i].emi - s[i].interest)
            && s[i].balance == Max0(Round2(prev - s[i].principal))
  {
    RowsCarryBalance(principal, MonthlyRate(annualRate), Emi(principal, annualRate, tenureMonths), tenureMonths, i);
  }

  lemma RowsCarryBalance(principal: real, r: real, emi: real, n: nat, i: nat)
    requires i < n
    ensures var s := Rows(principal, r, emi, n);
            var prev := if i == 0 then principal else s[i - 1].balance;
            && s[i].interest == InterestPart(prev, r)
            && s[i].principal == Round2(s[i].emi - s[i].interest)
            && s[i].balance == Max0(Round2(prev - s[i].principal))
  {
    var s := Rows(principal, r, emi, n);
    var prev := if i == 0 then principal else s[i - 1].balance;
    assert prev == BalanceAfter(principal, r, emi, i);
  }

  /** The status column depends on the row index alone: two schedules of the
      same length carry the same tags whatever their amounts. */
  lemma StatusIgnoresAmounts(p1: real, rate1: real, p2: real, rate2: real, tenureMonths: nat, i: nat)
    requires EmiDefined(rate1, tenureMonths) && EmiDefined(rate2, tenureMonths)
    requires i < tenureMonths
    ensures Schedule(p1, rate1, tenureMonths)[i].status == Schedule(p2, rate2, tenureMonths)[i].status
    ensures Schedule(p1, rate1, tenureMonths)[i].status
            == (if i < 6 then Paid else if i == 6 then Upcoming else Pending)
  {
  }

  /** The last balance need not be zero: 100 at 0% over 3 months pays
      33.33 of principal a month and leaves one cent. */
  lemma FinalBalanceCanBeNonZero()
    ensures EmiDefined(0.0, 3)
    ensures Schedule(100.0, 0.0, 3)[2].balance == 0.01
  {
    assert Emi(100.0, 0.0, 3) == 100.0 / 3.0;
    assert MonthlyRate(0.0) == 0.0;
    ThreeMonthsAtZeroRate();
  }

  /** The running balance of that example, month by month. */
  lemma ThreeMonthsAtZeroRate()
    ensures BalanceAfter(100.0, 0.0, 100.0 / 3.0, 3) == 0.01
  {
    var emi := 100.0 / 3.0;
    ZeroRateMonth(100.0, emi, 66.67);
    assert BalanceAfter(100.0, 0.0, emi, 1) == 66.67;
    ZeroRateMonth(66.67, emi, 33.34);
    assert BalanceAfter(100.0, 0.0, emi, 2) == 33.34;
    ZeroRateMonth(33.34, emi, 0.01);
  }

  /** One month of that example: no interest, 33.33 of principal. */
  lemma ZeroRateMonth(balance: real, emi: real, next: real)
    requires emi == 100.0 / 3.0 && balance >= 33.33 && next == balance - 33.33 && IsCents(next)
    ensures NextBalance(balance, 0.0, emi) == next
  {
    assert InterestPart(balance, 0.0) == 0.0 by {
      assert 100.0 * (balance * 0.0) + 0.5 == 0.5;
    }
    assert PrincipalPart(balance, 0.0, emi) == 33.33 by {
      assert 100.0 * (emi - 0.0) + 0.5 == 3333.0 + 5.0 / 6.0;
    }
    Round2OfCents(next);
  }

  /** Over a long tenure the rounding error builds up: 100 at 0% over 300
      months pays 0.33 a month and leaves a whole unit unpaid. */
  lemma LongTenureLeavesMore()
    ensures EmiDefined(0.0, 300)
    ensures Schedule(100.0, 0.0, 300)[299].balance == 1.0
  {
    assert Emi(100.0, 0.0, 300) == 1.0 / 3.0;
    assert MonthlyRate(0.0) == 0.0;
    ThirdsAtZeroRate(300);
  }

  /** The running balance of that example: 0.33 less every month. */
  lemma {:induction false} ThirdsAtZeroRate(k: nat)
    requires k <= 300
    ensures BalanceAfter(100.0, 0.0, 1.0 / 3.0, k) == 100.0 - 0.33 * k as real
  {
    if k > 0 {
      ThirdsAtZeroRate(k - 1);
      var next := 100.0 - 0.33 * k as real;
      assert next == (10000 - 33 * k) as real / 100.0;
      CentsOfInt(10000 - 33 * k);
      ThirdMonth(100.0 - 0.33 * (k - 1) as real, next);
    }
  }

  /** One month of that example: no interest, 0.33 of principal. */
  lemma ThirdMonth(balance: real, next: real)
    requires balance >= 0.33 && next == balance - 0.33 && IsCents(next)
    ensures NextBalance(balance, 0.0, 1.0 / 3.0) == next
  {
    assert InterestPart(balance, 0.0) == 0.0 by {
      assert 100.0 * (balance * 0.0) + 0.5 == 0.5;
    }
    assert PrincipalPart(balance, 0.0, 1.0 / 3.0) == 0.33 by {
      Round2Of(1.0 / 3.0 - 0.0, 33);
    }
    Round2OfCents(next);
  }

  // ----- total interest against the schedule -----

  /** The interest column summed over the first k rows of the running balance. */
  function InterestPaid(principal: real, r: real, emi: real, k: nat): real
  {
    if k == 0 then 0.0
    else InterestPaid(principal, r, emi, k - 1) + InterestPart(BalanceAfter(principal, r, emi, k - 1), r)
  }

  /** Row i does not pay more principal than the balance it starts from. */
  predicate Covered(principal: real, r: real, emi: real, i: nat)
  {
    PrincipalPart(BalanceAfter(principal, r, emi, i), r, emi) <= BalanceAfter(principal, r, emi, i)
  }

  /** No row among the first k pays more principal than the balance it starts from
      (so the clamp at 0 never cuts a payment). */
  predicate NoOverpayment(principal: real, r: real, emi: real, k: nat)
  {
    forall i :: 0 <= i < k ==> Covered(principal, r, emi, i)
  }

  /** The total of k instalments of `emi`. */
  function Instalments(emi: real, k: nat): (total: real)
    ensures total == emi * k as real
  {
    if k == 0 then 0.0 else Instalments(emi, k - 1) + emi
  }

  /** What the clamp at 0 discards in a month that starts from balance b: the
      principal part paid beyond the balance, or nothing. */
  function Overpayment(b: real, r: real, emi: real): (o: real)
    ensures o >= 0.0
    ensures o == 0.0 <==> PrincipalPart(b, r, emi) <= b
  {
    Max0(PrincipalPart(b, r, emi) - b)
  }

  /** What the clamp discards over the first k months. */
  function Overpaid(principal: real, r: real, emi: real, k: nat): (total: real)
    ensures total >= 0.0
  {
    if k == 0 then 0.0
    else Overpaid(principal, r, emi, k - 1) + Overpayment(BalanceAfter(principal, r, emi, k - 1), r, emi)
  }

  /** With whole-cent principal and EMI, the interest paid over k months is
      what the k instalments paid beyond the principal they retired, less
      what the clamp at 0 discarded: `k * emi - (principal - balance) - overpaid`. */
  lemma {:induction false} InterestTelescopes(principal: real, r: real, emi: real, k: nat)
    requires IsCents(principal) && IsCents(emi)
    ensures IsCents(BalanceAfter(principal, r, emi, k))
    ensures InterestPaid(principal, r, emi, k)
            == Instalments(emi, k) - principal + BalanceAfter(principal, r, emi, k)
               - Overpaid(principal, r, emi, k)
  {
    if k > 0 {
      InterestTelescopes(principal, r, emi, k - 1);
      TelescopeStep(BalanceAfter(principal, r, emi, k - 1), r, emi);
    }
  }

  /** One month of a whole-cent balance: the new balance is the old one less
      the EMI plus the month's interest and what the clamp discarded, in whole cents. */
  lemma TelescopeStep(b: real, r: real, emi: real)
    requires IsCents(b) && IsCents(emi)
    ensures IsCents(NextBalance(b, r, emi))
    ensures NextBalance(b, r, emi) == b - emi + InterestPart(b, r) + Overpayment(b, r, emi)
  {
    var interest := InterestPart(b, r);
    IsCentsSum(emi, interest);
    Round2OfCents(emi - interest);
    var pp := PrincipalPart(b, r, emi);
    IsCentsSum(b, pp);
    Round2OfCents(b - pp);
    CentsOfInt(0);
  }

  /** When no month pays more principal than it owes, the clamp discards nothing. */
  lemma {:induction false} NothingOverpaid(principal: real, r: real, emi: real, k: nat)
    requires NoOverpayment(principal, r, emi, k)
    ensures Overpaid(principal, r, emi, k) == 0.0
  {
    if k > 0 {
      assert Covered(principal, r, emi, k - 1);
      NothingOverpaid(principal, r, emi, k - 1);
    }
  }

  /** The sum of a schedule's interest column. */
  function SumInterest(rows: seq<Installment>): real
  {
    if rows == [] then 0.0 else SumInterest(rows[..|rows| - 1]) + rows[|rows| - 1].interest
  }

  /** The interest column of the first k rows sums to the interest paid over k months. */
  lemma {:induction false} SumInterestOfRows(principal: real, r: real, emi: real, n: nat, k: nat)
    requires k <= n
    ensures SumInterest(Rows(principal, r, emi, n)[..k]) == InterestPaid(principal, r, emi, k)
  {
    if k > 0 {
      var s := Rows(principal, r, emi, n);
      assert s[..k][..k - 1] == s[..k - 1];
      SumInterestOfRows(principal, r, emi, n, k - 1);
    }
  }

  /** The telescoped sum for whole rows: with whole-cent principal and EMI
      the interest column is the cent-rounded `n * emi - principal`, plus the
      final balance, less what the clamp at 0 discarded. */
  lemma RowsInterestTotal(principal: real, r: real, emi: real, n: nat)
    requires n >= 1 && IsCents(principal) && IsCents(emi)
    ensures var s := Rows(principal, r, emi, n);
            SumInterest(s) == Round2(emi * n as real - principal) + s[n - 1].balance
                              - Overpaid(principal, r, emi, n)
  {
    var s := Rows(principal, r, emi, n);
    SumInterestOfRows(principal, r, emi, n, n);
    assert s[..n] == s;
    InterestTelescopes(principal, r, emi, n);
    InstalmentsBeyondPrincipal(principal, emi, n);
    assert s[n - 1].balance == BalanceAfter(principal, r, emi, n);
  }

  /** With whole-cent principal and EMI, `n * emi - principal` needs no rounding. */
  lemma InstalmentsBeyondPrincipal(principal: real, emi: real, n: nat)
    requires IsCents(principal) && IsCents(emi)
    ensures Round2(emi * n as real - principal) == Instalments(emi, n) - principal
  {
    IsCentsTimes(emi, n);
    IsCentsSum(emi * n as real, principal);
    Round2OfCents(emi * n as real - principal);
  }

  /** When no month overpays, the interest column is exactly the rounded
      `n * emi - principal` plus the final balance. */
  lemma RowsInterestNoOverpayment(principal: real, r: real, emi: real, n: nat)
    requires n >= 1 && IsCents(principal) && IsCents(emi)
    requires NoOverpayment(principal, r, emi, n)
    ensures var s := Rows(principal, r, emi, n);
            SumInterest(s) == Round2(emi * n as real - principal) + s[n - 1].balance
  {
    RowsInterestTotal(principal, r, emi, n);
    NothingOverpaid(principal, r, emi, n);
  }

  /** 100 at 6% over 2 months: the EMI rounds up to 50.38. */
  lemma SixPercentTwoMonthsEmi()
    ensures EmiDefined(6.0, 2) && MonthlyRate(6.0) == 0.005
    ensures Emi(100.0, 6.0, 2) == 50.38
  {
    assert MonthlyRate(6.0) == 0.005;
    assert Pow(1.005, 2) == 1.010025;
    var a := Annuity(100.0, 0.005, 2);
    assert a == 0.5050125 / 0.010025;
    Round2Of(a, 5038);
  }

  /** Its rows: 0.50 then 0.25 of interest, and month 2 pays 50.13 of
      principal on 50.12 owed, so the clamp discards a cent and the final
      balance is 0. */
  lemma SixPercentTwoMonthsRows()
    ensures var s := Rows(100.0, 0.005, 50.38, 2);
            s[0].interest == 0.5 && s[1].interest == 0.25 && s[1].principal == 50.13 && s[1].balance == 0.0
    ensures Overpaid(100.0, 0.005, 50.38, 2) == 0.01
  {
    Round2Of(100.0 * 0.005, 50);
    Round2Of(50.38 - 0.5, 4988);
    Round2Of(100.0 - 49.88, 5012);
    assert BalanceAfter(100.0, 0.005, 50.38, 1) == 50.12;
    Round2Of(50.12 * 0.005, 25);
    Round2Of(50.38 - 0.25, 5013);
    Round2Of(50.12 - 50.13, -1);
    assert BalanceAfter(100.0, 0.005, 50.38, 2) == 0.0;
  }

  /** So the interest column (0.75) falls a cent short of `calculateTotalInterest`
      (0.76) although the final balance is 0: the identity without an
      overpayment term does not hold for every loan. */
  lemma InterestColumnShortOfTotal()
    ensures EmiDefined(6.0, 2)
    ensures var s := Schedule(100.0, 6.0, 2);
            SumInterest(s) == 0.75 && s[1].balance == 0.0 && TotalInterest(100.0, 6.0, 2) == 0.76
  {
    SixPercentTwoMonthsEmi();
    SixPercentTwoMonthsRows();
    var s := Rows(100.0, 0.005, 50.38, 2);
    assert s[..1] == [s[0]];
    assert SumInterest(s) == 0.75;
    Round2Of(50.38 * 2.0 - 100.0, 76);
  }

  /** At a zero rate there is no interest. */
  lemma ZeroRateNoInterest(principal: real, tenureMonths: nat)
    requires tenureMonths >= 1
    ensures TotalInterest(principal, 0.0, tenureMonths) == 0.0
  {
    ZeroRateEmi(principal, tenureMonths);
    var owed := Emi(principal, 0.0, tenureMonths) * tenureMonths as real - principal;
    assert owed == 0.0;
    assert TotalInterest(principal, 0.0, tenureMonths) == Round2(owed);
    Round2OfCents(owed);
  }

  /** At a zero rate the schedule's interest column is 0 too, whatever the
      final balance. */
  lemma ZeroRateInterestColumn(principal: real, tenureMonths: nat)
    requires tenureMonths >= 1
    ensures EmiDefined(0.0, tenureMonths)
    ensures SumInterest(Schedule(principal, 0.0, tenureMonths)) == 0.0
  {
    var emi := Emi(principal, 0.0, tenureMonths);
    assert MonthlyRate(0.0) == 0.0;
    var s := Rows(principal, 0.0, emi, tenureMonths);
    SumInterestOfRows(principal, 0.0, emi, tenureMonths, tenureMonths);
    assert s[..tenureMonths] == s;
    NoInterestAtZeroRate(principal, emi, tenureMonths);
  }

  /** Nothing accrues at a zero rate. */
  lemma {:induction false} NoInterestAtZeroRate(principal: real, emi: real, k: nat)
    ensures InterestPaid(principal, 0.0, emi, k) == 0.0
  {
    if k > 0 {
      NoInterestAtZeroRate(principal, emi, k - 1);
      var b := BalanceAfter(principal, 0.0, emi, k - 1);
      Round2Of(b * 0.0, 0);
    }
  }

  // ----- outstanding balance -----

  /** Before any payment the projection is the principal: exact at a zero
      rate, rounded to the cent otherwise. */
  lemma OutstandingAtStart(principal: real, annualRate: real, tenureMonths: nat)
    requires EmiDefined(annualRate, tenureMonths) && principal >= 0.0
    ensures OutstandingBalance(principal, annualRate, tenureMonths, 0)
            == if annualRate == 0.0 then principal else Round2(principal)
  {
    Round2NonNegative(principal);
  }

  /** With a non-zero rate the projection is never negative. */
  lemma OutstandingNonNegative(principal: real, annualRate: real, tenureMonths: nat, monthsPaid: nat)
    requires EmiDefined(annualRate, tenureMonths) && annualRate != 0.0
    ensures OutstandingBalance(principal, annualRate, tenureMonths, monthsPaid) >= 0.0
  {
  }

  /** At a zero rate nothing clamps the projection: past the tenure it goes negative. */
  lemma ZeroRateOverrunsPastTenure(principal: real, tenureMonths: nat, monthsPaid: nat)
    requires tenureMonths >= 1 && principal > 0.0 && monthsPaid > tenureMonths
    ensures OutstandingBalance(principal, 0.0, tenureMonths, monthsPaid) < 0.0
  {
    var emi := Emi(principal, 0.0, tenureMonths);
    ZeroRateEmi(principal, tenureMonths);
    assert emi > 0.0;
    assert emi * monthsPaid as real > emi * tenureMonths as real;
  }

  /** At maturity the unrounded balance left by any level payment is the
      payment's shortfall from the annuity carried for n months:
      `r * owed == (annuity - payment) * ((1+r)^n - 1)`. For the EMI the
      difference is its rounding error. The projection at maturity is 0 when
      the annuity is whole cents, and also when the EMI was rounded up (the
      negative balance is clamped). When the EMI was rounded down it is the
      shortfall compounded, `(annuity - emi) * ((1+r)^n - 1) / r`, rounded. */
  lemma OwedAtMaturity(principal: real, r: real, n: nat, payment: real)
    requires Pow(1.0 + r, n) != 1.0
    ensures r * OwedAfter(principal, r, payment, n)
            == (Annuity(principal, r, n) - payment) * (Pow(1.0 + r, n) - 1.0)
  {
    OwedTimesRate(principal, r, payment, n);
    AnnuityEquation(principal, r, n);
    Shortfall(principal, r, Pow(1.0 + r, n), Annuity(principal, r, n), payment,
              r * OwedAfter(principal, r, payment, n));
  }
}
