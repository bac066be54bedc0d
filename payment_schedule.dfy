/** The borrower's payment-schedule page: which loan it shows, and the
    paid / upcoming / pending overlay it lays over the engine's schedule
    according to how many months the loan has paid. */
module PaymentSchedule {
  import opened Options
  import opened Amortization

  /** The loan fields the page reads. */
  datatype Loan = Loan(id: string, borrowerId: string, status: string, principal: real,
                       annualRate: real, tenureMonths: nat, paidMonths: nat)

  /** The signed-in borrower the page is written for. */
  const Borrower: string := "u4"

  /** A loan the page lists: the borrower's own, and active. */
  predicate IsMine(l: Loan)
  {
    l.borrowerId == Borrower && l.status == "active"
  }

  /** `myLoans`: the borrower's active loans, in order. */
  function MyLoans(loans: seq<Loan>): (r: seq<Loan>)
    ensures |r| <= |loans|
    ensures forall l :: l in r <==> l in loans && IsMine(l)
  {
    if loans == [] then []
    else if IsMine(loans[0]) then [loans[0]] + MyLoans(loans[1..])
    else MyLoans(loans[1..])
  }

  /** `selectedLoan || myLoans[0]`: the loan chosen with a selector button,
      otherwise the first of the borrower's active loans, if there is one. */
  function CurrentLoan(selected: Option<Loan>, loans: seq<Loan>): (c: Option<Loan>)
    ensures selected.Some? ==> c == selected
    ensures selected.None? ==> (c.None? <==> forall l :: l in loans ==> !IsMine(l))
    ensures selected.None? && c.Some? ==> c.value in loans && IsMine(c.value)
  {
    if selected.Some? then selected
    else
      var mine := MyLoans(loans);
      if mine == [] then None
      else
        assert mine[0] in mine;
        Some(mine[0])
  }

  /** Without a selection the page shows the first loan of the list that is
      the borrower's and active. */
  lemma {:induction false} FirstActiveLoanShown(loans: seq<Loan>, k: nat)
    requires k < |loans| && IsMine(loans[k])
    requires forall i :: 0 <= i < k ==> !IsMine(loans[i])
    ensures CurrentLoan(None, loans) == Some(loans[k])
  {
    if k > 0 {
      FirstActiveLoanShown(loans[1..], k - 1);
    }
  }

  // ----- the overlay -----

  /** The overlay's status of the row at 0-based index idx. */
  function StatusAt(idx: nat, paidMonths: nat): Status
  {
    if idx < paidMonths then Paid else if idx == paidMonths then Upcoming else Pending
  }

  /** `displaySchedule`: every row copied, its status replaced by the one its
      index and the paid months give. */
  function DisplaySchedule(schedule: seq<Installment>, paidMonths: nat): (d: seq<Installment>)
    ensures |d| == |schedule|
    ensures forall i :: 0 <= i < |d| ==> d[i].(status := schedule[i].status) == schedule[i]
    ensures forall i :: 0 <= i < |d| ==>
              (d[i].status == Paid <==> i < paidMonths) &&
              (d[i].status == Upcoming <==> i == paidMonths) &&
              (d[i].status == Pending <==> i > paidMonths)
  {
    seq(|schedule|, i requires 0 <= i < |schedule| => schedule[i].(status := StatusAt(i, paidMonths)))
  }

  /** The overlay ignores the engine's own status tags: schedules that differ
      only in their tags display the same. */
  lemma EngineTagOverwritten(s1: seq<Installment>, s2: seq<Installment>, paidMonths: nat)
    requires |s1| == |s2|
    requires forall i :: 0 <= i < |s1| ==> s1[i].(status := Paid) == s2[i].(status := Paid)
    ensures DisplaySchedule(s1, paidMonths) == DisplaySchedule(s2, paidMonths)
  {
    var d1, d2 := DisplaySchedule(s1, paidMonths), DisplaySchedule(s2, paidMonths);
    forall i | 0 <= i < |d1|
      ensures d1[i] == d2[i]
    {
      assert s1[i].(status := Paid) == s2[i].(status := Paid);
    }
  }

  /** The engine tags month 1 paid, but a loan with nothing paid displays it
      as the upcoming instalment. */
  lemma OverlayDisagreesWithEngine(principal: real, r: real, emi: real)
    ensures var s := Rows(principal, r, emi, 1);
            s[0].status == Paid && DisplaySchedule(s, 0)[0].status == Upcoming
  {
  }

  /** The position of a status in the paid -> upcoming -> pending order. */
  function Rank(s: Status): nat
  {
    match s
    case Paid => 0
    case Upcoming => 1
    case Pending => 2
  }

  /** Paid rows come first, then at most one upcoming row, then the pending rows. */
  lemma StatusesOrdered(schedule: seq<Installment>, paidMonths: nat, i: nat, j: nat)
    requires i < j < |schedule|
    ensures var d := DisplaySchedule(schedule, paidMonths);
            Rank(d[i].status) <= Rank(d[j].status) && !(d[i].status == Upcoming && d[j].status == Upcoming)
  {
  }

  /** The number of paid rows. */
  function PaidRows(d: seq<Installment>): nat
  {
    if d == [] then 0
    else PaidRows(d[..|d| - 1]) + (if d[|d| - 1].status == Paid then 1 else 0)
  }

  /** Exactly `min(paidMonths, n)` of the n rows display as paid. */
  lemma {:induction false} PaidCount(schedule: seq<Installment>, paidMonths: nat)
    ensures PaidRows(DisplaySchedule(schedule, paidMonths))
            == if paidMonths <= |schedule| then paidMonths else |schedule|
  {
    if schedule != [] {
      var n := |schedule|;
      var d := DisplaySchedule(schedule, paidMonths);
      var front := schedule[..n - 1];
      PaidCount(front, paidMonths);
      assert DisplaySchedule(front, paidMonths) == d[..n - 1];
    }
  }

  // ----- the page -----

  /** The engine can compute the schedule of the loan. */
  predicate HasSchedule(l: Loan)
  {
    EmiDefined(l.annualRate, l.tenureMonths)
  }

  /** The rows the page displays: the current loan's schedule with the
      overlay, or nothing when there is no loan. */
  function DisplayedRows(selected: Option<Loan>, loans: seq<Loan>): (d: seq<Installment>)
    requires selected.Some? ==> HasSchedule(selected.value)
    requires forall l :: l in loans && IsMine(l) ==> HasSchedule(l)
    ensures CurrentLoan(selected, loans).None? ==> d == []
    ensures CurrentLoan(selected, loans).Some? ==> |d| == CurrentLoan(selected, loans).value.tenureMonths
  {
    match CurrentLoan(selected, loans)
    case None => []
    case Some(l) =>
      assert selected.Some? ==> l == selected.value;
      assert selected.None? ==> l in loans && IsMine(l);
      assert HasSchedule(l);
      DisplaySchedule(Schedule(l.principal, l.annualRate, l.tenureMonths), l.paidMonths)
  }
}
