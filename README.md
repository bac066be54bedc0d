# Loan manager: the loan engine and the pages that use it

This is a Dafny model of the computational core of the loan-manager web
application. It covers the following.

- **The loan engine** (`src/utils/loanEngine.js`):
  - the level monthly instalment (EMI)
  - the month-by-month amortization schedule, with its cent rounding at every step
  - total interest
  - the closed-form projection of the outstanding balance
  - the additive borrower risk score, clamped to [0, 100]
  - the four risk categories
- **The data table** (`src/components/DataTable.jsx`). The component is a
  class whose four state hooks are fields: sort key, sort direction, page
  and filter text. The methods model the header click, the filter box and
  the paging buttons. The pure pipeline filter → sort → paginate is
  modelled as functions.
- **The payment-schedule page**: which loan it shows, and the
  paid/upcoming/pending overlay it lays over the engine's schedule.
- **The loan-application page**: the amount-tiered rate, the debt-to-income
  (DTI) ratio rounded to one decimal, the eligibility gate and the submit
  rule.
- **The analyst dashboard**: its risk distribution in four bands, with
  empty bands dropped.

Money is exact `real` arithmetic. `Math.round(x * 100) / 100` is
`Money.Round2`, defined as `floor(100x + 1/2) / 100`. Like `Math.round`, it
sends a tie toward +∞.

Modules, one per file:

| module | file | models |
|---|---|---|
| `Money` | `money.dfy` | cent rounding, powers, whole-cent amounts |
| `Amortization` | `amortization.dfy` | `calculateEMI`, `generateAmortizationSchedule`, `calculateTotalInterest`, `calculateOutstandingBalance` |
| `AmortizationProperties` | `amortization_properties.dfy` | what those functions promise |
| `Risk`, `RiskProperties` | `risk.dfy`, `risk_properties.dfy` | `assessRiskScore`, `getRiskCategory` and their properties |
| `Options`, `Sequences` | `options.dfy`, `sequences.dfy` | `Option`, order-preserving subsequences |
| `TableValues`, `TableSort`, `DataTable` | `table_values.dfy`, `table_sort.dfy`, `data_table.dfy` | cells, the sort order and the `DataTable` component |
| `PaymentSchedule` | `payment_schedule.dfy` | the payment-schedule page |
| `LoanApplication` | `loan_application.dfy` | the loan-application page |
| `AnalystDashboard` | `analyst_dashboard.dfy` | the risk-distribution chart data |

What the code does at its edges:

- **Tie rounding.** `Math.round` sends a tie toward +∞, not away from zero.
  This matters on negative ties: `Round2NegativeTie` shows -0.025 → -0.02.
- **Final balance.** The schedule's final balance is not always exactly 0.
  It carries the rounding error built up over the tenure, which can be far
  more than a cent on long tenures. 100 at 0% over 3 months leaves 0.01
  (`FinalBalanceCanBeNonZero`); over 300 months the EMI 1/3 pays 0.33 a
  month and leaves 1.00 (`LongTenureLeavesMore`).
- **Zero-rate EMI.** At a zero rate the EMI is `principal / tenure`. It is
  not rounded to the cent.
- **Projection past the tenure.** At a zero rate the outstanding-balance
  projection is not clamped at 0, so past the tenure it goes negative
  (`ZeroRateOverrunsPastTenure`).
- **Total interest against the schedule.** For a whole-cent principal and
  EMI, the schedule's interest column sums to the cent-rounded
  `n·EMI − principal`, plus the final balance, minus what the clamp of the
  balance at 0 discarded (`RowsInterestTotal`). This covers every
  non-zero-rate loan with a whole-cent principal, whose EMI is whole cents
  (`EmiIsCents`). At a zero rate the EMI need not be whole cents, and the
  identity fails; there the interest column and total interest are both 0
  whatever the final balance (`ZeroRateInterestColumn`,
  `ZeroRateNoInterest`). For whole-cent amounts with no month paying more
  principal than is owed, nothing is discarded (`RowsInterestNoOverpayment`). Otherwise `calculateTotalInterest` can
  exceed the interest column even with a final balance of 0. For 100 at 6%
  over 2 months the EMI is 50.38. Month 2 pays 50.13 of principal on 50.12
  owed, so the column sums to 0.75 while total interest is 0.76
  (`InterestColumnShortOfTotal`).
- **Input validation.** The engine functions reject no input: they have no
  error cases for bad loan terms, elapsed periods or risk profiles, so the
  model has none.

## Model

| member | source | states |
|---|---|---|
| Money.Round2 | src/utils/loanEngine.js:12 | `Math.round(x*100)/100` is a whole number of cents, within half a cent of x (above x - 0.005, at most x + 0.005) |
| Money.Round2NegativeTie | src/utils/loanEngine.js:12 | a negative tie rounds toward +∞: -0.025 becomes -0.02, not -0.03 |
| Money.Round2OfCents | src/utils/loanEngine.js:25-27 | rounding an amount that is already whole cents leaves it unchanged |
| Money.Round2Monotone | src/utils/loanEngine.js:12 | cent rounding never reorders two amounts |
| Amortization.AnnuityEquation | src/utils/loanEngine.js:11 | the unrounded instalment times `(1+r)^n - 1` equals `P r (1+r)^n` |
| AmortizationProperties.ZeroRateEmi | src/utils/loanEngine.js:8 | at a zero rate, n instalments repay exactly the principal |
| AmortizationProperties.EmiNearAnnuity | src/utils/loanEngine.js:9-12 | at a non-zero rate the EMI is within half a cent of the annuity payment |
| AmortizationProperties.EmiIsCents | src/utils/loanEngine.js:12 | at a non-zero rate the EMI is a whole number of cents |
| AmortizationProperties.PositiveRateDenominator | src/utils/loanEngine.js:11 | a positive rate over at least one month gives a positive denominator, so the EMI is defined |
| AmortizationProperties.AnnuityIsTheLevelPayment | src/utils/loanEngine.js:3-11 | a level payment leaves nothing owed after n months if and only if it is the annuity payment |
| AmortizationProperties.ZeroRateEmiAmortizes | src/utils/loanEngine.js:8 | the zero-rate EMI leaves nothing owed after n months |
| Amortization.Rows | src/utils/loanEngine.js:24-42 | n rows, row i computed from the balance left by the i rows before it |
| Amortization.AppendMonths | src/utils/loanEngine.js:21-43 | the loop carrying the balance and pushing one row per month produces exactly those rows |
| Amortization.Emi | src/utils/loanEngine.js:7-13 | no ensures; its properties are `EmiNearAnnuity`, `EmiIsCents` and `ZeroRateEmi` |
| Amortization.Schedule | src/utils/loanEngine.js:18-44 | no ensures; `GenerateAmortizationSchedule` is proved to return it, and its properties are `ScheduleShape` and `ScheduleCarriesBalance` |
| Amortization.GenerateAmortizationSchedule | src/utils/loanEngine.js:18-44 | returns the schedule of the EMI at the monthly rate `annualRate/100/12` |
| AmortizationProperties.ScheduleShape | src/utils/loanEngine.js:24-41 | `tenureMonths` rows; months 1..n; the same EMI on every row; no negative balance; the month-indexed status tag |
| AmortizationProperties.ScheduleCarriesBalance | src/utils/loanEngine.js:25-28 | each row's interest is on the previous row's balance (for the first row, on the principal); principal = round(EMI - interest); balance = max(0, round(previous - principal)) |
| AmortizationProperties.RowsCarryBalance | src/utils/loanEngine.js:25-28 | the same recurrence for rows at any rate and any EMI |
| AmortizationProperties.StatusIgnoresAmounts | src/utils/loanEngine.js:40 | the engine's tag depends on the month alone: months 1-6 paid, month 7 upcoming, later months pending |
| AmortizationProperties.FinalBalanceCanBeNonZero | src/utils/loanEngine.js:24-28 | 100 at 0% over 3 months leaves a final balance of 0.01, not 0 |
| AmortizationProperties.ThreeMonthsAtZeroRate | src/utils/loanEngine.js:25-28 | the running balance of that example is 66.67, 33.34, 0.01 |
| AmortizationProperties.LongTenureLeavesMore | src/utils/loanEngine.js:24-28 | 100 at 0% over 300 months leaves a final balance of 1.00 |
| AmortizationProperties.ThirdsAtZeroRate | src/utils/loanEngine.js:25-28 | in that example the balance after k ≤ 300 months is 100 − 0.33k |
| AmortizationProperties.ThirdMonth | src/utils/loanEngine.js:25-28 | one month of that example: no interest, 0.33 of principal |
| AmortizationProperties.Instalments | src/utils/loanEngine.js:51 | helper: the sum of k instalments is `emi * k` |
| AmortizationProperties.Overpayment | src/utils/loanEngine.js:27-28 | what the clamp at 0 discards in a month: never negative, and 0 exactly when the month's principal part does not exceed the balance |
| AmortizationProperties.Overpaid | src/utils/loanEngine.js:27-28 | helper: what the clamp discards over k months is never negative |
| AmortizationProperties.TelescopeStep | src/utils/loanEngine.js:25-28 | from a whole-cent balance with a whole-cent EMI the next balance is whole cents and equals balance − EMI + interest + what the clamp discarded |
| AmortizationProperties.InterestTelescopes | src/utils/loanEngine.js:25-28 | with whole-cent principal and EMI, interest over k months = k·EMI − principal + balance after k months − what the clamp discarded |
| AmortizationProperties.NothingOverpaid | src/utils/loanEngine.js:27-28 | when no month pays more principal than is owed, the clamp discards nothing |
| AmortizationProperties.SumInterestOfRows | src/utils/loanEngine.js:25 | the interest column of the first k rows sums to the interest paid over k months |
| AmortizationProperties.RowsInterestTotal | src/utils/loanEngine.js:24-51 | with whole-cent principal and EMI, the interest column sums to `round2(emi*n - principal)` plus the final balance minus what the clamp discarded |
| AmortizationProperties.InstalmentsBeyondPrincipal | src/utils/loanEngine.js:51 | with whole-cent principal and EMI, `emi*n - principal` is already whole cents, so its rounding is exact |
| AmortizationProperties.RowsInterestNoOverpayment | src/utils/loanEngine.js:24-51 | for a whole-cent principal and EMI, when no month overpays, the interest column sums to exactly `round2(emi*n - principal)` plus the final balance |
| AmortizationProperties.SixPercentTwoMonthsEmi | src/utils/loanEngine.js:7-13 | 100 at 6% over 2 months: the monthly rate is 0.005 and the EMI rounds to 50.38 |
| AmortizationProperties.SixPercentTwoMonthsRows | src/utils/loanEngine.js:24-28 | its rows carry 0.50 and 0.25 of interest; month 2 pays 50.13 on 50.12 owed, the balance is clamped to 0 and a cent is discarded |
| AmortizationProperties.InterestColumnShortOfTotal | src/utils/loanEngine.js:24-52 | for that loan the interest column sums to 0.75 while `calculateTotalInterest` gives 0.76, with a final balance of 0 |
| Amortization.TotalInterest | src/utils/loanEngine.js:49-52 | no ensures; its properties are `RowsInterestTotal`, `InterestColumnShortOfTotal` and `ZeroRateNoInterest` |
| AmortizationProperties.ZeroRateNoInterest | src/utils/loanEngine.js:49-52 | at a zero rate total interest is 0 |
| AmortizationProperties.ZeroRateInterestColumn | src/utils/loanEngine.js:24-28 | at a zero rate the schedule's interest column sums to 0, whatever its final balance |
| AmortizationProperties.NoInterestAtZeroRate | src/utils/loanEngine.js:25 | at a zero rate no month accrues interest |
| Amortization.OutstandingBalance | src/utils/loanEngine.js:57-63 | the closed form equals the balance owed after `monthsPaid` level payments of the EMI: exact at a zero rate, otherwise rounded and clamped at 0 |
| Amortization.OwedAtZeroRate | src/utils/loanEngine.js:60 | at a zero rate the balance falls by one payment a month |
| Amortization.OwedClosedForm | src/utils/loanEngine.js:61 | the month-by-month balance equals `P(1+r)^k - e((1+r)^k - 1)/r` |
| Amortization.OwedTimesRate | src/utils/loanEngine.js:61 | the same identity multiplied through by r |
| AmortizationProperties.OutstandingAtStart | src/utils/loanEngine.js:57-63 | with no months paid the projection is the principal, rounded to the cent at a non-zero rate |
| AmortizationProperties.OutstandingNonNegative | src/utils/loanEngine.js:62 | at a non-zero rate the projection is never negative |
| AmortizationProperties.ZeroRateOverrunsPastTenure | src/utils/loanEngine.js:60 | at a zero rate, past the tenure the projection is negative |
| AmortizationProperties.OwedAtMaturity | src/utils/loanEngine.js:61 | at maturity, r times the unrounded balance is the payment's shortfall from the annuity times `(1+r)^n - 1` |
| Risk.Clamp | src/utils/loanEngine.js:85 | `max(0, min(100, x))` lies in [0, 100]: x when x is in range, otherwise the nearer bound |
| Risk.RawScore | src/utils/loanEngine.js:69-83 | no ensures; its properties are `RiskScore`, `RawScoreAtMost100` and the monotonicity lemmas |
| Risk.RiskScore | src/utils/loanEngine.js:68-86 | the score lies in [0, 100] |
| Risk.AssessRiskScore | src/utils/loanEngine.js:68-86 | the step-by-step updates of the local score give the clamped sum of the four band adjustments, in [0, 100] |
| Risk.GetRiskCategory | src/utils/loanEngine.js:91-96 | Low Risk iff score ≥ 80; Medium iff 60 ≤ score < 80; High iff 40 ≤ score < 60; Very High Risk iff score < 40 |
| RiskProperties.RawScoreAtMost100 | src/utils/loanEngine.js:69-83 | the unclamped sum is at most 100, and equals 100 iff every factor is in its best band |
| RiskProperties.TopScore | src/utils/loanEngine.js:68-86 | the score is 100 exactly for the best band of every factor |
| RiskProperties.ClampMonotone | src/utils/loanEngine.js:85 | clamping keeps the order of two scores |
| RiskProperties.MonotoneInCreditScore | src/utils/loanEngine.js:70-73 | a higher credit score never lowers the score |
| RiskProperties.AntitoneInDti | src/utils/loanEngine.js:75-77 | a higher DTI never raises the score |
| RiskProperties.MonotoneInYearsEmployed | src/utils/loanEngine.js:79-80 | more years employed never lowers the score |
| RiskProperties.AntitoneInMissedPayments | src/utils/loanEngine.js:82-83 | more missed payments never raise the score |
| RiskProperties.ManyMissedPaymentsScoreZero | src/utils/loanEngine.js:82-85 | from 19 missed payments on, the score is 0 |
| RiskProperties.EighteenMissedPayments | src/utils/loanEngine.js:82-85 | with 18 missed payments and every other factor at its best, the score is still 5 |
| RiskProperties.CategoriesDistinct | src/utils/loanEngine.js:92-95 | the four categories have pairwise different labels and colours |
| RiskProperties.CategoryBoundaries | src/utils/loanEngine.js:92-95 | 80, 60 and 40 belong to the higher band; 79, 59 and 39 to the lower |
| RiskProperties.SeverityAntitone | src/utils/loanEngine.js:91-96 | a higher score never lands in a more severe category |
| RiskProperties.CreditNeverWorsensCategory | src/utils/loanEngine.js:68-96 | a higher credit score never moves a borrower to a more severe category |
| TableValues.LowerChar | src/components/DataTable.jsx:23 | `toLowerCase` on one character maps A-Z to a-z and leaves the rest unchanged |
| TableValues.Lower | src/components/DataTable.jsx:23 | `toLowerCase` keeps the length and lower-cases every character |
| TableValues.IncludesIffOccurs | src/components/DataTable.jsx:23 | `includes` holds iff the needle occurs at some index of the haystack |
| TableValues.EmptyIncluded | src/components/DataTable.jsx:23 | every string includes the empty string |
| TableSort.StrCompareAntisymmetric | src/components/DataTable.jsx:34 | swapping the strings negates the comparison |
| TableSort.StrCompareZero | src/components/DataTable.jsx:34 | two strings compare as 0 iff they are equal |
| TableSort.StrCompareTransitive | src/components/DataTable.jsx:34 | "not after" is transitive on strings |
| TableSort.Compare | src/components/DataTable.jsx:29-36 | no ensures; its properties are `CompareAntisymmetric`, `MayPrecedeTotal`, `MayPrecedeTransitive`, `DescIsReversedAsc` and `NullsLast` |
| TableSort.CompareAntisymmetric | src/components/DataTable.jsx:34 | swapping two present cells negates their comparison (numbers by subtraction) |
| TableSort.MayPrecedeTotal | src/components/DataTable.jsx:29-36 | of any two cells, one may precede the other |
| TableSort.MayPrecedeTransitive | src/components/DataTable.jsx:29-36 | the "may precede" order is transitive |
| TableSort.DescIsReversedAsc | src/components/DataTable.jsx:35 | for present cells the descending order is the ascending order reversed |
| TableSort.NullsLast | src/components/DataTable.jsx:32-33 | in both directions a null may precede only a null, and every cell may precede a null |
| TableSort.Insert | src/components/DataTable.jsx:29 | inserting adds exactly one row to the multiset |
| TableSort.InsertSorted | src/components/DataTable.jsx:29-36 | inserting into sorted rows keeps them sorted |
| TableSort.SortRows | src/components/DataTable.jsx:29-36 | the sort returns a permutation (same multiset) that is sorted under the comparator |
| TableSort.SortedNullsLast | src/components/DataTable.jsx:32-33 | in sorted rows, every row with a null cell comes after every row with a present one |
| DataTable.FilterRows | src/components/DataTable.jsx:21-24 | keeps exactly the matching rows, with their multiplicities, and no others |
| DataTable.FilterIsSubsequence | src/components/DataTable.jsx:21-24 | the kept rows stay in their original order |
| DataTable.FilteredData | src/components/DataTable.jsx:19-25 | the data unchanged without filter text or key; otherwise exactly the matching rows |
| DataTable.SortedData | src/components/DataTable.jsx:27-37 | a permutation of the filtered rows: unchanged without a sort key, otherwise sorted |
| DataTable.TotalPages | src/components/DataTable.jsx:39 | `ceil(length / pageSize)`: the least number of pages that holds every row |
| DataTable.Slice | src/components/DataTable.jsx:40 | `slice` with both bounds clamped to the length; empty when the bounds are crossed |
| DataTable.PageData | src/components/DataTable.jsx:40 | at most `pageSize` rows; entry i is row `page*pageSize + i` |
| DataTable.RowOnItsPage | src/components/DataTable.jsx:39-40 | row k is entry `k % pageSize` of page `k / pageSize`, and that page is below `totalPages` |
| DataTable.ReachablePagesNonEmpty | src/components/DataTable.jsx:39-101 | with rows present, every page the buttons can reach shows at least one row |
| DataTable.Table.VisibleNonEmpty | src/components/DataTable.jsx:39-40 | while there are rows, the page the table is on shows at least one of them |
| DataTable.Table.constructor | src/components/DataTable.jsx:5-8 | no sort key, ascending, page 0, empty filter |
| DataTable.Table.HandleSort | src/components/DataTable.jsx:10-17 | the current key flips the direction; another key becomes the sort key, ascending; page and filter unchanged |
| DataTable.Table.ClickHeader | src/components/DataTable.jsx:62 | a sortable header sorts by its key; an unsortable one changes nothing |
| DataTable.Table.ChangeFilter | src/components/DataTable.jsx:50 | sets the filter text and resets the page to 0 |
| DataTable.Table.PrevPage | src/components/DataTable.jsx:93-99 | with more than one page and page > 0 the page goes down by one; otherwise nothing changes; the page stays in [0, max(0, totalPages-1)] |
| DataTable.Table.NextPage | src/components/DataTable.jsx:93-101 | with more than one page and page < totalPages-1 the page goes up by one; otherwise nothing changes; the page stays in range |
| PaymentSchedule.MyLoans | src/pages/borrower/PaymentSchedule.jsx:13 | a loan is kept iff it is borrower u4's and active |
| PaymentSchedule.CurrentLoan | src/pages/borrower/PaymentSchedule.jsx:14 | the selected loan if any; otherwise none iff u4 has no active loan; otherwise one of u4's active loans |
| PaymentSchedule.FirstActiveLoanShown | src/pages/borrower/PaymentSchedule.jsx:13-14 | without a selection, the page shows the first of u4's active loans in list order |
| PaymentSchedule.DisplaySchedule | src/pages/borrower/PaymentSchedule.jsx:21-24 | same length; every field but the status copied; paid iff idx < paidMonths, upcoming iff idx == paidMonths, pending iff idx > paidMonths |
| PaymentSchedule.EngineTagOverwritten | src/pages/borrower/PaymentSchedule.jsx:23 | schedules that differ only in the engine's status tags display the same |
| PaymentSchedule.OverlayDisagreesWithEngine | src/pages/borrower/PaymentSchedule.jsx:23 | the engine tags month 1 paid, but with nothing paid it displays as upcoming |
| PaymentSchedule.StatusesOrdered | src/pages/borrower/PaymentSchedule.jsx:23 | paid rows precede the single upcoming row, which precedes the pending rows |
| PaymentSchedule.PaidCount | src/pages/borrower/PaymentSchedule.jsx:23 | exactly min(paidMonths, n) rows display as paid |
| PaymentSchedule.DisplayedRows | src/pages/borrower/PaymentSchedule.jsx:13-24 | no rows without a current loan; otherwise one row per month of its tenure |
| LoanApplication.EstimatedRate | src/pages/borrower/LoanApplication.jsx:19-24 | every tier is a positive rate, so the quoted EMI is always defined |
| LoanApplication.RateTiersNotMonotone | src/pages/borrower/LoanApplication.jsx:19-24 | the rate rises past 10 000, then falls past 50 000 and again past 200 000 |
| LoanApplication.QuotedEmi | src/pages/borrower/LoanApplication.jsx:26 | no ensures; `calculateEMI` at the estimated rate, whose properties are `EmiNearAnnuity` and `EmiIsCents` |
| LoanApplication.QuotedInterest | src/pages/borrower/LoanApplication.jsx:27 | no ensures; `calculateTotalInterest` at the estimated rate, bounded by `TotalRepayment` |
| LoanApplication.TotalRepayment | src/pages/borrower/LoanApplication.jsx:162 | amount + total interest is within half a cent of the quoted EMI times the tenure |
| LoanApplication.Round1 | src/pages/borrower/LoanApplication.jsx:28 | `toFixed(1)` gives a whole number of tenths, within 0.05 of x, a tie going away from zero |
| LoanApplication.NearestTenth | src/pages/borrower/LoanApplication.jsx:28 | the nearest tenth of a non-negative x, a tie going up |
| LoanApplication.Round1Below45 | src/pages/borrower/LoanApplication.jsx:28-29 | a ratio rounded to one decimal is below 45 iff the ratio is below 44.95 |
| LoanApplication.Dti | src/pages/borrower/LoanApplication.jsx:28 | 0 without a positive income; otherwise within 0.05 of `emi*12/income*100`, in whole tenths |
| LoanApplication.Eligible | src/pages/borrower/LoanApplication.jsx:29 | no ensures; its property is `EligibleIff` |
| LoanApplication.EligibleIff | src/pages/borrower/LoanApplication.jsx:28-29 | eligible iff the income is not positive or the unrounded ratio is below 44.95 |
| LoanApplication.NoIncomeIsEligible | src/pages/borrower/LoanApplication.jsx:28-29 | an applicant without a positive income is always eligible |
| LoanApplication.SubmitEnabled | src/pages/borrower/LoanApplication.jsx:117 | no ensures; its property is `SubmitRule` |
| LoanApplication.SubmitRule | src/pages/borrower/LoanApplication.jsx:117 | submit is enabled iff the applicant has not just submitted and the ratio passes the gate |
| AnalystDashboard.CountWhere | src/pages/analyst/AnalystDashboard.jsx:14-17 | `filter(p).length` never exceeds the number of scores |
| AnalystDashboard.Buckets | src/pages/analyst/AnalystDashboard.jsx:13-17 | four buckets, Low to Very High (their counts and labels are stated by `BucketsPartition`, `BucketsMatchCategories` and `BucketLabels`) |
| AnalystDashboard.Nonzero | src/pages/analyst/AnalystDashboard.jsx:18 | keeps exactly the buckets with value > 0 |
| AnalystDashboard.RiskDistribution | src/pages/analyst/AnalystDashboard.jsx:13-18 | at most 4 entries, each with value > 0, and every bucket with a borrower among them |
| AnalystDashboard.NonzeroIsSubsequence | src/pages/analyst/AnalystDashboard.jsx:18 | the zero-count filter keeps the buckets' order |
| AnalystDashboard.DistributionInOrder | src/pages/analyst/AnalystDashboard.jsx:13-18 | surviving buckets keep the Low → Medium → High → Very High order |
| AnalystDashboard.BucketsPartition | src/pages/analyst/AnalystDashboard.jsx:14-17 | the bands are disjoint and cover all scores: the four counts sum to the number of scores |
| AnalystDashboard.BucketsMatchCategories | src/pages/analyst/AnalystDashboard.jsx:14-17 | each bucket counts exactly the scores `getRiskCategory` puts in the matching category |
| AnalystDashboard.BucketLabels | src/pages/analyst/AnalystDashboard.jsx:14-17 | the fills equal the category colours, and the first three names equal the labels; the last is "Very High", a prefix of "Very High Risk" |

## Left out

- Due dates (`dueDate` in `generateAmortizationSchedule`): calendar arithmetic is not modelled, so an `Installment` has no due date.
- Floating point: every amount is an exact real. Binary rounding artefacts of `Math.round`, `Math.pow` and `toFixed` on doubles are not modelled.
- `Amortization.Emi`, `Amortization.Annuity`, `Amortization.TotalInterest`: they carry no `ensures`. Their properties are the lemmas listed above (`EmiNearAnnuity`, `EmiIsCents`, `ZeroRateEmi`, `AnnuityEquation`, `RowsInterestTotal`, `ZeroRateNoInterest`).
- Inputs for which `calculateEMI` is `Infinity` or `NaN` (tenure 0, or a non-zero rate with `(1+r)^n = 1`): the engine functions require `EmiDefined`. The payment-schedule page requires it of the loans it can show. The application form's slider keeps the tenure at 6 or more.
- AmortizationProperties.RowsInterestTotal, AmortizationProperties.RowsInterestNoOverpayment, AmortizationProperties.TelescopeStep: stated for whole-cent principal and EMI (the EMI at a non-zero rate is whole cents by `EmiIsCents`), at the level of the rows rather than of `Schedule(...)`. A zero-rate loan whose EMI is not whole cents is not covered; its interest column is 0 by `ZeroRateInterestColumn`.
- Risk: `missedPayments` is a natural number. Negative or fractional counts are not modelled.
- TableSort.Compare: in a column that mixes numbers and strings the source's result depends on which cell is first. A number first subtracts the other cell, which JavaScript coerces to a number (`5 - "3"` is 2, a non-numeric string gives `NaN`). A string first compares `String` forms with `localeCompare`. The model always puts numbers before strings.
- TableSort.StrCompare: `localeCompare` is modelled as code-unit lexicographic order; locale collation is not modelled.
- TableSort.SortRows: a stable insertion sort stands in for the engine's `Array.prototype.sort`. The model proves permutation and sortedness, not the engine's algorithm. With two null cells the source comparator returns 1 both ways; the model lets nulls keep their order among themselves.
- TableValues.Lower: `toLowerCase` is ASCII-only. Other Unicode case mappings are not modelled.
- TableValues.Text: a number cell carries its `String(value)` rendering as text. Number formatting is not modelled, and neither are cells that are booleans, objects or arrays.
- DataTable.Table: the props are constant fields, so the model does not capture a change of `data` under a live table. The source keeps `page` when `data` changes; the payment-schedule page does this when the borrower switches loans. `page` can then lie past the last page, which shows an empty page. The paging bar stays, with Next disabled, unless the new data fits on one page: with 12 rows a page, page index 2 of a 36-month loan switched to a 24-month loan shows no rows and "3 / 2". `Valid()` and the paging contracts rely on the props staying fixed.
- DataTable rendering: `col.render`, CSS classes, arrows and the "Showing a–b of n" line are not modelled. The props `data`, `pageSize` and `filterKey` are constant fields, and a `pageSize` below 1 is not modelled. The prop defaults (`pageSize = 8`, `filterable = false`) are not modelled either: `filterable` only decides whether the filter box is rendered, and the model lets `ChangeFilter` run on any table.
- PaymentSchedule: `paidMonths` is a natural number on every loan. The payment modal, the loan selector's rendering and the formatted amounts are not modelled.
- LoanApplication: the `type`, `purpose` and `employment` fields do not affect the quote and are not modelled. Neither is the 3-second `setTimeout` that clears `submitted`. The raw ratio is exact, so the rounding of the doubles it is computed from is not modelled.
- AnalystDashboard: the portfolio aggregates (`totalPortfolio`, `nplRatio`, `avgRate`) and the charts are outside this model. `riskData` is modelled as its sequence of risk scores.
- Authentication, routing, the mock data and the other pages are not part of this model.
