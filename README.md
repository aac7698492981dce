# Mortgage calculator amortization engine, in Dafny

This project models the calculation at the heart of the mortgage calculator
(`mortgage_calc.py`). The rest of that script is a dashboard around it.

- **Loan setup.** From the home price and the down-payment percentage it
  derives the principal. From the annual rate it derives the monthly rate, and
  from the loan term in years the number of monthly payments. It then
  computes the fixed annuity payment, with a straight-line fallback at a zero
  rate, and the closed-form lifetime totals of the standard schedule.
- **The schedule with extras.** This is a month-by-month `while` loop. Each
  month adds a recurring extra payment, and a one-time extra keyed to one
  month that is used up once paid. The balance is clamped at zero. The loop
  stops at payoff or at a safety limit of twice the nominal number of
  payments. Afterwards the records are summed into totals and the years saved.
- **The standard schedule.** This is a `for` loop over the nominal payments
  with no extras. It builds the amortization table on demand when there is
  no schedule with extras. Its running balance is never clamped, but the
  balance written into each record is.

Money is modelled as exact `real` numbers and `**` as the recursive `Loan.Pow`.
A schedule is a `seq<Record>` with one record per month. A pandas column sum
becomes `Records.Sum`. The widget values are plain parameters.

Modules, one per concern:

- `Records` (records.dfy): the record, the loan terms handed to the
  builders, `max(0, x)`, the monthly interest and column sums.
- `Loan` (loan.dfy): the straight-line setup arithmetic and closed-form
  totals.
- `Standard` (standard.dfy): the standard builder and its reference function
  `Rows`. It also proves the closed form of the running balance, and that
  under exact arithmetic the annuity payment repays the principal exactly at
  the end of the term.
- `Extras` (extras.dfy): the builder with extras and its specification
  `IsExtrasSchedule`. `IsExtrasSchedule` is stated over the schedule
  simulated without a stopping rule (`ExtrasRows`, `Opening`), together with
  that rule. Its lemmas show the schedule is unique, how the one-time extra
  is applied, the totals, payoff within the term, and interest never above
  the standard interest.
- `Calculator` (calculator.dfy): the calculation section of the script, and
  the choice of the schedule shown in the amortization table.

The central results:

- `Standard.AnnuityPaysOff`: the annuity payment amortizes the loan to
  exactly zero after `numPayments` months.
- `Extras.DominatedByStandard`: month by month, the balance with extras never
  exceeds the standard balance.
- Together these give `Extras.PayoffWithinTerm` and
  `Extras.ExtrasSaveInterest`. So whenever the calculation completes on
  inputs the widgets allow, `years_saved >= 0` and the interest saved is
  never negative.

The calculation does not always complete. If an extra payment is entered
while nothing is borrowed (a loan amount of 0, which the widget allows), the
schedule with extras is empty. Summing its Payment column then fails at
mortgage_calc.py:82, because an empty table has no such column. The model
returns `Calculator.MissingPaymentColumn` in exactly that case.

## Model

| member | source | states |
|---|---|---|
| Loan.Principal | mortgage_calc.py:17-20 | the principal is the price less `pct/100` of it, and lies between 0 and the price whenever the price is not negative and the percentage is between 0 and 100 (the slider allows 0 to 80) |
| Loan.MonthlyRate | mortgage_calc.py:34 | the monthly rate is the annual percentage divided by 1200, and is positive exactly when the annual rate is |
| Loan.NumPayments | mortgage_calc.py:35 | the number of payments is a whole number of years of 12 payments: divided by 12 it gives the term back, with no remainder |
| Loan.MonthlyPayment | mortgage_calc.py:37-41 | at a positive rate the payment solves the annuity equation `payment * ((1+r)^n - 1) == principal * r * (1+r)^n`; at a zero or negative rate `n` payments add up to exactly the principal. What this means for the schedule is proved in `Standard.AnnuityPaysOff`, `Loan.ZeroRateLoan` and `Loan.PaymentCoversFirstInterest` |
| Loan.TotalPaidStandard | mortgage_calc.py:43 | the standard total paid, divided by the number of payments, gives back the monthly payment; `Standard.StandardMatchesClosedForm` shows the standard schedule's Payment column sums to it |
| Loan.TotalInterestStandard | mortgage_calc.py:44 | the principal plus the standard interest is the standard total paid, and the interest is not negative exactly when `n` payments cover the principal; `Standard.StandardMatchesClosedForm` shows the Interest column sums to it |
| Loan.PaymentCoversFirstInterest | mortgage_calc.py:38-41 | for a non-negative principal the payment is never negative and, at a non-negative rate, covers the first month's interest `principal * monthly_rate` (the first-month principal share is not negative) |
| Loan.ZeroRateLoan | mortgage_calc.py:40-44 | at a zero rate the payment times the number of payments is exactly the principal, and the standard total interest is 0 |
| Records.Max0 | mortgage_calc.py:66 | `max(0, x)` is not negative, is at least `x`, and is either 0 or `x` |
| Records.PaymentIsPrincipalPlusInterest | mortgage_calc.py:65-72 | when every record's payment is its principal share plus its interest, the Payment column sums to the Principal column plus the Interest column |
| Standard.BalanceClosedForm | mortgage_calc.py:142-144 | the unclamped running balance after `k` payments equals the principal compounded for `k` months less every payment compounded from the month it was made |
| Standard.AnnuityPaysOff | mortgage_calc.py:38-39 | with the annuity payment (at a positive or zero rate), the running balance after `num_payments` payments is exactly 0 |
| Standard.BuildStandardSchedule | mortgage_calc.py:138-153 | the `for` loop produces exactly the `num_payments` records of the reference schedule `Rows`, record `i` being `StandardRecord(i)` |
| Standard.StandardScheduleRecurrence | mortgage_calc.py:139-152 | a sequence is the standard schedule exactly when it has `num_payments` records and record `i` has month `i + 1`, payment `monthly_payment` and extra 0, with interest on the principal the earlier records have not repaid (`principal` less their Principal column) times the rate, the rest of the payment as principal share, and what is then owed clamped at 0 as its balance |
| Standard.RowsSums | mortgage_calc.py:141-152 | after `k` records the Payment column is `k` payments, the Principal column is the principal less the running balance, and the Interest column is the rest |
| Standard.StandardMatchesClosedForm | mortgage_calc.py:43-44 | the standard schedule's Payment and Interest columns equal `total_paid_standard` and `total_interest_standard`, its Principal column equals the principal, and its last recorded balance is 0 |
| Standard.BalanceNonIncreasing | mortgage_calc.py:142-144 | when the payment covers the first month's interest, the running balance never grows and never exceeds the principal |
| Standard.StandardRecordsNonIncreasing | mortgage_calc.py:151 | the recorded balances of the standard schedule never grow from one month to the next |
| Standard.BalanceNonNegativeWithinTerm | mortgage_calc.py:142-144 | for every month of the term the unclamped running balance is never negative. The `for` loop never runs past the term, so under exact arithmetic the clamp at line 151 never changes a recorded balance |
| Standard.ZeroRateInterestFree | mortgage_calc.py:142 | at a zero rate every standard record has zero interest, and so does the Interest column |
| Extras.ExtraFor | mortgage_calc.py:60-62 | the extra of a month is at least the monthly extra, and exceeds it only in the one-time extra's month. `Extras.OneTimeStep` ties it to what is left of the one-time extra |
| Extras.OneTimeStep | mortgage_calc.py:60-63 | in each month the one-time amount is added exactly when what is left of it is positive and its month has come; nothing is left afterwards, and otherwise the extra is the monthly extra and what is left is unchanged |
| Extras.BuildExtrasSchedule | mortgage_calc.py:47-78 | the `while` loop produces the schedule `IsExtrasSchedule` specifies, its running interest total equals the Interest column, and what is left of the one-time extra afterwards is `OneTimeLeft` at the schedule's length (0 once its month was reached) |
| Extras.ExtrasScheduleRecurrence | mortgage_calc.py:54-78 | a sequence meets `IsExtrasSchedule` exactly when every record is one pass of the loop body from the balance the previous record closed at (the principal for the first): month `i + 1`, that month's extra, interest on the opening balance times the rate, payment `monthly_payment + extra`, principal share `monthly_payment - interest + extra`, balance `max(0, opening - principal share)`; and when it stops where the loop stops (every month opened above 0, and the last closed at 0 unless the safety limit was reached) |
| Extras.ScheduleRecords | mortgage_calc.py:54-75 | record `i` of the schedule is simulated month `i`, and its balance is the balance the next month opens at |
| Extras.ScheduleMonths | mortgage_calc.py:55-74 | the records carry months 1, 2, ..., k in order, each pays that month's extra, and every recorded balance is >= 0 |
| Extras.ScheduleStopsAtPayoff | mortgage_calc.py:54-78 | every recorded balance but the last is > 0, and the last is 0 unless the safety limit stopped the loop |
| Extras.ScheduleEmpty | mortgage_calc.py:49-54 | the schedule is empty exactly when the principal is not positive (or there are no payments) |
| Extras.ExtrasScheduleUnique | mortgage_calc.py:54-78 | any two sequences meeting `IsExtrasSchedule` for the same inputs are equal, so the specification pins the loop's output down completely |
| Extras.OneTimeExtraAppliedOnce | mortgage_calc.py:60-63 | the Extra column of the first `k` months is `k` monthly extras plus the one-time extra exactly once if its month lies in 1..k, and not at all otherwise (payoff before that month never applies it) |
| Extras.ExtrasPaymentsTotal | mortgage_calc.py:70 | the Payment column is `k` standard payments plus the Extra column |
| Extras.ExtrasPaymentSplits | mortgage_calc.py:65-72 | every simulated payment is its principal share plus its interest, so the column sums add up |
| Extras.Totals | mortgage_calc.py:80-84 | `actual_payments` is the schedule's length, the totals are its Payment and Interest columns, `actual_payments + 12 * years_saved` is `num_payments`, and `years_saved >= 0` exactly when the schedule is no longer than the term |
| Extras.ExtrasTotalPaid | mortgage_calc.py:81-82 | `total_paid_extra` is the standard payment and the monthly extra for each of the `actual_payments` months, plus the one-time extra if its month was reached |
| Extras.ExtrasBalancesNonIncreasing | mortgage_calc.py:56-66 | when the payment covers the first month's interest and the monthly extra is not negative, the balance never grows, never exceeds the principal and is never negative |
| Extras.DominatedByStandard | mortgage_calc.py:54-66 | for a non-negative principal, at a non-negative rate, payment and monthly extra, the opening balance of every month with extras is at most the standard running balance of the same month (clamped at 0) |
| Extras.PayoffWithinTerm | mortgage_calc.py:54-84 | with the annuity payment and a non-negative monthly extra, the schedule has at most `num_payments` records, ends at a zero balance when anything was borrowed, and `years_saved >= 0` |
| Extras.ExtrasSaveInterest | mortgage_calc.py:83 | under the same conditions the interest with extras is at most `total_interest_standard` |
| Extras.ZeroRateInterestFree | mortgage_calc.py:56 | at a zero rate no simulated month carries interest |
| Calculator.Setup | mortgage_calc.py:19-41 | the loan terms have a positive number of payments and satisfy the annuity conditions whenever price, down-payment percentage and rate are in range |
| Calculator.Calculate | mortgage_calc.py:33-89 | the calculation fails (`MissingPaymentColumn`, the error at line 82) exactly when an extra is entered and the principal is not positive. Otherwise the principal, rate, payment count, payment and standard totals are the setup functions' values, and a schedule exists exactly when an extra is entered. If it does, it is the specified non-empty schedule with extras, the extra totals are its column sums, `years_saved` is `(num_payments - actual_payments) / 12`, and the sidebar's one-time extra is left at `OneTimeLeft` (0 once applied). If not, `years_saved` is 0, the extra totals are the standard ones and the one-time extra is unchanged. For inputs in range, `years_saved >= 0` and the extra interest is at most the standard interest |
| Calculator.AmortizationTable | mortgage_calc.py:138-153 | the table shows the schedule with extras when there is one, and otherwise the full standard schedule |

## Left out

- The Streamlit page, sidebar widgets, metrics, captions and the payoff message are UI (mortgage_calc.py:8-31, 92-100, 201). The widget values are parameters, and their ranges appear only as premises such as `Calculator.AmortizingInputs`.
- The Plotly charts (mortgage_calc.py:103-130) are presentation. That includes the first-payment pie and the cumulative-interest lines. The "Standard" curve at line 125 multiplies the first month's principal share by the month number. It is a chart artifact, not engine behaviour, and is not modelled.
- The pandas DataFrame wrapper is replaced by `seq<Record>` and `Records.Sum`.
- Currency formatting of the table (mortgage_calc.py:155-163) is formatting only.
- CSV and Excel export, with its byte buffers and date-stamped file names (mortgage_calc.py:165-199), is I/O.
- Floating-point rounding is abstracted away: money is exact `real`. Agreement within a tolerance, and pinned figures such as a particular rounded monthly payment, depend on IEEE arithmetic and are not stated. The exact counterparts are proved instead (`Standard.AnnuityPaysOff`, `Standard.StandardMatchesClosedForm`).
- Loan.MonthlyPayment requires a positive number of payments, so the zero-payment case is excluded. The script would divide by zero there, but its term selector offers only 15, 20 and 30 years.
- There is no input validation and no failure signalled when the safety limit is hit. The script has neither; it simply returns the truncated schedule. The model follows the script, and `Extras.ScheduleStopsAtPayoff` states what such a truncated schedule looks like.
- Property tax, insurance and terms other than the listed ones do not appear in the code.
- The script zeroes the sidebar's own one-time-extra variable when the loop applies it (mortgage_calc.py:63). The banner at line 97 and the Excel summary at line 191 read that variable afterwards. So with no monthly extra, a one-time extra whose month is reached suppresses the savings banner and makes the summary say "N/A", although a schedule with extras was built. The model exposes the value those lines read (`Calculator.Summary.extraOneTimeAfter`, stated by `Calculator.Calculate`), but the banner and the Excel summary are UI and are not modelled.
- Extras.PayoffWithinTerm, Extras.ExtrasSaveInterest and Extras.DominatedByStandard assume a non-negative monthly extra, as the widget guarantees. A negative extra could lengthen the loan, which the widgets never allow.
