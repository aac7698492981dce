/** The amortization schedule with extra payments: a month-by-month
    simulation that adds a recurring extra and a one-time extra to the
    standard payment, clamps the balance at zero, stops at payoff and never
    runs past twice the nominal number of payments. */
module Extras {
  import Loan
  import opened Records
  import Standard

  /** The extra-payment inputs: a recurring monthly extra, and a one-time
      extra keyed to an absolute month number. */
  datatype ExtraPayments = ExtraPayments(monthly: real, oneTime: real, oneTimeMonth: int)

  /** The extra paid in `month`: the one-time amount joins the monthly extra
      only in its own month, and only when it is positive. */
  function ExtraFor(x: ExtraPayments, month: int): (e: real)
    ensures e >= x.monthly
    ensures e != x.monthly ==> month == x.oneTimeMonth
  {
    if x.oneTime > 0.0 && month == x.oneTimeMonth then x.monthly + x.oneTime else x.monthly
  }

  /** The balance at which a month that opens at `prev` closes: what is
      left after the payment's principal share and the extra, never below zero. */
  function ClosingBalance(t: Terms, prev: real, extra: real): real
  {
    Max0(prev - (t.monthlyPayment - MonthInterest(t, prev) + extra))
  }

  /** What is left of the one-time extra once `month` months are simulated:
      nothing once its month has passed, the whole amount before. */
  function OneTimeLeft(x: ExtraPayments, month: int): real
  {
    if x.oneTime > 0.0 && 1 <= x.oneTimeMonth <= month then 0.0 else x.oneTime
  }

  /** In month `month + 1` the one-time extra is paid exactly when what is
      left of it is positive and its month has come, and then nothing is left. */
  lemma OneTimeStep(x: ExtraPayments, month: nat)
    ensures OneTimeLeft(x, month) > 0.0 && month + 1 == x.oneTimeMonth ==>
      ExtraFor(x, month + 1) == x.monthly + OneTimeLeft(x, month) && OneTimeLeft(x, month + 1) == 0.0
    ensures !(OneTimeLeft(x, month) > 0.0 && month + 1 == x.oneTimeMonth) ==>
      ExtraFor(x, month + 1) == x.monthly && OneTimeLeft(x, month + 1) == OneTimeLeft(x, month)
  {
  }

  /** The record of one simulated month that opens at balance `prev`. */
  function ExtrasRecord(t: Terms, prev: real, month: int, extra: real): Record
  {
    var interest := MonthInterest(t, prev);
    var principalPaid := t.monthlyPayment - interest + extra;
    Record(month, t.monthlyPayment + extra, principalPaid, interest, extra, ClosingBalance(t, prev, extra))
  }

  /** The simulation never runs for more months than this. */
  function SafetyLimit(t: Terms): nat
  {
    t.numPayments * 2
  }

  /** The balance at which month `k + 1` opens when the simulation is run
      without its stopping rule: the principal, then each month's clamped
      closing balance. */
  function Opening(t: Terms, x: ExtraPayments, k: nat): real
  {
    if k == 0 then t.principal
    else ClosingBalance(t, Opening(t, x, k - 1), ExtraFor(x, k))
  }

  lemma OpeningStep(t: Terms, x: ExtraPayments, k: nat)
    ensures Opening(t, x, k + 1) == ClosingBalance(t, Opening(t, x, k), ExtraFor(x, k + 1))
  {
  }

  /** Record `k` (0-based) of the simulation run without its stopping rule. */
  function MonthRecord(t: Terms, x: ExtraPayments, k: nat): Record
  {
    ExtrasRecord(t, Opening(t, x, k), k + 1, ExtraFor(x, k + 1))
  }

  /** Record `k` field by field: it pays the standard payment plus that
      month's extra, the interest accrues on the opening balance, and the
      record closes at the next month's opening balance. */
  lemma MonthRecordFields(t: Terms, x: ExtraPayments, k: nat)
    ensures MonthRecord(t, x, k) ==
      Record(k + 1, t.monthlyPayment + ExtraFor(x, k + 1),
        t.monthlyPayment - MonthInterest(t, Opening(t, x, k)) + ExtraFor(x, k + 1),
        MonthInterest(t, Opening(t, x, k)), ExtraFor(x, k + 1), Opening(t, x, k + 1))
    ensures Opening(t, x, k + 1) ==
      Max0(Opening(t, x, k) - (t.monthlyPayment - MonthInterest(t, Opening(t, x, k)) + ExtraFor(x, k + 1)))
  {
    OpeningStep(t, x, k);
  }

  /** The first `k` simulated months. */
  function ExtrasRows(t: Terms, x: ExtraPayments, k: nat): (s: seq<Record>)
    ensures |s| == k
  {
    if k == 0 then [] else ExtrasRows(t, x, k - 1) + [MonthRecord(t, x, k - 1)]
  }

  lemma {:induction false} ExtrasRowsAt(t: Terms, x: ExtraPayments, k: nat, i: nat)
    requires i < k
    ensures ExtrasRows(t, x, k)[i] == MonthRecord(t, x, i)
  {
    if i < k - 1 {
      ExtrasRowsAt(t, x, k - 1, i);
    }
  }

  /** `s` is the schedule the simulation produces: the simulated months for
      as long as each opened at a positive balance, stopped at the first
      month that closes at zero or at the safety limit. */
  predicate IsExtrasSchedule(t: Terms, x: ExtraPayments, s: seq<Record>)
  {
    && |s| <= SafetyLimit(t)
    && s == ExtrasRows(t, x, |s|)
    && (forall k :: 0 <= k < |s| ==> Opening(t, x, k) > 0.0)
    && (|s| == SafetyLimit(t) || Opening(t, x, |s|) <= 0.0)
  }

  /** Simulating one more month appends its record and adds its interest. */
  lemma ExtrasRowsAppend(t: Terms, x: ExtraPayments, k: nat)
    ensures ExtrasRows(t, x, k + 1) == ExtrasRows(t, x, k) + [MonthRecord(t, x, k)]
    ensures Sum(ExtrasRows(t, x, k + 1), Interest) == Sum(ExtrasRows(t, x, k), Interest) + MonthInterest(t, Opening(t, x, k))
  {
    assert ExtrasRows(t, x, k + 1)[..k] == ExtrasRows(t, x, k);
  }

  /** The schedule builder with extras (a `while` loop with an early exit);
      it also accumulates the interest as it goes. */
  method BuildExtrasSchedule(t: Terms, x: ExtraPayments) returns (s: seq<Record>, runningInterest: real, oneTimeLeft: real)
    ensures IsExtrasSchedule(t, x, s)
    ensures runningInterest == Sum(s, Interest)
    ensures oneTimeLeft == OneTimeLeft(x, |s|)
  {
    var balance := t.principal;
    s := [];
    runningInterest := 0.0;
    var month := 0;
    oneTimeLeft := x.oneTime;
    while balance > 0.0 && month < t.numPayments * 2
      invariant month == |s| <= SafetyLimit(t)
      invariant s == ExtrasRows(t, x, month)
      invariant balance == Opening(t, x, month)
      invariant forall k :: 0 <= k < month ==> Opening(t, x, k) > 0.0
      invariant oneTimeLeft == OneTimeLeft(x, month)
      invariant runningInterest == Sum(s, Interest)
      decreases SafetyLimit(t) - month
    {
      MonthRecordFields(t, x, month);
      ExtrasRowsAppend(t, x, month);
      OneTimeStep(x, month);
      month := month + 1;
      var interest := MonthInterest(t, balance);
      runningInterest := runningInterest + interest;
      var extraThisMonth := x.monthly;
      if oneTimeLeft > 0.0 && month == x.oneTimeMonth {
        extraThisMonth := extraThisMonth + oneTimeLeft;
        oneTimeLeft := 0.0;
      }
      var principalPayment := t.monthlyPayment - interest + extraThisMonth;
      balance := Max0(balance - principalPayment);
      var r := Record(month, t.monthlyPayment + extraThisMonth, principalPayment, interest, extraThisMonth, balance);
      s := s + [r];
      assert s == ExtrasRows(t, x, month) && balance == Opening(t, x, month);
      if balance <= 0.0 {
        break;
      }
    }
  }

  /** Record `i` of a schedule is simulated month `i`, and it closes at the
      balance month `i + 2` opens at. */
  lemma ScheduleRecords(t: Terms, x: ExtraPayments, s: seq<Record>)
    requires IsExtrasSchedule(t, x, s)
    ensures forall i :: 0 <= i < |s| ==> s[i] == MonthRecord(t, x, i) && s[i].balance == Opening(t, x, i + 1)
  {
    forall i | 0 <= i < |s|
      ensures s[i] == MonthRecord(t, x, i) && s[i].balance == Opening(t, x, i + 1)
    {
      ExtrasRowsAt(t, x, |s|, i);
    }
  }

  /** The months of a schedule are numbered from 1, each record pays that
      month's extra, and no recorded balance is negative. */
  lemma ScheduleMonths(t: Terms, x: ExtraPayments, s: seq<Record>)
    requires IsExtrasSchedule(t, x, s)
    ensures forall i :: 0 <= i < |s| ==>
      s[i].month == i + 1 && s[i].extra == ExtraFor(x, i + 1) && s[i].balance >= 0.0
  {
    ScheduleRecords(t, x, s);
  }

  /** The schedule stops at the first zero balance: every balance but the
      last is positive, and the last is zero unless the safety limit cut the
      run short. */
  lemma ScheduleStopsAtPayoff(t: Terms, x: ExtraPayments, s: seq<Record>)
    requires IsExtrasSchedule(t, x, s)
    ensures forall i :: 0 <= i < |s| - 1 ==> s[i].balance > 0.0
    ensures 0 < |s| < SafetyLimit(t) ==> s[|s| - 1].balance == 0.0
  {
    ScheduleRecords(t, x, s);
  }

  /** The schedule is empty exactly when nothing was borrowed (or there are
      no payments at all). */
  lemma ScheduleEmpty(t: Terms, x: ExtraPayments, s: seq<Record>)
    requires IsExtrasSchedule(t, x, s)
    ensures s == [] <==> t.principal <= 0.0 || t.numPayments == 0
  {
    assert Opening(t, x, 0) == t.principal;
  }

  /** The schedule is determined by its inputs: any two sequences the
      specification admits are equal. */
  lemma ExtrasScheduleUnique(t: Terms, x: ExtraPayments, s1: seq<Record>, s2: seq<Record>)
    requires IsExtrasSchedule(t, x, s1) && IsExtrasSchedule(t, x, s2)
    ensures s1 == s2
  {
    if |s1| < |s2| {
      assert false;
    } else if |s2| < |s1| {
      assert false;
    }
  }

  /** The balance month `i + 1` of schedule `s` opens at: the principal, then
      the balance the previous record closed at. */
  function PreviousBalance(t: Terms, s: seq<Record>, i: nat): real
    requires i <= |s|
  {
    if i == 0 then t.principal else s[i - 1].balance
  }

  /** `r` is what one pass of the loop body records in month `i + 1` when
      that month opens at balance `prev`. */
  predicate LoopMonth(t: Terms, x: ExtraPayments, i: nat, prev: real, r: Record)
  {
    && r.month == i + 1
    && r.extra == ExtraFor(x, i + 1)
    && r.interest == prev * t.monthlyRate
    && r.payment == t.monthlyPayment + r.extra
    && r.principal == t.monthlyPayment - r.interest + r.extra
    && r.balance == Max0(prev - r.principal)
  }

  /** The loop stops where `s` stops: every month opened at a positive
      balance, and the last one closed at zero unless the safety limit was hit. */
  predicate StopsLikeLoop(t: Terms, s: seq<Record>)
  {
    && |s| <= SafetyLimit(t)
    && (forall i :: 0 <= i < |s| ==> PreviousBalance(t, s, i) > 0.0)
    && (|s| == SafetyLimit(t) || PreviousBalance(t, s, |s|) <= 0.0)
  }

  /** A month opening at the simulated balance records exactly the
      simulated record. */
  lemma LoopMonthIsMonthRecord(t: Terms, x: ExtraPayments, k: nat, r: Record)
    ensures LoopMonth(t, x, k, Opening(t, x, k), r) <==> r == MonthRecord(t, x, k)
    ensures r == MonthRecord(t, x, k) ==> r.balance == Opening(t, x, k + 1)
  {
    OpeningStep(t, x, k);
  }

  lemma {:induction false} RecurrencePrefix(t: Terms, x: ExtraPayments, s: seq<Record>, j: nat)
    requires forall i :: 0 <= i < |s| ==> LoopMonth(t, x, i, PreviousBalance(t, s, i), s[i])
    requires j <= |s|
    ensures s[..j] == ExtrasRows(t, x, j) && PreviousBalance(t, s, j) == Opening(t, x, j)
  {
    if j > 0 {
      RecurrencePrefix(t, x, s, j - 1);
      assert LoopMonth(t, x, j - 1, PreviousBalance(t, s, j - 1), s[j - 1]);
      LoopMonthIsMonthRecord(t, x, j - 1, s[j - 1]);
      ExtrasRowsAppend(t, x, j - 1);
      assert s[..j] == s[..j - 1] + [s[j - 1]];
    }
  }

  lemma SchedulePreviousBalances(t: Terms, x: ExtraPayments, s: seq<Record>)
    requires IsExtrasSchedule(t, x, s)
    ensures forall i :: 0 <= i <= |s| ==> PreviousBalance(t, s, i) == Opening(t, x, i)
  {
    ScheduleRecords(t, x, s);
  }

  /** The specification, restated over the schedule itself: a sequence is
      the loop's output exactly when each record is one pass of the loop body
      from the balance the previous record closed at (the principal for the
      first), and the sequence stops where the loop stops. */
  lemma ExtrasScheduleRecurrence(t: Terms, x: ExtraPayments, s: seq<Record>)
    ensures IsExtrasSchedule(t, x, s) <==>
      StopsLikeLoop(t, s) && forall i :: 0 <= i < |s| ==> LoopMonth(t, x, i, PreviousBalance(t, s, i), s[i])
  {
    if IsExtrasSchedule(t, x, s) {
      SchedulePreviousBalances(t, x, s);
      ScheduleRecords(t, x, s);
      forall i | 0 <= i < |s|
        ensures LoopMonth(t, x, i, PreviousBalance(t, s, i), s[i])
      {
        LoopMonthIsMonthRecord(t, x, i, s[i]);
      }
    }
    if StopsLikeLoop(t, s) && forall i :: 0 <= i < |s| ==> LoopMonth(t, x, i, PreviousBalance(t, s, i), s[i]) {
      forall j | 0 <= j <= |s|
        ensures PreviousBalance(t, s, j) == Opening(t, x, j)
      {
        RecurrencePrefix(t, x, s, j);
      }
      RecurrencePrefix(t, x, s, |s|);
      assert s[..|s|] == s;
    }
  }

  /** The Extra column holds the monthly extra once per month plus the
      one-time extra exactly once, when its month was reached, and never
      otherwise. */
  lemma {:induction false} OneTimeExtraAppliedOnce(t: Terms, x: ExtraPayments, k: nat)
    ensures Sum(ExtrasRows(t, x, k), Extra) ==
      Times(k, x.monthly) + (if x.oneTime > 0.0 && 1 <= x.oneTimeMonth <= k then x.oneTime else 0.0)
  {
    if k > 0 {
      OneTimeExtraAppliedOnce(t, x, k - 1);
      ExtrasRowsAppend(t, x, k - 1);
      TimesStep(k, x.monthly);
    }
  }

  /** Each payment is the standard payment plus that month's extra, so the
      Payment column is the standard payments plus the Extra column. */
  lemma {:induction false} ExtrasPaymentsTotal(t: Terms, x: ExtraPayments, k: nat)
    ensures Sum(ExtrasRows(t, x, k), Payment) == Times(k, t.monthlyPayment) + Sum(ExtrasRows(t, x, k), Extra)
  {
    if k > 0 {
      ExtrasPaymentsTotal(t, x, k - 1);
      ExtrasRowsAppend(t, x, k - 1);
      TimesStep(k, t.monthlyPayment);
    }
  }

  /** Every payment splits into its principal and interest shares (the extra
      counts as principal), so the columns add up. */
  lemma ExtrasPaymentSplits(t: Terms, x: ExtraPayments, k: nat)
    ensures Sum(ExtrasRows(t, x, k), Payment) ==
      Sum(ExtrasRows(t, x, k), Principal) + Sum(ExtrasRows(t, x, k), Interest)
  {
    var s := ExtrasRows(t, x, k);
    forall i | 0 <= i < k
      ensures s[i].payment == s[i].principal + s[i].interest
    {
      ExtrasRowsAt(t, x, k, i);
    }
    PaymentIsPrincipalPlusInterest(s);
  }

  /** What the schedule amounts to: its length, the Payment and Interest
      column sums and the years saved against the nominal term. */
  datatype ExtrasTotals = ExtrasTotals(actualPayments: nat, totalPaid: real, totalInterest: real, yearsSaved: real)

  function Totals(t: Terms, s: seq<Record>): (r: ExtrasTotals)
    ensures r.actualPayments == |s|
    ensures r.totalPaid == Sum(s, Payment) && r.totalInterest == Sum(s, Interest)
    ensures r.actualPayments as real + 12.0 * r.yearsSaved == t.numPayments as real
    ensures r.yearsSaved >= 0.0 <==> r.actualPayments <= t.numPayments
  {
    ExtrasTotals(|s|, Sum(s, Payment), Sum(s, Interest), (t.numPayments as real - |s| as real) / 12.0)
  }

  /** The paid total is the standard payment and the monthly extra for every
      month, plus the one-time extra if its month was reached. */
  lemma ExtrasTotalPaid(t: Terms, x: ExtraPayments, s: seq<Record>)
    requires IsExtrasSchedule(t, x, s)
    ensures Totals(t, s).totalPaid ==
      Times(|s|, t.monthlyPayment) + Times(|s|, x.monthly) +
      (if x.oneTime > 0.0 && 1 <= x.oneTimeMonth <= |s| then x.oneTime else 0.0)
  {
    ExtrasPaymentsTotal(t, x, |s|);
    OneTimeExtraAppliedOnce(t, x, |s|);
  }

  lemma ClosingNotAbove(t: Terms, prev: real, extra: real)
    requires 0.0 <= prev <= t.principal && extra >= 0.0 && t.monthlyRate >= 0.0
    requires t.monthlyPayment >= t.principal * t.monthlyRate
    ensures ClosingBalance(t, prev, extra) <= prev
  {
    Loan.MulMonotone(prev, t.principal, t.monthlyRate);
  }

  lemma StepDoesNotGrow(t: Terms, x: ExtraPayments, k: nat)
    requires 0.0 <= Opening(t, x, k) <= t.principal && x.monthly >= 0.0 && t.monthlyRate >= 0.0
    requires t.monthlyPayment >= t.principal * t.monthlyRate
    ensures Opening(t, x, k + 1) <= Opening(t, x, k)
  {
    ClosingNotAbove(t, Opening(t, x, k), ExtraFor(x, k + 1));
  }

  /** When the payment covers the first month's interest and the extras are
      not negative, the balance never grows and never exceeds the principal. */
  lemma {:induction false} ExtrasBalancesNonIncreasing(t: Terms, x: ExtraPayments, k: nat)
    requires t.principal >= 0.0 && t.monthlyRate >= 0.0 && x.monthly >= 0.0
    requires t.monthlyPayment >= t.principal * t.monthlyRate
    ensures 0.0 <= Opening(t, x, k + 1) <= Opening(t, x, k) <= t.principal
  {
    if k > 0 {
      ExtrasBalancesNonIncreasing(t, x, k - 1);
    }
    StepDoesNotGrow(t, x, k);
  }

  lemma ClosingDominated(t: Terms, prev: real, b: real, extra: real)
    requires 0.0 <= prev <= Max0(b) && extra >= 0.0 && t.monthlyRate >= 0.0 && t.monthlyPayment >= 0.0
    ensures ClosingBalance(t, prev, extra) <= Max0(b - (t.monthlyPayment - MonthInterest(t, b)))
  {
    if b >= 0.0 {
      MonthInterestMonotone(t, prev, b);
    }
  }

  lemma StepDominated(t: Terms, x: ExtraPayments, k: nat)
    requires 0.0 <= Opening(t, x, k) <= Max0(Standard.Balance(t, k))
    requires x.monthly >= 0.0 && t.monthlyRate >= 0.0 && t.monthlyPayment >= 0.0
    ensures Opening(t, x, k + 1) <= Max0(Standard.Balance(t, k + 1))
  {
    OpeningStep(t, x, k);
    Standard.BalanceStep(t, k);
    ClosingDominated(t, Opening(t, x, k), Standard.Balance(t, k), ExtraFor(x, k + 1));
  }

  /** Month by month the balance with extras is at most the standard balance
      (clamped at zero). */
  lemma {:induction false} DominatedByStandard(t: Terms, x: ExtraPayments, k: nat)
    requires t.principal >= 0.0 && t.monthlyRate >= 0.0 && t.monthlyPayment >= 0.0 && x.monthly >= 0.0
    ensures 0.0 <= Opening(t, x, k) <= Max0(Standard.Balance(t, k))
  {
    if k > 0 {
      DominatedByStandard(t, x, k - 1);
      StepDominated(t, x, k - 1);
    }
  }

  /** With the annuity payment and non-negative extras the loan is paid off
      within the nominal term: the schedule is no longer than the term, ends
      at a zero balance when anything was borrowed, and saves a non-negative
      number of years. */
  lemma PayoffWithinTerm(t: Terms, x: ExtraPayments, s: seq<Record>)
    requires IsExtrasSchedule(t, x, s) && Standard.AnnuityTerms(t) && x.monthly >= 0.0
    ensures |s| <= t.numPayments
    ensures t.principal > 0.0 ==> |s| > 0 && s[|s| - 1].balance == 0.0
    ensures Totals(t, s).yearsSaved >= 0.0
  {
    Loan.PaymentCoversFirstInterest(t.principal, t.monthlyRate, t.numPayments);
    if |s| > t.numPayments {
      DominatedByStandard(t, x, t.numPayments);
      Standard.AnnuityPaysOff(t);
      assert false;
    }
    ScheduleStopsAtPayoff(t, x, s);
    ScheduleEmpty(t, x, s);
  }

  lemma InterestDominated(t: Terms, x: ExtraPayments, k: nat)
    requires Opening(t, x, k) <= Standard.Balance(t, k) && t.monthlyRate >= 0.0
    ensures MonthRecord(t, x, k).interest <= Standard.StandardRecord(t, k).interest
  {
    MonthInterestMonotone(t, Opening(t, x, k), Standard.Balance(t, k));
  }

  lemma {:induction false} InterestPrefixDominated(t: Terms, x: ExtraPayments, k: nat)
    requires Standard.AnnuityTerms(t) && x.monthly >= 0.0 && k <= t.numPayments
    ensures Sum(ExtrasRows(t, x, k), Interest) <= Sum(Standard.Rows(t, k), Interest)
  {
    Loan.PaymentCoversFirstInterest(t.principal, t.monthlyRate, t.numPayments);
    if k > 0 {
      InterestPrefixDominated(t, x, k - 1);
      ExtrasRowsAppend(t, x, k - 1);
      Standard.RowsLast(t, k);
      DominatedByStandard(t, x, k - 1);
      Standard.BalanceNonNegativeWithinTerm(t, k - 1);
      InterestDominated(t, x, k - 1);
    }
  }

  /** Extras never cost more interest than the standard schedule: the
      interest saved is never negative. */
  lemma ExtrasSaveInterest(t: Terms, x: ExtraPayments, s: seq<Record>)
    requires IsExtrasSchedule(t, x, s) && Standard.AnnuityTerms(t) && x.monthly >= 0.0
    ensures Totals(t, s).totalInterest <= Loan.TotalInterestStandard(t.principal, t.monthlyPayment, t.numPayments)
  {
    PayoffWithinTerm(t, x, s);
    InterestPrefixDominated(t, x, |s|);
    Standard.RowsInterestGrows(t, |s|, t.numPayments);
    Standard.StandardMatchesClosedForm(t);
  }

  /** At a zero rate no simulated month carries interest. */
  lemma {:induction false} ZeroRateInterestFree(t: Terms, x: ExtraPayments, k: nat)
    requires t.monthlyRate == 0.0
    ensures forall i :: 0 <= i < k ==> ExtrasRows(t, x, k)[i].interest == 0.0
    ensures Sum(ExtrasRows(t, x, k), Interest) == 0.0
  {
    if k > 0 {
      ZeroRateInterestFree(t, x, k - 1);
      ExtrasRowsAppend(t, x, k - 1);
      MonthRecordFields(t, x, k - 1);
      assert forall i :: 0 <= i < k - 1 ==> ExtrasRows(t, x, k)[i] == ExtrasRows(t, x, k - 1)[i];
    }
  }
}
