/** The calculation the dashboard shows: the loan setup from the sidebar
    values, the standard totals, and (when any extra payment is entered) the
    schedule with extras and what it saves; and the schedule behind the
    amortization table. */
module Calculator {
  import Loan
  import opened Records
  import Standard
  import Extras

  /** The loan terms both schedule builders start from. */
  function Setup(loanAmount: real, downPaymentPct: real, interestRatePct: real, loanTermYears: nat): (t: Terms)
    requires loanTermYears > 0
    ensures t.numPayments > 0
    ensures loanAmount >= 0.0 && 0.0 <= downPaymentPct <= 100.0 && interestRatePct >= 0.0 ==>
      Standard.AnnuityTerms(t)
  {
    var principal := Loan.Principal(loanAmount, downPaymentPct);
    var monthlyRate := Loan.MonthlyRate(interestRatePct);
    var numPayments := Loan.NumPayments(loanTermYears);
    Terms(principal, monthlyRate, Loan.MonthlyPayment(principal, monthlyRate, numPayments), numPayments)
  }

  /** Everything the calculation produces. `amortization` is the schedule
      with extras, present only when an extra payment was entered.
      `extraOneTimeAfter` is the value the sidebar's one-time extra holds
      once the calculation has run: the loop sets it to 0 when it applies it. */
  datatype Summary = Summary(
    principal: real,
    monthlyRate: real,
    numPayments: nat,
    monthlyPayment: real,
    totalPaidStandard: real,
    totalInterestStandard: real,
    amortization: Option<seq<Record>>,
    yearsSaved: real,
    totalPaidExtra: real,
    totalInterestExtra: real,
    extraOneTimeAfter: real)

  /** The calculation either yields its figures or stops where the script
      raises: with an extra entered and nothing borrowed the schedule with
      extras is empty, so its table has no Payment column to sum. */
  datatype Calculation = Computed(summary: Summary) | MissingPaymentColumn

  /** Inputs for which the loan amortizes: no negative amount, rate or
      monthly extra, and a down payment between 0 and 100 percent (the
      sidebar widgets allow only such values). */
  predicate AmortizingInputs(loanAmount: real, downPaymentPct: real, interestRatePct: real, extraMonthly: real)
  {
    loanAmount >= 0.0 && 0.0 <= downPaymentPct <= 100.0 && interestRatePct >= 0.0 && extraMonthly >= 0.0
  }

  /** The calculation of the dashboard figures from the sidebar values. */
  method Calculate(loanAmount: real, downPaymentPct: real, interestRatePct: real, loanTermYears: nat,
                   extraMonthly: real, extraOneTime: real, extraOneTimeMonth: int) returns (c: Calculation)
    requires loanTermYears > 0
    ensures c.MissingPaymentColumn? <==>
      (extraMonthly > 0.0 || extraOneTime > 0.0) && Loan.Principal(loanAmount, downPaymentPct) <= 0.0
    ensures c.Computed? ==>
      var r := c.summary;
      && r.principal == Loan.Principal(loanAmount, downPaymentPct)
      && r.monthlyRate == Loan.MonthlyRate(interestRatePct)
      && r.numPayments == Loan.NumPayments(loanTermYears)
      && r.monthlyPayment == Loan.MonthlyPayment(r.principal, r.monthlyRate, r.numPayments)
      && r.totalPaidStandard == Loan.TotalPaidStandard(r.monthlyPayment, r.numPayments)
      && r.totalInterestStandard == Loan.TotalInterestStandard(r.principal, r.monthlyPayment, r.numPayments)
      && (r.amortization.Some? <==> extraMonthly > 0.0 || extraOneTime > 0.0)
    ensures c.Computed? && c.summary.amortization.Some? ==>
      var r := c.summary;
      var s := r.amortization.value;
      var x := Extras.ExtraPayments(extraMonthly, extraOneTime, extraOneTimeMonth);
      && s != []
      && Extras.IsExtrasSchedule(Setup(loanAmount, downPaymentPct, interestRatePct, loanTermYears), x, s)
      && r.totalPaidExtra == Sum(s, Payment)
      && r.totalInterestExtra == Sum(s, Interest)
      && r.yearsSaved == (r.numPayments as real - |s| as real) / 12.0
      && r.extraOneTimeAfter == Extras.OneTimeLeft(x, |s|)
    ensures c.Computed? && c.summary.amortization.None? ==>
      var r := c.summary;
      r.yearsSaved == 0.0 && r.totalPaidExtra == r.totalPaidStandard &&
      r.totalInterestExtra == r.totalInterestStandard && r.extraOneTimeAfter == extraOneTime
    ensures c.Computed? && AmortizingInputs(loanAmount, downPaymentPct, interestRatePct, extraMonthly) ==>
      c.summary.yearsSaved >= 0.0 && c.summary.totalInterestExtra <= c.summary.totalInterestStandard
  {
    var principal := Loan.Principal(loanAmount, downPaymentPct);
    var monthlyRate := Loan.MonthlyRate(interestRatePct);
    var numPayments := Loan.NumPayments(loanTermYears);
    var monthlyPayment := Loan.MonthlyPayment(principal, monthlyRate, numPayments);
    var totalPaidStandard := Loan.TotalPaidStandard(monthlyPayment, numPayments);
    var totalInterestStandard := Loan.TotalInterestStandard(principal, monthlyPayment, numPayments);
    var t := Setup(loanAmount, downPaymentPct, interestRatePct, loanTermYears);
    if extraMonthly > 0.0 || extraOneTime > 0.0 {
      var x := Extras.ExtraPayments(extraMonthly, extraOneTime, extraOneTimeMonth);
      var s, runningInterest, oneTimeLeft := Extras.BuildExtrasSchedule(t, x);
      Extras.ScheduleEmpty(t, x, s);
      if s == [] {
        return MissingPaymentColumn;
      }
      var totals := Extras.Totals(t, s);
      if AmortizingInputs(loanAmount, downPaymentPct, interestRatePct, extraMonthly) {
        Extras.PayoffWithinTerm(t, x, s);
        Extras.ExtrasSaveInterest(t, x, s);
      }
      c := Computed(Summary(principal, monthlyRate, numPayments, monthlyPayment, totalPaidStandard,
        totalInterestStandard, Some(s), totals.yearsSaved, totals.totalPaid, totals.totalInterest, oneTimeLeft));
    } else {
      c := Computed(Summary(principal, monthlyRate, numPayments, monthlyPayment, totalPaidStandard,
        totalInterestStandard, None, 0.0, totalPaidStandard, totalInterestStandard, extraOneTime));
    }
  }

  /** The schedule behind the amortization table: the schedule with extras
      when there is one, otherwise the standard schedule built on demand. */
  method AmortizationTable(t: Terms, amortization: Option<seq<Record>>) returns (table: seq<Record>)
    ensures amortization.Some? ==> table == amortization.value
    ensures amortization.None? ==> table == Standard.Rows(t, t.numPayments)
  {
    if amortization.None? {
      table := Standard.BuildStandardSchedule(t);
    } else {
      table := amortization.value;
    }
  }
}
