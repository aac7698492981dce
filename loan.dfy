/** Loan setup of the mortgage calculator: the principal left after the down
    payment, the monthly rate, the number of payments, the fixed annuity
    payment and the closed-form lifetime totals of the standard schedule.
    Money is modelled as exact reals. */
module Loan {
  import opened Records

  // Small facts of real arithmetic that the solver does not find in context.

  lemma MulPositive(a: real, b: real)
    requires a > 0.0 && b > 0.0
    ensures a * b > 0.0
  {
  }

  lemma MulMonotone(a: real, b: real, c: real)
    requires a <= b && c >= 0.0
    ensures a * c <= b * c
  {
  }

  lemma CancelFactor(a: real, b: real, c: real)
    requires c > 0.0 && a * c == b * c
    ensures a == b
  {
  }

  /** `x ** n` for a natural exponent. */
  function Pow(x: real, n: nat): real
  {
    if n == 0 then 1.0 else x * Pow(x, n - 1)
  }

  lemma {:induction false} PowOfOne(n: nat)
    ensures Pow(1.0, n) == 1.0
  {
    if n > 0 {
      PowOfOne(n - 1);
    }
  }

  lemma {:induction false} PowAboveOne(x: real, n: nat)
    requires x > 1.0 && n > 0
    ensures Pow(x, n) > 1.0
  {
    if n > 1 {
      PowAboveOne(x, n - 1);
      var y := Pow(x, n - 1);
      MulPositive(x - 1.0, y - 1.0);
      assert x * y == (x - 1.0) * (y - 1.0) + x + y - 1.0;
    }
  }

  /** The down payment: a percentage of the home price. */
  function DownPayment(loanAmount: real, downPaymentPct: real): real
  {
    loanAmount * (downPaymentPct / 100.0)
  }

  /** The amount borrowed: the home price less the down payment. */
  function Principal(loanAmount: real, downPaymentPct: real): (p: real)
    ensures p == loanAmount * (1.0 - downPaymentPct / 100.0)
    ensures 0.0 <= loanAmount && 0.0 <= downPaymentPct <= 100.0 ==> 0.0 <= p <= loanAmount
  {
    var f := downPaymentPct / 100.0;
    assert 0.0 <= loanAmount && 0.0 <= f <= 1.0 ==> 0.0 <= loanAmount * f <= loanAmount * 1.0;
    loanAmount - DownPayment(loanAmount, downPaymentPct)
  }

  /** The monthly rate as a fraction, from the annual rate in percent. */
  function MonthlyRate(annualRatePct: real): (r: real)
    ensures r * 1200.0 == annualRatePct
    ensures r > 0.0 <==> annualRatePct > 0.0
  {
    annualRatePct / 100.0 / 12.0
  }

  /** The number of monthly payments in a term of whole years. */
  function NumPayments(termYears: nat): (n: nat)
    ensures n / 12 == termYears && n % 12 == 0
  {
    termYears * 12
  }

  /** The fixed monthly payment (principal and interest) of an annuity loan;
      a zero (or negative) rate falls back to straight-line repayment. */
  function MonthlyPayment(principal: real, monthlyRate: real, numPayments: nat): (m: real)
    requires numPayments > 0
    ensures monthlyRate > 0.0 ==>
      m * (Pow(1.0 + monthlyRate, numPayments) - 1.0) == principal * monthlyRate * Pow(1.0 + monthlyRate, numPayments)
    ensures monthlyRate <= 0.0 ==> m * numPayments as real == principal
  {
    if monthlyRate > 0.0 then
      var q := Pow(1.0 + monthlyRate, numPayments);
      PowAboveOne(1.0 + monthlyRate, numPayments);
      principal * (monthlyRate * q) / (q - 1.0)
    else
      principal / numPayments as real
  }

  /** The standard payment is never negative, and it covers the first month's
      interest `principal * monthlyRate`, so the standard balance never grows. */
  lemma PaymentCoversFirstInterest(principal: real, monthlyRate: real, numPayments: nat)
    requires numPayments > 0 && principal >= 0.0
    ensures MonthlyPayment(principal, monthlyRate, numPayments) >= 0.0
    ensures monthlyRate >= 0.0 ==>
      MonthlyPayment(principal, monthlyRate, numPayments) >= principal * monthlyRate
  {
    var m := MonthlyPayment(principal, monthlyRate, numPayments);
    if monthlyRate > 0.0 {
      var q := Pow(1.0 + monthlyRate, numPayments);
      PowAboveOne(1.0 + monthlyRate, numPayments);
      var a := principal * monthlyRate;
      assert a >= 0.0;
      assert m * (q - 1.0) == a * q;
      assert (m - a) * (q - 1.0) == a;
      MulMonotone(0.0, m - a, q - 1.0);
      if m - a < 0.0 {
        MulPositive(a - m, q - 1.0);
      }
    } else {
      assert m == principal / numPayments as real;
    }
  }

  /** Lifetime amount paid on the standard schedule. */
  function TotalPaidStandard(monthlyPayment: real, numPayments: nat): (total: real)
    ensures numPayments > 0 ==> total / numPayments as real == monthlyPayment
  {
    Times(numPayments, monthlyPayment)
  }

  /** Lifetime interest paid on the standard schedule. */
  function TotalInterestStandard(principal: real, monthlyPayment: real, numPayments: nat): (interest: real)
    ensures principal + interest == TotalPaidStandard(monthlyPayment, numPayments)
    ensures interest >= 0.0 <==> monthlyPayment * numPayments as real >= principal
  {
    TotalPaidStandard(monthlyPayment, numPayments) - principal
  }

  /** With a zero rate the payment spreads the principal evenly over the term
      and the loan costs no interest. */
  lemma ZeroRateLoan(principal: real, numPayments: nat)
    requires numPayments > 0
    ensures MonthlyPayment(principal, 0.0, numPayments) * numPayments as real == principal
    ensures TotalInterestStandard(principal, MonthlyPayment(principal, 0.0, numPayments), numPayments) == 0.0
  {
  }
}
