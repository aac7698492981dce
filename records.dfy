/** The rows of an amortization schedule, the loan terms the schedule
    builders start from, and the column sums taken over a schedule. */
module Records {

  datatype Option<T> = None | Some(value: T)

  /** One month of an amortization schedule. */
  datatype Record = Record(
    month: int,
    payment: real,
    principal: real,
    interest: real,
    extra: real,
    balance: real)

  /** The money columns of a schedule. */
  datatype Column = Payment | Principal | Interest | Extra
  {
    function Of(r: Record): real
    {
      match this
      case Payment => r.payment
      case Principal => r.principal
      case Interest => r.interest
      case Extra => r.extra
    }
  }

  /** What the loan setup hands to both schedule builders. */
  datatype Terms = Terms(principal: real, monthlyRate: real, monthlyPayment: real, numPayments: nat)

  /** One month's interest on an opening balance. */
  function MonthInterest(t: Terms, balance: real): real
  {
    balance * t.monthlyRate
  }

  /** At a rate that is not negative, a larger balance never accrues less. */
  lemma MonthInterestMonotone(t: Terms, a: real, b: real)
    requires a <= b && t.monthlyRate >= 0.0
    ensures MonthInterest(t, a) <= MonthInterest(t, b)
  {
  }

  /** `max(0, x)`: the least non-negative value that is at least `x`. */
  function Max0(x: real): (m: real)
    ensures m >= 0.0 && m >= x
    ensures m == 0.0 || m == x
  {
    if x > 0.0 then x else 0.0
  }

  /** `amount` paid `k` times. */
  function Times(k: nat, amount: real): real
  {
    amount * k as real
  }

  lemma TimesStep(k: nat, amount: real)
    requires k > 0
    ensures Times(k, amount) == Times(k - 1, amount) + amount
  {
  }

  /** The sum of one column over a schedule, as a table column's sum. */
  function Sum(s: seq<Record>, c: Column): real
  {
    if s == [] then 0.0 else Sum(s[..|s| - 1], c) + c.Of(s[|s| - 1])
  }

  /** Each record's payment is its principal share plus its interest share,
      so the Payment column sums to the Principal and Interest columns. */
  lemma {:induction false} PaymentIsPrincipalPlusInterest(s: seq<Record>)
    requires forall i :: 0 <= i < |s| ==> s[i].payment == s[i].principal + s[i].interest
    ensures Sum(s, Payment) == Sum(s, Principal) + Sum(s, Interest)
  {
    if s != [] {
      PaymentIsPrincipalPlusInterest(s[..|s| - 1]);
    }
  }
}
