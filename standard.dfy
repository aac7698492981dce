/** The standard amortization schedule: a fixed number of equal payments and
    no extras. The running balance is never clamped; only the balance written
    into each record is clamped at zero. */
module Standard {
  import Loan
  import opened Records

  /** 1 + x + ... + x^(k-1), accumulated in Horner form. */
  function GrowthSum(x: real, k: nat): real
  {
    if k == 0 then 0.0 else x * GrowthSum(x, k - 1) + 1.0
  }

  lemma {:induction false} GrowthSumClosedForm(r: real, k: nat)
    ensures r * GrowthSum(1.0 + r, k) == Loan.Pow(1.0 + r, k) - 1.0
  {
    if k > 0 {
      GrowthSumClosedForm(r, k - 1);
      GrowthStep(r, GrowthSum(1.0 + r, k - 1), Loan.Pow(1.0 + r, k - 1));
    }
  }

  lemma GrowthStep(r: real, h: real, w: real)
    requires r * h == w - 1.0
    ensures r * ((1.0 + r) * h + 1.0) == (1.0 + r) * w - 1.0
  {
  }

  lemma {:induction false} GrowthSumOfOne(k: nat)
    ensures GrowthSum(1.0, k) == k as real
  {
    if k > 0 {
      GrowthSumOfOne(k - 1);
    }
  }

  /** The running (unclamped) balance after `k` standard payments. */
  function Balance(t: Terms, k: nat): real
  {
    if k == 0 then t.principal
    else
      var b := Balance(t, k - 1);
      b - (t.monthlyPayment - b * t.monthlyRate)
  }

  lemma BalanceStep(t: Terms, k: nat)
    ensures Balance(t, k + 1) == Balance(t, k) - (t.monthlyPayment - MonthInterest(t, Balance(t, k)))
  {
  }

  /** The principal compounded for `k` months, less every payment compounded
      from the month it was made. */
  function Compounded(t: Terms, k: nat): real
  {
    t.principal * Loan.Pow(1.0 + t.monthlyRate, k) - t.monthlyPayment * GrowthSum(1.0 + t.monthlyRate, k)
  }

  lemma CompoundedIdentity(p: real, r: real, m: real, w: real, h: real)
    ensures p * ((1.0 + r) * w) - m * ((1.0 + r) * h + 1.0) == (p * w - m * h) - (m - (p * w - m * h) * r)
  {
  }

  lemma CompoundedStep(t: Terms, k: nat)
    requires k > 0
    ensures Compounded(t, k) == Compounded(t, k - 1) - (t.monthlyPayment - Compounded(t, k - 1) * t.monthlyRate)
  {
    CompoundedIdentity(t.principal, t.monthlyRate, t.monthlyPayment,
      Loan.Pow(1.0 + t.monthlyRate, k - 1), GrowthSum(1.0 + t.monthlyRate, k - 1));
  }

  /** The running balance has the closed form of a compounded annuity. */
  lemma {:induction false} BalanceClosedForm(t: Terms, k: nat)
    ensures Balance(t, k) == Compounded(t, k)
  {
    if k > 0 {
      BalanceClosedForm(t, k - 1);
      CompoundedStep(t, k);
    }
  }

  /** The loan terms the calculator derives: the payment is the annuity payment. */
  predicate AnnuityTerms(t: Terms)
  {
    t.numPayments > 0 && t.principal >= 0.0 && t.monthlyRate >= 0.0 &&
    t.monthlyPayment == Loan.MonthlyPayment(t.principal, t.monthlyRate, t.numPayments)
  }

  lemma AnnuityCancels(p: real, r: real, q: real, h: real)
    requires r > 0.0 && q > 1.0 && r * h == q - 1.0
    ensures p * q - p * (r * q) / (q - 1.0) * h == 0.0
  {
    var m := p * (r * q) / (q - 1.0);
    assert m * (q - 1.0) == p * (r * q);
    assert (m * h) * r == (p * q) * r;
    Loan.CancelFactor(m * h, p * q, r);
  }

  lemma PaysOffAtPositiveRate(t: Terms)
    requires AnnuityTerms(t) && t.monthlyRate > 0.0
    ensures Compounded(t, t.numPayments) == 0.0
  {
    GrowthSumClosedForm(t.monthlyRate, t.numPayments);
    Loan.PowAboveOne(1.0 + t.monthlyRate, t.numPayments);
    AnnuityCancels(t.principal, t.monthlyRate,
      Loan.Pow(1.0 + t.monthlyRate, t.numPayments), GrowthSum(1.0 + t.monthlyRate, t.numPayments));
  }

  lemma PaysOffAtZeroRate(t: Terms)
    requires AnnuityTerms(t) && t.monthlyRate == 0.0
    ensures Compounded(t, t.numPayments) == 0.0
  {
    Loan.PowOfOne(t.numPayments);
    GrowthSumOfOne(t.numPayments);
  }

  /** Under exact arithmetic the annuity payment repays the principal exactly
      at the end of the term. */
  lemma AnnuityPaysOff(t: Terms)
    requires AnnuityTerms(t)
    ensures Balance(t, t.numPayments) == 0.0
  {
    BalanceClosedForm(t, t.numPayments);
    if t.monthlyRate > 0.0 {
      PaysOffAtPositiveRate(t);
    } else {
      PaysOffAtZeroRate(t);
    }
  }

  /** Record `i` (0-based) of the standard schedule. */
  function StandardRecord(t: Terms, i: nat): Record
  {
    var b := Balance(t, i);
    var interest := MonthInterest(t, b);
    var principalPaid := t.monthlyPayment - interest;
    Record(i + 1, t.monthlyPayment, principalPaid, interest, 0.0, Max0(b - principalPaid))
  }

  /** The first `k` records of the standard schedule. */
  function Rows(t: Terms, k: nat): (s: seq<Record>)
    ensures |s| == k
  {
    if k == 0 then [] else Rows(t, k - 1) + [StandardRecord(t, k - 1)]
  }

  lemma {:induction false} RowsAt(t: Terms, k: nat, i: nat)
    requires i < k
    ensures Rows(t, k)[i] == StandardRecord(t, i)
  {
    if i < k - 1 {
      RowsAt(t, k - 1, i);
    }
  }

  /** Record `i` pays interest on the balance after `i` payments, and records
      the balance after `i + 1` payments, clamped at zero. */
  lemma StandardRecordFields(t: Terms, i: nat)
    ensures StandardRecord(t, i).month == i + 1
    ensures StandardRecord(t, i).payment == t.monthlyPayment
    ensures StandardRecord(t, i).extra == 0.0
    ensures StandardRecord(t, i).interest == MonthInterest(t, Balance(t, i))
    ensures StandardRecord(t, i).principal == t.monthlyPayment - StandardRecord(t, i).interest
    ensures StandardRecord(t, i).balance == Max0(Balance(t, i + 1))
  {
  }

  lemma RowsLast(t: Terms, k: nat)
    requires k > 0
    ensures Rows(t, k)[..k - 1] == Rows(t, k - 1)
    ensures Rows(t, k)[k - 1] == StandardRecord(t, k - 1)
  {
  }

  /** The standard schedule builder (a `for` loop over months 1..n). */
  method BuildStandardSchedule(t: Terms) returns (s: seq<Record>)
    ensures s == Rows(t, t.numPayments)
    ensures |s| == t.numPayments
    ensures forall i :: 0 <= i < |s| ==> s[i] == StandardRecord(t, i)
  {
    var balance := t.principal;
    s := [];
    for month := 1 to t.numPayments + 1
      invariant balance == Balance(t, month - 1)
      invariant s == Rows(t, month - 1)
    {
      var interest := balance * t.monthlyRate;
      var principalPayment := t.monthlyPayment - interest;
      balance := balance - principalPayment;
      assert interest == MonthInterest(t, Balance(t, month - 1));
      s := s + [Record(month, t.monthlyPayment, principalPayment, interest, 0.0, Max0(balance))];
    }
    forall i | 0 <= i < |s|
      ensures s[i] == StandardRecord(t, i)
    {
      RowsAt(t, t.numPayments, i);
    }
  }

  /** After `k` standard payments the Principal column has repaid
      `principal - Balance(t, k)` and the Interest column holds the rest of
      the `k` payments. */
  lemma {:induction false} RowsSums(t: Terms, k: nat)
    ensures Sum(Rows(t, k), Payment) == Times(k, t.monthlyPayment)
    ensures Sum(Rows(t, k), Principal) == t.principal - Balance(t, k)
    ensures Sum(Rows(t, k), Interest) == Times(k, t.monthlyPayment) - (t.principal - Balance(t, k))
  {
    if k > 0 {
      RowsSums(t, k - 1);
      RowsLast(t, k);
      StandardRecordFields(t, k - 1);
      TimesStep(k, t.monthlyPayment);
    }
  }

  /** The schedule agrees with the closed-form totals: it pays
      `TotalPaidStandard`, of which exactly the principal is principal and
      `TotalInterestStandard` is interest, and it ends at a zero balance. */
  lemma StandardMatchesClosedForm(t: Terms)
    requires AnnuityTerms(t)
    ensures Sum(Rows(t, t.numPayments), Payment) == Loan.TotalPaidStandard(t.monthlyPayment, t.numPayments)
    ensures Sum(Rows(t, t.numPayments), Principal) == t.principal
    ensures Sum(Rows(t, t.numPayments), Interest) ==
      Loan.TotalInterestStandard(t.principal, t.monthlyPayment, t.numPayments)
    ensures Rows(t, t.numPayments)[t.numPayments - 1].balance == 0.0
  {
    AnnuityPaysOff(t);
    RowsSums(t, t.numPayments);
    RowsAt(t, t.numPayments, t.numPayments - 1);
    StandardRecordFields(t, t.numPayments - 1);
  }

  /** `r` is what one pass of the loop body records in month `i + 1` when
      `owed` is still owed: interest on it, the rest of the payment as
      principal, and what is left clamped at zero. */
  predicate StandardMonth(t: Terms, i: nat, owed: real, r: Record)
  {
    && r.month == i + 1
    && r.payment == t.monthlyPayment
    && r.extra == 0.0
    && r.interest == owed * t.monthlyRate
    && r.principal == t.monthlyPayment - r.interest
    && r.balance == Max0(owed - r.principal)
  }

  /** `s` records the standard payments: each month accrues interest on the
      principal that the earlier records have not repaid yet. */
  predicate IsStandardSchedule(t: Terms, s: seq<Record>)
  {
    && |s| == t.numPayments
    && forall i :: 0 <= i < |s| ==> StandardMonth(t, i, t.principal - Sum(s[..i], Principal), s[i])
  }

  lemma {:induction false} RowsPrefix(t: Terms, k: nat, j: nat)
    requires j <= k
    ensures Rows(t, k)[..j] == Rows(t, j)
  {
    if j < k {
      RowsPrefix(t, k - 1, j);
      RowsLast(t, k);
      assert Rows(t, k)[..j] == Rows(t, k)[..k - 1][..j];
    }
  }

  lemma StandardMonthIsRecord(t: Terms, i: nat, r: Record)
    ensures StandardMonth(t, i, Balance(t, i), r) <==> r == StandardRecord(t, i)
  {
  }

  lemma {:induction false} IsStandardSchedulePrefix(t: Terms, s: seq<Record>, j: nat)
    requires IsStandardSchedule(t, s) && j <= |s|
    ensures s[..j] == Rows(t, j)
  {
    if j > 0 {
      IsStandardSchedulePrefix(t, s, j - 1);
      RowsSums(t, j - 1);
      StandardMonthIsRecord(t, j - 1, s[j - 1]);
      assert s[..j] == s[..j - 1] + [s[j - 1]];
    }
  }

  /** The reference schedule, restated over the records themselves: the
      standard schedule is the one sequence of `num_payments` records in which
      every month pays interest on the principal still owed after the earlier
      records' principal shares. */
  lemma StandardScheduleRecurrence(t: Terms, s: seq<Record>)
    ensures IsStandardSchedule(t, s) <==> s == Rows(t, t.numPayments)
  {
    if s == Rows(t, t.numPayments) {
      forall i | 0 <= i < |s|
        ensures StandardMonth(t, i, t.principal - Sum(s[..i], Principal), s[i])
      {
        RowsPrefix(t, t.numPayments, i);
        RowsSums(t, i);
        RowsAt(t, t.numPayments, i);
        StandardMonthIsRecord(t, i, s[i]);
      }
    }
    if IsStandardSchedule(t, s) {
      IsStandardSchedulePrefix(t, s, |s|);
      assert s[..|s|] == s;
    }
  }

  /** When the payment covers the first month's interest, the running balance
      never grows and never exceeds the principal. */
  lemma {:induction false} BalanceNonIncreasing(t: Terms, k: nat)
    requires t.principal >= 0.0 && t.monthlyRate >= 0.0
    requires t.monthlyPayment >= t.principal * t.monthlyRate
    ensures Balance(t, k + 1) <= Balance(t, k) <= t.principal
  {
    if k > 0 {
      BalanceNonIncreasing(t, k - 1);
    }
    Loan.MulMonotone(Balance(t, k), t.principal, t.monthlyRate);
  }

  /** So the recorded balances of the standard schedule never grow. */
  lemma StandardRecordsNonIncreasing(t: Terms, i: nat)
    requires AnnuityTerms(t) && 0 < i < t.numPayments
    ensures Rows(t, t.numPayments)[i].balance <= Rows(t, t.numPayments)[i - 1].balance
  {
    Loan.PaymentCoversFirstInterest(t.principal, t.monthlyRate, t.numPayments);
    BalanceNonIncreasing(t, i);
    RowsAt(t, t.numPayments, i);
    RowsAt(t, t.numPayments, i - 1);
    StandardRecordFields(t, i);
    StandardRecordFields(t, i - 1);
  }

  /** Within the term the running balance is never negative. */
  lemma {:induction false} BalanceNonNegativeWithinTerm(t: Terms, k: nat)
    requires AnnuityTerms(t) && k <= t.numPayments
    ensures Balance(t, k) >= 0.0
    decreases t.numPayments - k
  {
    if k == t.numPayments {
      AnnuityPaysOff(t);
    } else {
      BalanceNonNegativeWithinTerm(t, k + 1);
      Loan.PaymentCoversFirstInterest(t.principal, t.monthlyRate, t.numPayments);
      BalanceNonIncreasing(t, k);
    }
  }

  lemma InterestNonNegative(t: Terms, i: nat)
    requires Balance(t, i) >= 0.0 && t.monthlyRate >= 0.0
    ensures StandardRecord(t, i).interest >= 0.0
  {
    MonthInterestMonotone(t, 0.0, Balance(t, i));
  }

  /** The Interest column of the first `k` standard records grows with `k`
      up to the end of the term. */
  lemma {:induction false} RowsInterestGrows(t: Terms, j: nat, k: nat)
    requires AnnuityTerms(t) && j <= k <= t.numPayments
    ensures Sum(Rows(t, j), Interest) <= Sum(Rows(t, k), Interest)
  {
    if j < k {
      RowsInterestGrows(t, j, k - 1);
      BalanceNonNegativeWithinTerm(t, k - 1);
      InterestNonNegative(t, k - 1);
      RowsLast(t, k);
      StandardRecordFields(t, k - 1);
    }
  }

  /** At a zero rate no standard record carries interest. */
  lemma {:induction false} ZeroRateInterestFree(t: Terms, k: nat)
    requires t.monthlyRate == 0.0
    ensures forall i :: 0 <= i < k ==> Rows(t, k)[i].interest == 0.0
    ensures Sum(Rows(t, k), Interest) == 0.0
  {
    if k > 0 {
      ZeroRateInterestFree(t, k - 1);
      RowsLast(t, k);
      StandardRecordFields(t, k - 1);
      assert forall i :: 0 <= i < k - 1 ==> Rows(t, k)[i] == Rows(t, k - 1)[i];
    }
  }
}
