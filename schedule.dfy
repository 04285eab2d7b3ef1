/** What the closed forms of the amortization engine mean: the balance solves
    the level-payment recurrence and falls exactly in the amortizing case, the
    per-period interest and capital split each payment, and the accrued
    amounts are the running sums of the per-period ones. */
module Schedule {
  import opened Powers
  import opened Amortization

  /** The balance closed form solves the recurrence of a level-payment loan:
      each period the balance grows by the rate and the payment is deducted. */
  lemma PresentValueRecurrence(m: Mortgage, k: int)
    requires m.Valid()
    ensures m.PresentValue(k + 1) == m.PresentValue(k) * m.Growth() - m.payment
  {
    var q := m.Growth();
    PowSucc(q, k);
    RecurrenceAlgebra(m.loan, m.payment, m.j, q, Pow(q, k), Pow(q, k + 1), m.PresentValue(k), m.PresentValue(k + 1));
  }

  /** The balance closed form gives back the loan at period 0 and agrees with
      the recurrence at every later period. */
  lemma {:induction false} PresentValueSolvesRecurrence(m: Mortgage, k: nat)
    requires m.Valid()
    ensures m.PresentValue(k) == m.ScheduledBalance(k)
    ensures m.PresentValue(0) == m.loan
  {
    if k > 0 {
      PresentValueSolvesRecurrence(m, k - 1);
      PresentValueRecurrence(m, k - 1);
    }
  }

  /** The capital repaid in period k is exactly the drop in balance. */
  lemma CapitalIsBalanceDrop(m: Mortgage, k: int)
    requires m.Valid()
    ensures m.Capital(k) == m.PresentValue(k - 1) - m.PresentValue(k)
  {
    PresentValueRecurrence(m, k - 1);
  }

  /** From period k to k + 1 the balance falls by (1 + j)^k times the excess
      of the payment over the interest the loan itself would accrue. */
  lemma BalanceDrop(m: Mortgage, k: int)
    requires m.Valid()
    ensures m.PresentValue(k) - m.PresentValue(k + 1) == Pow(m.Growth(), k) * (m.payment - m.j * m.loan)
  {
    var q, b, b1 := m.Growth(), m.PresentValue(k), m.PresentValue(k + 1);
    assert b == Balance(m.loan, m.payment, m.j, Pow(q, k));
    PresentValueRecurrence(m, k);
    DropAlgebra(m.loan, m.payment, m.j, q, Pow(q, k), b, b1);
  }

  /** The balance strictly decreases from each period to the next exactly when
      the payment exceeds the interest on the loan (the amortizing case). */
  lemma BalanceDecreasesIff(m: Mortgage, k: int)
    requires m.Valid()
    ensures m.PresentValue(k + 1) < m.PresentValue(k) <==> m.payment > m.j * m.loan
  {
    BalanceDrop(m, k);
    PositiveFactor(Pow(m.Growth(), k), m.payment - m.j * m.loan);
  }

  /** Between consecutive periods the accrued-interest closed form grows by
      exactly that period's interest. */
  lemma AccruedInterestStep(m: Mortgage, k: int)
    requires m.Valid()
    ensures m.AccruedInterest(k) == m.AccruedInterest(k - 1) + m.Interest(k)
  {
    var q := m.Growth();
    PowSucc(q, k - 1);
    assert Pow(q, k) == Pow(q, k - 1) * q;
    AccruedInterestAlgebra(m.loan, m.payment, m.j, q, Pow(q, k - 1), Pow(q, k), k as real, (k - 1) as real, m.PresentValue(k - 1));
  }

  /** The accrued-interest closed form is the running sum of the per-period
      interests; at period 0 nothing has accrued. */
  lemma {:induction false} AccruedInterestIsRunningSum(m: Mortgage, k: nat)
    requires m.Valid()
    ensures m.AccruedInterest(k) == m.InterestPaid(k)
    ensures m.AccruedInterest(0) == 0.0
  {
    if k > 0 {
      AccruedInterestIsRunningSum(m, k - 1);
      AccruedInterestStep(m, k);
    }
  }

  /** The accrued-capital closed form is the principal repaid so far: the
      loan less the outstanding balance. */
  lemma AccruedCapitalIsPrincipalRepaid(m: Mortgage, k: int)
    requires m.Valid()
    ensures m.AccruedCapital(k) == m.loan - m.PresentValue(k)
  {
    AccruedCapitalAlgebra(m.loan, m.payment, m.j, Pow(m.Growth(), k), k as real);
  }

  /** The accrued-capital closed form is the running sum of the per-period
      capital portions. */
  lemma {:induction false} AccruedCapitalIsRunningSum(m: Mortgage, k: nat)
    requires m.Valid()
    ensures m.AccruedCapital(k) == m.CapitalPaid(k)
  {
    AccruedCapitalIsPrincipalRepaid(m, k);
    if k > 0 {
      AccruedCapitalIsRunningSum(m, k - 1);
      AccruedCapitalIsPrincipalRepaid(m, k - 1);
      CapitalIsBalanceDrop(m, k);
    }
  }

  /** Accounting identity: over the first k periods the interest and the
      capital paid add up to k payments, both as running sums and in the
      closed forms. */
  lemma AccountingIdentity(m: Mortgage, k: nat)
    requires m.Valid()
    ensures m.InterestPaid(k) + m.CapitalPaid(k) == k as real * m.payment
    ensures m.AccruedInterest(k) + m.AccruedCapital(k) == k as real * m.payment
  {
    assert m.AccruedCapital(k) == k as real * m.payment - m.AccruedInterest(k);
    AccruedInterestIsRunningSum(m, k);
    AccruedCapitalIsRunningSum(m, k);
  }

  /** What sizing the accelerated-weekly payment at a quarter of the monthly
      annuity payment means: a monthly loan at the rate j12 paying four weekly
      payments a month is paid off exactly after term*12 months. */
  lemma MonthlyEquivalentPaysOff(m: Mortgage)
    requires m.j12 > -1.0 && m.j12 != 0.0
    requires 4.0 * m.payment * MonthlyAnnuity(m.j12, m.term) == m.loan
    ensures m.(j := m.j12, payment := 4.0 * m.payment).PresentValue(m.term * 12) == 0.0
  {
    var q := 1.0 + m.j12;
    var n := m.term * 12;
    PowNegate(q, n);
    PayOffAlgebra(m.loan, 4.0 * m.payment, m.j12, Pow(q, n), Pow(q, -n));
  }
}
