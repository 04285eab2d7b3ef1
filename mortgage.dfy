/** The fixed-rate amortization engine of mortgage.py: payment sizing for the
    accelerated-weekly modality, and the closed forms of the outstanding
    balance, the accrued interest and the accrued capital as functions of the
    period index k, with the per-period interest and capital queries.

    The source builds these closed forms symbolically once and evaluates them
    numerically per query; here they are the reduced formulas over exact reals,
    with (1 + j)^k an integer power of the weekly growth factor. */
module Amortization {
  import opened Powers

  /** The three payment modalities the source declares. */
  datatype Modality = Monthly | Weekly | AcceleratedWeekly

  /** Why a mortgage cannot be set up. */
  datatype SetupError =
    | UnsupportedModality  // set_up has no payment rule for this modality
    | ZeroRate             // a periodic rate of zero: the formulas divide by it
    | ZeroAnnuity          // an annuity factor of zero: the payment divides by it

  datatype Result<T> = Ok(value: T) | Err(error: SetupError)

  /** What set_up returns: the weekly payment and the weekly effective rate. */
  datatype Sizing = Sizing(payment: real, j: real)

  /** The monthly annuity factor over the term in months,
      (1 - (1 + j12)^(-term*12)) / j12. */
  function MonthlyAnnuity(j12: real, term: int): real
    requires j12 > -1.0 && j12 != 0.0
  {
    (1.0 - Pow(1.0 + j12, -term * 12)) / j12
  }

  /** The sign of the annuity factor is the sign of the term, whatever the
      (non-zero) rate; in particular it is zero only for a zero term. */
  lemma MonthlyAnnuitySign(j12: real, term: int)
    requires j12 > -1.0 && j12 != 0.0
    ensures MonthlyAnnuity(j12, term) == 0.0 <==> term == 0
    ensures MonthlyAnnuity(j12, term) > 0.0 <==> term > 0
  {
    var q, n := 1.0 + j12, term * 12;
    var d := Pow(q, -n);
    PowIsOneIff(q, -n);
    if term > 0 {
      // q^-n is on the other side of one from q
      PowIsOneIff(q, n);
      PowNegate(q, n);
      ReciprocalSide(Pow(q, n), d);
    }
    QuotientSign(1.0 - d, j12);
  }

  /** Of two reciprocals, one is above one exactly when the other is below. */
  lemma ReciprocalSide(a: real, b: real)
    requires a > 0.0 && a * b == 1.0
    ensures a > 1.0 <==> b < 1.0
  {
    if a > 1.0 {
      assert a * b < a * 1.0;
    } else if a < 1.0 {
      assert a * b > a * 1.0;
    }
  }

  /** The sign of a quotient. */
  lemma QuotientSign(a: real, j: real)
    requires j != 0.0
    ensures a / j == 0.0 <==> a == 0.0
    ensures a / j > 0.0 <==> (a > 0.0 && j > 0.0) || (a < 0.0 && j < 0.0)
  {
    assert a / j * j == a;
  }

  /** Present value of one unit paid at the end of each of n periods at growth
      factor q: the sum of q^-1 + ... + q^-n. The independent reference
      definition of an annuity factor. */
  function DiscountSum(q: real, n: nat): real
    requires q != 0.0
  {
    if n == 0 then 0.0 else DiscountSum(q, n - 1) + Pow(q, -(n as int))
  }

  /** The closed-form annuity factor is the sum of the discount factors of the
      term's 12*term monthly payments. */
  lemma MonthlyAnnuityIsDiscountSum(j12: real, term: nat)
    requires j12 > -1.0 && j12 != 0.0
    ensures MonthlyAnnuity(j12, term) == DiscountSum(1.0 + j12, term * 12)
  {
    AnnuityClosedForm(j12, 1.0 + j12, term * 12);
  }

  /** (1 - q^-n)/j is the sum of the first n discount factors at q = 1 + j. */
  lemma {:induction false} AnnuityClosedForm(j: real, q: real, n: nat)
    requires j != 0.0 && q == 1.0 + j && q > 0.0
    ensures (1.0 - Pow(q, -(n as int))) / j == DiscountSum(q, n)
  {
    if n > 0 {
      AnnuityClosedForm(j, q, n - 1);
      var a, a1 := Pow(q, -(n as int)), Pow(q, -((n - 1) as int));
      PowSucc(q, -(n as int));
      AnnuityAlgebra(a, a1, j, q, DiscountSum(q, n - 1));
    }
  }

  /** set_up: sizes the payment, for the accelerated-weekly modality only.
      j12 and j52 are the monthly and weekly effective rates equivalent to the
      nominal semi-annual rate; any such rate exceeds -1. */
  function SetUp(term: int, loan: real, modality: Modality, j12: real, j52: real): (r: Result<Sizing>)
    requires j12 > -1.0 && j52 > -1.0
    ensures modality != AcceleratedWeekly ==> r == Err(UnsupportedModality)
    ensures r.Err? <==> modality != AcceleratedWeekly || j12 == 0.0 || term == 0
    ensures r.Ok? ==> r.value.j == j52
    ensures r.Ok? ==> 4.0 * r.value.payment * MonthlyAnnuity(j12, term) == loan
    ensures r.Ok? && loan > 0.0 && term > 0 ==> r.value.payment > 0.0
  {
    if modality != AcceleratedWeekly then Err(UnsupportedModality)
    else if j12 == 0.0 then Err(ZeroRate)
    else
      var annuity := MonthlyAnnuity(j12, term);
      MonthlyAnnuitySign(j12, term);
      if annuity == 0.0 then Err(ZeroAnnuity)
      else Ok(Sizing(loan / annuity / 4.0, j52))
  }

  /** The balance closed form with g standing for (1 + j)^k:
      loan*g + payment*(1 - g)/j. */
  function Balance(loan: real, payment: real, j: real, g: real): real
    requires j != 0.0
  {
    loan * g + payment * (1.0 - g) / j
  }

  /** The accrued-interest closed form with g standing for (1 + j)^k:
      loan*(g - 1) + payment*(k - (g - 1)/j). */
  function InterestAccrued(loan: real, payment: real, j: real, g: real, k: real): real
    requires j != 0.0
  {
    loan * (g - 1.0) + payment * (k - (g - 1.0) / j)
  }

  /** A constructed mortgage: the four inputs, the two periodic rates, and the
      weekly payment and rate that set_up derived from them. */
  datatype Mortgage = Mortgage(
    interest: real,       // nominal annual rate, compounded semi-annually
    term: int,            // years
    loan: real,
    modality: Modality,
    j12: real,            // monthly effective rate, used for payment sizing
    j: real,              // weekly effective rate
    payment: real)        // weekly payment
  {
    /** The weekly rate is a usable divisor and growth factor. */
    predicate Valid() {
      j > -1.0 && j != 0.0
    }

    /** The weekly growth factor 1 + j. */
    function Growth(): real {
      1.0 + j
    }

    /** Outstanding balance after k payments:
        loan*(1+j)^k + payment*(1-(1+j)^k)/j. */
    function PresentValue(k: int): real
      requires Valid()
    {
      Balance(loan, payment, j, Pow(Growth(), k))
    }

    /** Closed form of the interest accrued over the first k periods:
        loan*((1+j)^k - 1) + payment*(k - ((1+j)^k - 1)/j). */
    function AccruedInterest(k: int): real
      requires Valid()
    {
      InterestAccrued(loan, payment, j, Pow(Growth(), k), k as real)
    }

    /** Closed form of the capital accrued over the first k periods. */
    function AccruedCapital(k: int): real
      requires Valid()
    {
      k as real * payment - AccruedInterest(k)
    }

    /** Interest charged in period k: the balance before it times the rate. */
    function Interest(k: int): real
      requires Valid()
    {
      PresentValue(k - 1) * j
    }

    /** Capital repaid in period k: what of the payment is not interest. */
    function Capital(k: int): real
      requires Valid()
    {
      payment - Interest(k)
    }

    /** Reference definition of the balance by the level-payment recurrence:
        the loan at period 0, then grown by the rate less one payment per period. */
    function ScheduledBalance(k: nat): real
    {
      if k == 0 then loan else ScheduledBalance(k - 1) * Growth() - payment
    }

    /** Reference definition: interest(1) + ... + interest(k). */
    function InterestPaid(k: nat): real
      requires Valid()
    {
      if k == 0 then 0.0 else InterestPaid(k - 1) + Interest(k)
    }

    /** Reference definition: capital(1) + ... + capital(k). */
    function CapitalPaid(k: nat): real
      requires Valid()
    {
      if k == 0 then 0.0 else CapitalPaid(k - 1) + Capital(k)
    }
  }

  /** Mortgage(interest, term, loan, modality): stores the inputs and the
      sizing; fails where set_up has no answer or a rate is zero. */
  function New(interest: real, term: int, loan: real, modality: Modality, j12: real, j52: real): (r: Result<Mortgage>)
    requires j12 > -1.0 && j52 > -1.0
    ensures r.Err? <==> modality != AcceleratedWeekly || j12 == 0.0 || j52 == 0.0 || term == 0
    ensures modality != AcceleratedWeekly ==> r == Err(UnsupportedModality)
    ensures r.Ok? ==> r.value.Valid()
    ensures r.Ok? ==> r.value.interest == interest && r.value.term == term && r.value.loan == loan
                      && r.value.modality == modality && r.value.j12 == j12 && r.value.j == j52
    ensures r.Ok? ==> 4.0 * r.value.payment * MonthlyAnnuity(j12, term) == loan
    ensures r.Ok? ==> r.value.PresentValue(0) == loan
  {
    match SetUp(term, loan, modality, j12, j52)
    case Err(e) => Err(e)
    case Ok(s) =>
      if s.j == 0.0 then Err(ZeroRate)
      else Ok(Mortgage(interest, term, loan, modality, j12, s.j, s.payment))
  }

  // Field identities behind the closed forms, stated over plain reals with
  // (1 + j)^k and the growth factor 1 + j as variables of their own, and with
  // each quotient by j rewritten as a product with 1/j.

  /** x / j is x times the reciprocal of j. */
  lemma DivIsMulInverse(x: real, j: real)
    requires j != 0.0
    ensures x / j == x * (1.0 / j)
  {
  }

  /** One period of the balance closed form: grow by q, deduct the payment. */
  lemma RecurrenceAlgebra(L: real, R: real, j: real, q: real, p: real, p1: real, b: real, b1: real)
    requires j != 0.0 && q == 1.0 + j && p1 == p * q
    requires b == Balance(L, R, j, p) && b1 == Balance(L, R, j, p1)
    ensures b1 == b * q - R
  {
    var v := 1.0 / j;
    assert v * j == 1.0;
    DivIsMulInverse(R * (1.0 - p * q), j);
    DivIsMulInverse(R * (1.0 - p), j);
  }

  /** One period of the balance closed form falls by (1 + j)^k times the
      excess of the payment over the interest on the loan. */
  lemma DropAlgebra(L: real, R: real, j: real, q: real, p: real, b: real, b1: real)
    requires j != 0.0 && q == 1.0 + j
    requires b == Balance(L, R, j, p) && b1 == b * q - R
    ensures b - b1 == p * (R - j * L)
  {
    var v := 1.0 / j;
    assert v * j == 1.0;
    DivIsMulInverse(R * (1.0 - p), j);
  }

  /** A product with a positive factor has the sign of the other factor. */
  lemma PositiveFactor(p: real, x: real)
    requires p > 0.0
    ensures p * x > 0.0 <==> x > 0.0
  {
    if x > 0.0 {
      assert p * x > p * 0.0;
    } else {
      assert p * x <= p * 0.0;
    }
  }

  /** One more period of the accrued-interest closed form adds the interest
      on the balance before it. */
  lemma AccruedInterestAlgebra(L: real, R: real, j: real, q: real, p: real, p1: real, k: real, k1: real, b: real)
    requires j != 0.0 && q == 1.0 + j && p1 == p * q && k1 == k - 1.0 && b == Balance(L, R, j, p)
    ensures InterestAccrued(L, R, j, p1, k) == InterestAccrued(L, R, j, p, k1) + b * j
  {
    var v := 1.0 / j;
    assert v * j == 1.0;
    DivIsMulInverse(p * q - 1.0, j);
    DivIsMulInverse(p - 1.0, j);
    DivIsMulInverse(R * (1.0 - p), j);
  }

  /** k payments less the accrued interest is the loan less the balance. */
  lemma AccruedCapitalAlgebra(L: real, R: real, j: real, p: real, k: real)
    requires j != 0.0
    ensures k * R - InterestAccrued(L, R, j, p, k) == L - Balance(L, R, j, p)
  {
    DivIsMulInverse(p - 1.0, j);
    DivIsMulInverse(R * (1.0 - p), j);
  }

  /** One more discount factor a in the annuity closed form. */
  lemma AnnuityAlgebra(a: real, a1: real, j: real, q: real, s: real)
    requires j != 0.0 && q == 1.0 + j && a1 == a * q && s == (1.0 - a1) / j
    ensures (1.0 - a) / j == s + a
  {
    var v := 1.0 / j;
    assert v * j == 1.0;
    DivIsMulInverse(1.0 - a * q, j);
    DivIsMulInverse(1.0 - a, j);
  }

  /** A loan whose annuity payment S satisfies S*(1 - d)/j == L, with d the
      reciprocal of the growth p over the term, has balance 0 at the term. */
  lemma PayOffAlgebra(L: real, S: real, j: real, p: real, d: real)
    requires j != 0.0 && p * d == 1.0 && S * ((1.0 - d) / j) == L
    ensures Balance(L, S, j, p) == 0.0
  {
    DivIsMulInverse(1.0 - d, j);
    DivIsMulInverse(S * (1.0 - p), j);
  }
}
