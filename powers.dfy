/** Integer powers of a real base. Integer powers of the growth factor 1 + j
    are the only operation beyond the field operations that the closed forms
    use: the period index and the term enter them only as (possibly negative)
    integer exponents. */
module Powers {

  /** x^n for a natural exponent. */
  function PowNat(x: real, n: nat): (r: real)
    ensures x > 0.0 ==> r > 0.0
    ensures x != 0.0 ==> r != 0.0
  {
    if n == 0 then 1.0 else x * PowNat(x, n - 1)
  }

  /** x^n for an integer exponent; a negative exponent is the reciprocal. */
  function Pow(x: real, n: int): (r: real)
    requires x != 0.0
    ensures r != 0.0
    ensures x > 0.0 ==> r > 0.0
  {
    if n >= 0 then PowNat(x, n) else 1.0 / PowNat(x, -n)
  }

  /** x^n and x^-n are reciprocals, for every integer n. */
  lemma PowNegate(x: real, n: int)
    requires x != 0.0
    ensures Pow(x, n) * Pow(x, -n) == 1.0
  {
  }

  /** One more factor: x^(n+1) == x^n * x, for every integer n. */
  lemma PowSucc(x: real, n: int)
    requires x != 0.0
    ensures Pow(x, n + 1) == Pow(x, n) * x
  {
  }

  /** A base above one raised to a positive power stays above one. */
  lemma {:induction false} PowNatAboveOne(x: real, n: nat)
    requires x > 1.0 && n >= 1
    ensures PowNat(x, n) > 1.0
  {
    if n > 1 {
      PowNatAboveOne(x, n - 1);
      assert x * PowNat(x, n - 1) > 1.0 * PowNat(x, n - 1);
    }
  }

  /** A base strictly between zero and one raised to a positive power stays below one. */
  lemma {:induction false} PowNatBelowOne(x: real, n: nat)
    requires 0.0 < x < 1.0 && n >= 1
    ensures PowNat(x, n) < 1.0
  {
    if n > 1 {
      PowNatBelowOne(x, n - 1);
      assert x * PowNat(x, n - 1) < 1.0 * PowNat(x, n - 1);
    }
  }

  /** For a positive base other than one, x^n == 1 exactly when n == 0, and
      x^n lies on the same side of one as x when n > 0. */
  lemma PowIsOneIff(x: real, n: int)
    requires x > 0.0 && x != 1.0
    ensures Pow(x, n) == 1.0 <==> n == 0
    ensures n > 0 ==> (Pow(x, n) > 1.0 <==> x > 1.0)
  {
    if n > 0 {
      if x > 1.0 { PowNatAboveOne(x, n); } else { PowNatBelowOne(x, n); }
    } else if n < 0 {
      if x > 1.0 { PowNatAboveOne(x, -n); } else { PowNatBelowOne(x, -n); }
      assert Pow(x, n) * PowNat(x, -n) == 1.0;
    }
  }
}
