/** Reference definitions for the recursions of `denormalize_coefficients`
    (ahrs/utils/wmm.py:676-699): the Schmidt factors S, the k table, and the
    Gauss-normalised associated Legendre functions P and their derivatives dP, after
    Plett in Wertz, "Spacecraft Attitude Determination and Control". Indices follow the
    arrays: order m first, degree n second. `s` and `c` are sin and cos of the
    geocentric latitude. */
module Legendre {

  /** `root` behaves as the square root on the non-negative reals. */
  ghost predicate IsSqrt(root: real -> real) {
    forall x: real :: 0.0 <= x ==> 0.0 <= root(x) && root(x) * root(x) == x
  }

  /** The Kronecker delta of order m and 1: the Python `delta`, 1 only at m = 1. */
  function KroneckerOne(m: int): int {
    if m == 1 then 1 else 0
  }

  /** (n-m+1)(delta+1)/(n+m), the radicand of one step along the order. */
  function SchmidtRatio(m: nat, n: nat): (q: real)
    requires 1 <= m <= n
    ensures q > 0.0
  {
    (n - m + 1) as real * (KroneckerOne(m) + 1) as real / (n + m) as real
  }

  /** S[m, n]: S[0, 0] = 1, S[0, n] = S[0, n-1] (2n-1)/n, and along the order
      S[m, n] = S[m-1, n] sqrt((n-m+1)(delta+1)/(n+m)). */
  function Schmidt(root: real -> real, m: nat, n: nat): real
    requires m <= n
    decreases n, m
  {
    if m == 0 then
      if n == 0 then 1.0 else Schmidt(root, 0, n - 1) * (2 * n - 1) as real / n as real
    else
      Schmidt(root, m - 1, n) * root(SchmidtRatio(m, n))
  }

  /** Every Schmidt factor is strictly positive, so scaling never zeroes a coefficient. */
  lemma {:induction false} SchmidtPositive(root: real -> real, m: nat, n: nat)
    requires IsSqrt(root) && m <= n
    ensures Schmidt(root, m, n) > 0.0
    decreases n, m
  {
    if m == 0 {
      if n > 0 {
        SchmidtPositive(root, 0, n - 1);
      }
    } else {
      SchmidtPositive(root, m - 1, n);
      var q := SchmidtRatio(m, n);
      assert q > 0.0;
      assert root(q) * root(q) == q;
      assert root(q) > 0.0;
    }
  }

  /** k! */
  function Fact(k: nat): real {
    if k == 0 then 1.0 else k as real * Fact(k - 1)
  }

  /** (2n-1)!! = 1 * 3 * ... * (2n-1) */
  function OddFact(n: nat): real {
    if n == 0 then 1.0 else (2 * n - 1) as real * OddFact(n - 1)
  }

  /** Along order 0 the factors have the closed form S[0, n] = (2n-1)!! / n!. */
  lemma {:induction false} SchmidtZonal(root: real -> real, n: nat)
    ensures Schmidt(root, 0, n) * Fact(n) == OddFact(n)
  {
    if n > 0 {
      SchmidtZonal(root, n - 1);
      ZonalStep(Schmidt(root, 0, n - 1), Fact(n - 1), OddFact(n - 1), Schmidt(root, 0, n),
        Fact(n), OddFact(n), (2 * n - 1) as real, n as real);
    }
  }

  /** The algebra of one step of SchmidtZonal: from a f = o, x = a t / u, fx = u f and
      ox = t o conclude x fx = ox. */
  lemma ZonalStep(a: real, f: real, o: real, x: real, fx: real, ox: real, t: real, u: real)
    requires u != 0.0 && a * f == o
    requires x == a * t / u && fx == u * f && ox == t * o
    ensures x * fx == ox
  {
    assert x * fx == a * t * f;
  }

  /** A table of the recursion coefficients k[m, n]. */
  type KTable = (int, int) -> real

  /** k[m, n] = ((n-1)^2 - m^2) / ((2n-1)(2n-3)). The denominator is a product of two odd
      numbers and never zero, for every integer n. */
  function KFactor(m: int, n: int): (k: real)
    ensures k * ((2 * n - 1) * (2 * n - 3)) as real == ((n - 1) * (n - 1) - m * m) as real
  {
    var a, b := (2 * n - 1) as real, (2 * n - 3) as real;
    assert a != 0.0 && b != 0.0;
    ((n - 1) as real * (n - 1) as real - m as real * m as real) / (a * b)
  }

  /** On the first sub-diagonal m = n-1 the factor vanishes. */
  lemma KVanishesOnSubDiagonal(n: int)
    ensures KFactor(n - 1, n) == 0.0
  {
  }

  /** P[m, n], zero outside the triangle 0 <= m <= n, for a table k of recursion
      coefficients; the model uses k = KFactor. */
  function LegendreP(k: KTable, s: real, c: real, m: int, n: int): real
    decreases n
  {
    if n < 0 || m < 0 || m > n then 0.0
    else if n == 0 then 1.0
    else if m == n then c * LegendreP(k, s, c, m - 1, n - 1)
    else s * LegendreP(k, s, c, m, n - 1) - k(m, n) * LegendreP(k, s, c, m, n - 2)
  }

  /** dP[m, n], the derivative of P[m, n] with respect to colatitude, zero outside the
      triangle; dP[0, 0] is 0. */
  function LegendreDP(k: KTable, s: real, c: real, m: int, n: int): real
    decreases n
  {
    if n < 0 || m < 0 || m > n then 0.0
    else if n == 0 then 0.0
    else if m == n then c * LegendreDP(k, s, c, m - 1, n - 1) + s * LegendreP(k, s, c, m - 1, n - 1)
    else s * LegendreDP(k, s, c, m, n - 1) - c * LegendreP(k, s, c, m, n - 1) - k(m, n) * LegendreDP(k, s, c, m, n - 2)
  }

  /** The off-diagonal recursions, for any table k. */
  lemma OffDiagonalRecursion(k: KTable, s: real, c: real, m: int, n: int)
    requires 0 <= m < n
    ensures LegendreP(k, s, c, m, n) == s * LegendreP(k, s, c, m, n - 1) - k(m, n) * LegendreP(k, s, c, m, n - 2)
    ensures LegendreDP(k, s, c, m, n)
      == s * LegendreDP(k, s, c, m, n - 1) - c * LegendreP(k, s, c, m, n - 1) - k(m, n) * LegendreDP(k, s, c, m, n - 2)
  {
  }

  /** On the first sub-diagonal the second-previous term drops out whatever it holds: with
      the model's k table the recursions read only cells inside the triangle. */
  lemma SubDiagonalIgnoresOutsideCell(s: real, c: real, n: int, p: real, dp: real)
    requires n >= 1
    ensures s * LegendreP(KFactor, s, c, n - 1, n - 1) - KFactor(n - 1, n) * p
      == LegendreP(KFactor, s, c, n - 1, n)
    ensures s * LegendreDP(KFactor, s, c, n - 1, n - 1) - c * LegendreP(KFactor, s, c, n - 1, n - 1)
      - KFactor(n - 1, n) * dp == LegendreDP(KFactor, s, c, n - 1, n)
  {
    KVanishesOnSubDiagonal(n);
  }

  /** The first few functions in closed form (with s^2 + c^2 = 1 not even needed). */
  lemma LowDegrees(s: real, c: real)
    ensures LegendreP(KFactor, s, c, 0, 1) == s && LegendreP(KFactor, s, c, 1, 1) == c
    ensures LegendreP(KFactor, s, c, 0, 2) == s * s - 1.0 / 3.0
    ensures LegendreP(KFactor, s, c, 1, 2) == s * c && LegendreP(KFactor, s, c, 2, 2) == c * c
    ensures LegendreDP(KFactor, s, c, 0, 1) == -c && LegendreDP(KFactor, s, c, 1, 1) == s
  {
    assert KFactor(0, 2) == 1.0 / 3.0;
    assert KFactor(1, 2) == 0.0;
  }

  /** P[m, n] / cos for m >= 1: the same recursion started from 1 on the (1, 1) cell. */
  function ReducedP(k: KTable, s: real, c: real, m: int, n: int): real
    decreases n
  {
    if n < 1 || m < 1 || m > n then 0.0
    else if m == n then (if m == 1 then 1.0 else c * ReducedP(k, s, c, m - 1, n - 1))
    else s * ReducedP(k, s, c, m, n - 1) - k(m, n) * ReducedP(k, s, c, m, n - 2)
  }

  /** P[m, n] = cos * ReducedP[m, n]. */
  predicate FactorsCos(k: KTable, s: real, c: real, m: int, n: int) {
    LegendreP(k, s, c, m, n) == c * ReducedP(k, s, c, m, n)
  }

  /** Every non-zonal function carries a factor cos. */
  lemma {:induction false} LegendreFactorsCos(k: KTable, s: real, c: real, m: int, n: int)
    requires m >= 1
    ensures FactorsCos(k, s, c, m, n)
    decreases n
  {
    if n < 1 || m > n {
    } else if m == n {
      if m > 1 {
        LegendreFactorsCos(k, s, c, m - 1, n - 1);
      }
    } else {
      LegendreFactorsCos(k, s, c, m, n - 1);
      LegendreFactorsCos(k, s, c, m, n - 2);
      FactorsCosStep(k, s, c, m, n);
    }
  }

  /** One off-diagonal step of LegendreFactorsCos. */
  lemma FactorsCosStep(k: KTable, s: real, c: real, m: int, n: int)
    requires 1 <= m < n
    requires FactorsCos(k, s, c, m, n - 1) && FactorsCos(k, s, c, m, n - 2)
    ensures FactorsCos(k, s, c, m, n)
  {
    var p1, p2 := LegendreP(k, s, c, m, n - 1), LegendreP(k, s, c, m, n - 2);
    var r1, r2 := ReducedP(k, s, c, m, n - 1), ReducedP(k, s, c, m, n - 2);
    FactorOut(s, c, k(m, n), p1, p2, r1, r2);
  }

  /** The algebra of FactorsCosStep. */
  lemma FactorOut(s: real, c: real, k: real, p1: real, p2: real, r1: real, r2: real)
    requires p1 == c * r1 && p2 == c * r2
    ensures s * p1 - k * p2 == c * (s * r1 - k * r2)
  {
  }

  /** At a geographic pole (cos = 0) only order 1 survives in the reduced functions. */
  lemma {:induction false} ReducedVanishesAtPole(k: KTable, s: real, m: int, n: int)
    requires m >= 2
    ensures ReducedP(k, s, 0.0, m, n) == 0.0
    decreases n
  {
    if n >= 1 && m < n {
      ReducedVanishesAtPole(k, s, m, n - 1);
      ReducedVanishesAtPole(k, s, m, n - 2);
    }
  }

  /** At a geographic pole every P[m, n] with m >= 1 is zero. */
  lemma HigherOrdersVanishAtPole(k: KTable, s: real, m: int, n: int)
    requires m >= 1
    ensures LegendreP(k, s, 0.0, m, n) == 0.0
  {
    LegendreFactorsCos(k, s, 0.0, m, n);
  }
}
