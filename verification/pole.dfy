/** The east component Y at and away from the geographic poles (ahrs/utils/wmm.py:824-831).
    Away from the poles Y' is the accumulated sum divided by cos(phi'). At a pole the
    division is impossible; there every P[m, n] carries a factor cos (LegendreFactorsCos),
    so Y' is the same sum over the reduced functions P[m, n] / cos, and only order 1
    survives (HigherOrdersVanishAtPole): degree n contributes (a/r)^(n+2) times its order-1
    g sin - h cos times the pole value of P[1, n] / cos. The loop as written instead
    multiplies the whole running total Bp by (sin - k[1, n]), which weights every
    earlier degree again. This module states the corrected rule, proves it agrees with the
    division everywhere off the poles, and exhibits a model on which the as-written
    accumulator differs. */
module Pole {
  import opened Matrices
  import opened Legendre
  import opened Synthesis

  /** The east terms over the reduced functions: m (g sin - h cos) P[m, n] / cos. */
  function ReducedTerm(e: Env, m: int, n: int): real {
    if Valid(e) && 0 <= m <= n <= e.N then
      m as real * Gshc(e, m, n) * ReducedP(KFactor, e.sinLat, e.cosLat, m, n)
    else 0.0
  }

  function ReducedTerms(e: Env): TermTable {
    (m, n) => ReducedTerm(e, m, n)
  }

  /** Y' as one formula for every latitude: the east sum over the reduced functions. */
  function CorrectedEast(e: Env): real {
    DegreeSum(WeightsOf(e, East), ReducedTerms(e), e.N + 1)
  }

  /** The east component of degree n at a pole: its order-1 g sin - h cos times the pole
      value of P[1, n] / cos. */
  function PoleValue(e: Env, n: int): real {
    if Valid(e) && 1 <= n <= e.N then Gshc(e, 1, n) * ReducedP(KFactor, e.sinLat, e.cosLat, 1, n) else 0.0
  }

  function PoleValues(e: Env): int -> real {
    n => PoleValue(e, n)
  }

  /** sum over degrees 1..n-1 of w(j) u(j). */
  function SeriesSum(w: Weights, u: int -> real, n: nat): real {
    if n <= 1 then 0.0 else SeriesSum(w, u, n - 1) + w(n - 1) * u(n - 1)
  }

  /** The corrected pole accumulator: sum over n of (a/r)^(n+2) times the pole term. */
  function PoleSum(e: Env): real {
    SeriesSum(WeightsOf(e, East), PoleValues(e), e.N + 1)
  }

  /** The east component as written: Bp at a pole, the sum over cos elsewhere. */
  function EastAsWritten(ySum: real, bp: real, cosLat: real): real {
    if cosLat == 0.0 then bp else ySum / cosLat
  }

  /** The corrected east component: the pole sum at a pole, the sum over cos elsewhere. */
  function EastComponent(e: Env, ySum: real): real {
    if e.cosLat == 0.0 then PoleSum(e) else ySum / e.cosLat
  }

  /** P in `e` is the table the denormalisation sweep computes. */
  predicate SweptP(e: Env) {
    Valid(e) && forall m, n :: 0 <= m <= n <= e.N ==> e.P[m][n] == LegendreP(KFactor, e.sinLat, e.cosLat, m, n)
  }

  /** Whatever the latitude, the corrected east component of the accumulated sum is the
      reduced-function sum: the division by cos off the poles and the pole sum at them are
      one continuous rule. */
  lemma EastIsReducedSum(e: Env)
    requires SweptP(e)
    ensures EastComponent(e, DegreeSum(WeightsOf(e, East), TermsOf(e, East), e.N + 1)) == CorrectedEast(e)
  {
    if e.cosLat == 0.0 {
      CorrectedAtPole(e);
    } else {
      CorrectedOffPole(e);
    }
  }

  /** Off the poles the reduced sum is the accumulated sum divided by cos. */
  lemma CorrectedOffPole(e: Env)
    requires SweptP(e) && e.cosLat != 0.0
    ensures DegreeSum(WeightsOf(e, East), TermsOf(e, East), e.N + 1) / e.cosLat == CorrectedEast(e)
  {
    EastTermsFactor(e);
    DegreeSumDivides(WeightsOf(e, East), TermsOf(e, East), ReducedTerms(e), e.cosLat, e.N + 1);
  }

  /** Every term of t is f times the term of r. */
  ghost predicate Factored(t: TermTable, r: TermTable, f: real) {
    forall i, j :: t(i, j) == f * r(i, j)
  }

  /** Dividing a weighted degree sum of terms f r by a non-zero f gives the sum of r. */
  lemma DegreeSumDivides(w: Weights, t: TermTable, r: TermTable, f: real, n: nat)
    requires f != 0.0 && Factored(t, r, f)
    ensures DegreeSum(w, t, n) / f == DegreeSum(w, r, n)
  {
    DegreeSumScales(w, t, r, f, n);
  }

  /** Every east term is cos times its reduced term. */
  lemma EastTermsFactor(e: Env)
    requires SweptP(e)
    ensures Factored(TermsOf(e, East), ReducedTerms(e), e.cosLat)
  {
    forall m, n
      ensures TermsOf(e, East)(m, n) == e.cosLat * ReducedTerms(e)(m, n)
    {
      EastTermFactorsApplied(e, m, n);
    }
  }

  /** EastTermFactors read through the term tables. */
  lemma EastTermFactorsApplied(e: Env, m: int, n: int)
    requires SweptP(e)
    ensures TermsOf(e, East)(m, n) == e.cosLat * ReducedTerms(e)(m, n)
  {
    EastTermFactors(e, m, n);
  }

  /** Each east term is cos times its reduced term. */
  lemma EastTermFactors(e: Env, m: int, n: int)
    requires SweptP(e)
    ensures Term(e, East, m, n) == e.cosLat * ReducedTerm(e, m, n)
  {
    if Valid(e) && 1 <= m <= n <= e.N {
      LegendreFactorsCos(KFactor, e.sinLat, e.cosLat, m, n);
      Regroup(m as real, Gshc(e, m, n), e.cosLat, ReducedP(KFactor, e.sinLat, e.cosLat, m, n), e.P[m][n]);
    }
  }

  /** m g (c r) = c (m g r). */
  lemma Regroup(m: real, g: real, c: real, r: real, p: real)
    requires p == c * r
    ensures m * g * p == c * (m * g * r)
  {
  }

  /** At a pole only order 1 survives in the reduced sum. */
  lemma CorrectedAtPole(e: Env)
    requires Valid(e) && e.cosLat == 0.0
    ensures CorrectedEast(e) == PoleSum(e)
  {
    var r := ReducedTerms(e);
    forall n | 1 <= n
      ensures OrderSum(r, n + 1, n) == PoleValues(e)(n)
    {
      forall i | i != 1
        ensures r(i, n) == 0.0
      {
        if i >= 2 {
          ReducedVanishesAtPole(KFactor, e.sinLat, i, n);
        }
      }
      OrderSumSingle(r, n + 1, n);
    }
    DegreeSumSingle(WeightsOf(e, East), r, PoleValues(e), e.N + 1);
  }

  /** Multiplying every term by f multiplies an order sum by f. */
  lemma {:induction false} OrderSumScales(t: TermTable, r: TermTable, f: real, m: nat, n: int)
    requires forall i :: t(i, n) == f * r(i, n)
    ensures OrderSum(t, m, n) == f * OrderSum(r, m, n)
  {
    if m > 0 {
      OrderSumScales(t, r, f, m - 1, n);
      Distribute(f, OrderSum(r, m - 1, n), r(m - 1, n));
    }
  }

  /** Multiplying every term by f multiplies a weighted degree sum by f. */
  lemma {:induction false} DegreeSumScales(w: Weights, t: TermTable, r: TermTable, f: real, n: nat)
    requires forall i, j :: t(i, j) == f * r(i, j)
    ensures DegreeSum(w, t, n) == f * DegreeSum(w, r, n)
  {
    if n > 1 {
      DegreeSumScales(w, t, r, f, n - 1);
      OrderSumScales(t, r, f, n, n - 1);
      ScaleStep(f, DegreeSum(w, r, n - 1), OrderSum(r, n, n - 1), w(n - 1), DegreeSum(w, t, n - 1), OrderSum(t, n, n - 1));
    }
  }

  /** The algebra of one step of DegreeSumScales: A + wn B = f (a + wn b). */
  lemma ScaleStep(f: real, a: real, b: real, wn: real, sa: real, sb: real)
    requires sa == f * a && sb == f * b
    ensures sa + wn * sb == f * (a + wn * b)
  {
    assert wn * (f * b) == f * (wn * b);
    Distribute(f, a, wn * b);
  }

  /** f a + f b = f (a + b). */
  lemma Distribute(f: real, a: real, b: real)
    ensures f * a + f * b == f * (a + b)
  {
  }

  /** An order sum whose only non-zero term is that of order 1. */
  lemma {:induction false} OrderSumSingle(t: TermTable, m: nat, n: int)
    requires m >= 2 && forall i :: i != 1 ==> t(i, n) == 0.0
    ensures OrderSum(t, m, n) == t(1, n)
  {
    if m > 2 {
      OrderSumSingle(t, m - 1, n);
    } else {
      assert OrderSum(t, 1, n) == t(0, n);
    }
  }

  /** A degree sum whose order sums are given by u is the series of u. */
  lemma {:induction false} DegreeSumSingle(w: Weights, t: TermTable, u: int -> real, n: nat)
    requires forall j :: 1 <= j ==> OrderSum(t, j + 1, j) == u(j)
    ensures DegreeSum(w, t, n) == SeriesSum(w, u, n)
  {
    if n > 1 {
      DegreeSumSingle(w, t, u, n - 1);
    }
  }

  /** A degree-3 model at the north pole (sin = 1, cos = 0), longitude 90 degrees, a/r = 1,
      at its epoch, whose only non-zero denormalised coefficient is g_1^1 = 1; k is the
      table the sweep leaves behind. */
  function NorthPoleExample(): (e: Env)
    ensures Valid(e)
  {
    var zeros4 := [0.0, 0.0, 0.0, 0.0];
    Env(3, [zeros4, [0.0, 1.0, 0.0, 0.0], zeros4, zeros4], [zeros4, zeros4, zeros4, zeros4], 0.0,
      [0.0, 1.0, 0.0, -1.0], [1.0, 0.0, -1.0, 0.0, 1.0],
      Zeros(5, 5), Zeros(5, 4),
      [[0.0, 0.0, 1.0 / 3.0, 4.0 / 15.0], [0.0, 1.0, 0.0, 1.0 / 5.0], [0.0, 0.0, -1.0, 0.0], [0.0, 0.0, 0.0, -1.0 / 3.0]],
      1.0, 1.0, 0.0)
  }

  /** On NorthPoleExample the loop as written leaves Bp = 4/5: the degree-1 term is
      multiplied by sin - k[1, 3] = 4/5 when degree 3 is reached. The pole sum of the
      same model is 1, the degree-1 term times P[1, 1] / cos = 1. */
  lemma PoleAccumulatorDiffers()
    ensures BpAsWritten(NorthPoleExample(), 4) == 4.0 / 5.0
    ensures PoleSum(NorthPoleExample()) == 1.0
  {
    ExampleOrderOneTerms();
    ExampleBp();
    ExamplePoleSum();
  }

  /** The order-1 g sin - h cos of the example: 1 in degree 1, 0 above. */
  lemma ExampleOrderOneTerms()
    ensures var e := NorthPoleExample(); Gshc(e, 1, 1) == 1.0 && Gshc(e, 1, 2) == 0.0 && Gshc(e, 1, 3) == 0.0
  {
  }

  lemma ExampleBp()
    requires var e := NorthPoleExample(); Gshc(e, 1, 1) == 1.0 && Gshc(e, 1, 2) == 0.0 && Gshc(e, 1, 3) == 0.0
    ensures BpAsWritten(NorthPoleExample(), 4) == 4.0 / 5.0
  {
    var e := NorthPoleExample();
    assert Pow(1.0, 3) == 1.0;
    assert BpAsWritten(e, 2) == 1.0;
    assert BpAsWritten(e, 3) == 1.0;
  }

  lemma ExamplePoleSum()
    requires var e := NorthPoleExample(); Gshc(e, 1, 1) == 1.0 && Gshc(e, 1, 2) == 0.0 && Gshc(e, 1, 3) == 0.0
    ensures PoleSum(NorthPoleExample()) == 1.0
  {
    var e := NorthPoleExample();
    assert Pow(1.0, 3) == 1.0;
    assert PoleValue(e, 1) == 1.0 && PoleValue(e, 2) == 0.0 && PoleValue(e, 3) == 0.0;
  }
}
