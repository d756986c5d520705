/** The spherical-harmonic synthesis of `magnetic_field` (ahrs/utils/wmm.py:788-831):
    the multiple-angle tables of the longitude, the secular extrapolation of the
    coefficients to the requested date, and the accumulation of the geocentric field
    components X', Y', Z' together with the pole accumulator Bp, all over the tables the
    denormalisation sweep left behind. */
module Synthesis {
  import opened Matrices
  import opened Coefficients
  import opened Denormalization

  /** sin(m lambda) from sin lambda = s1 and cos lambda = c1 by the angle-addition rule. */
  function SinMul(s1: real, c1: real, m: nat): real
    decreases m, 1
  {
    if m == 0 then 0.0 else s1 * CosMul(s1, c1, m - 1) + c1 * SinMul(s1, c1, m - 1)
  }

  /** cos(m lambda) from sin lambda = s1 and cos lambda = c1 by the angle-addition rule. */
  function CosMul(s1: real, c1: real, m: nat): real
    decreases m, 0
  {
    if m == 0 then 1.0 else c1 * CosMul(s1, c1, m - 1) - s1 * SinMul(s1, c1, m - 1)
  }

  /** The tables sp (length N+1, zeros) and cp (length N+2, ones) with sp[1], cp[1] set
      from the longitude and orders 2..N filled by angle addition. cp[N+1] is never
      written. A degree-0 model has no slot sp[1]: the source fails with an IndexError,
      which the caller reports. */
  method AngleTables(N: nat, s1: real, c1: real) returns (sp: seq<real>, cp: seq<real>)
    requires N >= 1
    ensures |sp| == N + 1 && |cp| == N + 2 && cp[N + 1] == 1.0
    ensures forall m :: 0 <= m <= N ==> sp[m] == SinMul(s1, c1, m) && cp[m] == CosMul(s1, c1, m)
  {
    sp := seq(N + 1, _ => 0.0)[1 := s1];
    cp := seq(N + 2, _ => 1.0)[1 := c1];
    var m := 2;
    while m <= N
      invariant 2 <= m <= N + 1 && |sp| == N + 1 && |cp| == N + 2 && cp[N + 1] == 1.0
      invariant TablesHold(sp, cp, s1, c1, m)
    {
      sp, cp := AngleStep(sp, cp, s1, c1, m);
      m := m + 1;
    }
  }

  /** sp and cp hold the multiple angles of orders 0..m-1. */
  predicate TablesHold(sp: seq<real>, cp: seq<real>, s1: real, c1: real, m: nat) {
    m <= |sp| && m <= |cp|
    && forall i :: 0 <= i < m ==> sp[i] == SinMul(s1, c1, i) && cp[i] == CosMul(s1, c1, i)
  }

  /** One iteration of the table loop, at order m. */
  method AngleStep(sp: seq<real>, cp: seq<real>, s1: real, c1: real, m: nat) returns (sp': seq<real>, cp': seq<real>)
    requires 2 <= m < |sp| && m < |cp| - 1 && TablesHold(sp, cp, s1, c1, m)
    ensures |sp'| == |sp| && |cp'| == |cp| && cp'[|cp| - 1] == cp[|cp| - 1]
    ensures TablesHold(sp', cp', s1, c1, m + 1)
  {
    assert sp[1] == s1 && cp[1] == c1;
    sp' := sp[m := sp[1] * cp[m - 1] + cp[1] * sp[m - 1]];
    cp' := cp[m := cp[1] * cp[m - 1] - sp[1] * sp[m - 1]];
  }

  /** The tables stay on the unit circle when the longitude's sine and cosine are on it. */
  lemma {:induction false} MultipleAnglesOnUnitCircle(s1: real, c1: real, m: nat)
    requires s1 * s1 + c1 * c1 == 1.0
    ensures SinMul(s1, c1, m) * SinMul(s1, c1, m) + CosMul(s1, c1, m) * CosMul(s1, c1, m) == 1.0
  {
    if m > 0 {
      MultipleAnglesOnUnitCircle(s1, c1, m - 1);
      RotationKeepsNorm(s1, c1, SinMul(s1, c1, m - 1), CosMul(s1, c1, m - 1));
    }
  }

  /** |(c1 c - s1 s, s1 c + c1 s)|^2 = |(c1, s1)|^2 |(c, s)|^2. */
  lemma RotationKeepsNorm(s1: real, c1: real, s: real, c: real)
    requires s1 * s1 + c1 * c1 == 1.0 && s * s + c * c == 1.0
    ensures (s1 * c + c1 * s) * (s1 * c + c1 * s) + (c1 * c - s1 * s) * (c1 * c - s1 * s) == 1.0
  {
    assert (s1 * c + c1 * s) * (s1 * c + c1 * s) + (c1 * c - s1 * s) * (c1 * c - s1 * s)
      == (s1 * s1 + c1 * c1) * (s * s + c * c);
  }

  /** The addition theorems for a lambda and b lambda. */
  predicate AdditionHolds(s1: real, c1: real, a: nat, b: nat) {
    && CosMul(s1, c1, a + b) == CosMul(s1, c1, a) * CosMul(s1, c1, b) - SinMul(s1, c1, a) * SinMul(s1, c1, b)
    && SinMul(s1, c1, a + b) == SinMul(s1, c1, a) * CosMul(s1, c1, b) + CosMul(s1, c1, a) * SinMul(s1, c1, b)
  }

  /** The tables obey the addition theorems: (a+b) lambda from a lambda and b lambda. */
  lemma {:induction false} AngleAddition(s1: real, c1: real, a: nat, b: nat)
    ensures AdditionHolds(s1, c1, a, b)
  {
    if b > 0 {
      AngleAddition(s1, c1, a, b - 1);
      AdditionNext(s1, c1, a, b);
    }
  }

  /** The inductive step of AngleAddition. */
  lemma AdditionNext(s1: real, c1: real, a: nat, b: nat)
    requires b > 0 && AdditionHolds(s1, c1, a, b - 1)
    ensures AdditionHolds(s1, c1, a, b)
  {
    var x := a + b - 1;
    var sb, cb, sB, cB := SinMul(s1, c1, b - 1), CosMul(s1, c1, b - 1), SinMul(s1, c1, b), CosMul(s1, c1, b);
    var sab, cab, sAB, cAB := SinMul(s1, c1, x), CosMul(s1, c1, x), SinMul(s1, c1, x + 1), CosMul(s1, c1, x + 1);
    assert cB == c1 * cb - s1 * sb && sB == s1 * cb + c1 * sb;
    assert cAB == c1 * cab - s1 * sab && sAB == s1 * cab + c1 * sab;
    AdditionStep(s1, c1, SinMul(s1, c1, a), CosMul(s1, c1, a), sb, cb, sab, cab, sB, cB, sAB, cAB);
  }

  /** The algebra of one step of AngleAddition: from the addition theorem for b-1 and the
      recursions of b and a+b, the addition theorem for b. */
  lemma AdditionStep(s1: real, c1: real, sa: real, ca: real, sb: real, cb: real, sab: real, cab: real,
                     sB: real, cB: real, sAB: real, cAB: real)
    requires cab == ca * cb - sa * sb && sab == sa * cb + ca * sb
    requires cB == c1 * cb - s1 * sb && sB == s1 * cb + c1 * sb
    requires cAB == c1 * cab - s1 * sab && sAB == s1 * cab + c1 * sab
    ensures cAB == ca * cB - sa * sB && sAB == sa * cB + ca * sB
  {
  }

  /** Equation 9 of the WMM report: a coefficient dt years after the model epoch. */
  function Extrapolate(g0: real, gd: real, dt: real): real {
    g0 + dt * gd
  }

  /** Extrapolation is exact at the epoch and composes over consecutive intervals. */
  lemma ExtrapolationProperties(g0: real, gd: real, t1: real, t2: real)
    ensures Extrapolate(g0, gd, 0.0) == g0
    ensures Extrapolate(Extrapolate(g0, gd, t1), gd, t2) == Extrapolate(g0, gd, t1 + t2)
  {
  }

  /** x^p for a natural exponent: `ar**(n+2)`. */
  function Pow(x: real, p: nat): real {
    if p == 0 then 1.0 else x * Pow(x, p - 1)
  }

  /** Everything the synthesis loop reads: degree, denormalised c and cd, dt, the angle
      tables, P, dP and k from the sweep, the radius ratio a/r and the sine and cosine of
      the geocentric latitude. */
  datatype Env = Env(N: nat, c: Matrix, cd: Matrix, dt: real, sp: seq<real>, cp: seq<real>,
                     P: Matrix, dP: Matrix, k: Matrix, ar: real, sinLat: real, cosLat: real)

  predicate Valid(e: Env) {
    && e.N >= 1 && IsMatrix(e.c, e.N + 1, e.N + 1) && IsMatrix(e.cd, e.N + 1, e.N + 1)
    && |e.sp| == e.N + 1 && |e.cp| == e.N + 2
    && IsMatrix(e.P, e.N + 2, e.N + 2) && IsMatrix(e.dP, e.N + 2, e.N + 1) && IsMatrix(e.k, e.N + 1, e.N + 1)
  }

  /** g_n^m(t), read from the g slot [m][n]. */
  function GAt(e: Env, m: nat, n: nat): real
    requires Valid(e) && m <= n <= e.N
  {
    Extrapolate(e.c[m][n], e.cd[m][n], e.dt)
  }

  /** h_n^m(t), read from the h slot [n][m-1]. */
  function HAt(e: Env, m: nat, n: nat): real
    requires Valid(e) && 1 <= m <= n <= e.N
  {
    Extrapolate(e.c[n][m - 1], e.cd[n][m - 1], e.dt)
  }

  /** g cos(m lambda) + h sin(m lambda), without h at m = 0. */
  function Gchs(e: Env, m: nat, n: nat): real
    requires Valid(e) && m <= n <= e.N
  {
    GAt(e, m, n) * e.cp[m] + (if m > 0 then HAt(e, m, n) * e.sp[m] else 0.0)
  }

  /** g sin(m lambda) - h cos(m lambda), without h at m = 0. */
  function Gshc(e: Env, m: nat, n: nat): real
    requires Valid(e) && m <= n <= e.N
  {
    GAt(e, m, n) * e.sp[m] - (if m > 0 then HAt(e, m, n) * e.cp[m] else 0.0)
  }

  /** The three accumulated components: X' (north), Y' before the division by the
      cosine (east), Z' (down). */
  datatype Component = North | East | Down

  /** The term of order m in degree n of each sum (equations 10 to 12), zero outside the
      triangle of the model. */
  function Term(e: Env, q: Component, m: int, n: int): real {
    if Valid(e) && 0 <= m <= n <= e.N then
      match q
      case North => Gchs(e, m, n) * e.dP[m][n]
      case East => m as real * Gshc(e, m, n) * e.P[m][n]
      case Down => Gchs(e, m, n) * e.P[m][n]
    else 0.0
  }

  /** The weight of degree n: (a/r)^(n+2), and -(n+1)(a/r)^(n+2) for Z'. */
  function Weight(e: Env, q: Component, n: int): real {
    if n < 0 then 0.0
    else match q
      case North => Pow(e.ar, n + 2)
      case East => Pow(e.ar, n + 2)
      case Down => -((n + 1) as real * Pow(e.ar, n + 2))
  }

  /** A table of terms indexed (order, degree), and one of weights indexed by degree. */
  type TermTable = (int, int) -> real
  type Weights = int -> real

  function TermsOf(e: Env, q: Component): TermTable {
    (m, n) => Term(e, q, m, n)
  }

  function WeightsOf(e: Env, q: Component): Weights {
    n => Weight(e, q, n)
  }

  /** The sum over orders 0..m-1 of degree n. */
  function OrderSum(t: TermTable, m: nat, n: int): real {
    if m == 0 then 0.0 else OrderSum(t, m - 1, n) + t(m - 1, n)
  }

  /** The weighted sum over degrees 1..n-1 of their complete order sums. */
  function DegreeSum(w: Weights, t: TermTable, n: nat): real {
    if n <= 1 then 0.0 else DegreeSum(w, t, n - 1) + w(n - 1) * OrderSum(t, n, n - 1)
  }

  /** The pole update of degree n, as the loop performs it at m = 1: add the degree's
      m = 1 term, then for n > 1 multiply the running total by sin - k[1, n]. */
  function PoleUpdate(e: Env, bp: real, n: nat): real
    requires Valid(e) && 1 <= n <= e.N
  {
    var b := bp + Pow(e.ar, n + 2) * Gshc(e, 1, n);
    if n > 1 then b * (e.sinLat - e.k[1][n]) else b
  }

  /** Bp after degrees 1..n-1 at a geographic pole, as written. */
  function BpAsWritten(e: Env, n: nat): real
    requires Valid(e) && 1 <= n <= e.N + 1
  {
    if n == 1 then 0.0 else PoleUpdate(e, BpAsWritten(e, n - 1), n - 1)
  }

  /** The factor degree i applies to the running total: sin - k[1, i], none at i = 1. */
  function PoleFactor(e: Env, i: nat): real
    requires Valid(e) && 1 <= i <= e.N
  {
    if i > 1 then e.sinLat - e.k[1][i] else 1.0
  }

  /** The product of the factors of degrees j..n (1 when j > n). */
  function PoleProduct(e: Env, j: nat, n: nat): real
    requires Valid(e) && 1 <= j && n <= e.N
  {
    if n < j then 1.0 else PoleProduct(e, j, n - 1) * PoleFactor(e, n)
  }

  /** The order-1 contribution of degree j: (a/r)^(j+2) (g sin - h cos). */
  function PoleContribution(e: Env, j: nat): real
    requires Valid(e) && 1 <= j <= e.N
  {
    Pow(e.ar, j + 2) * Gshc(e, 1, j)
  }

  /** sum over j = 1..m of the contribution of degree j times the factors of degrees j..n. */
  function WeightedPoleSum(e: Env, m: nat, n: nat): real
    requires Valid(e) && m <= n <= e.N
  {
    if m == 0 then 0.0 else WeightedPoleSum(e, m - 1, n) + PoleContribution(e, m) * PoleProduct(e, m, n)
  }

  /** Bp in closed form: after degrees 1..n, the contribution of every degree j has been
      multiplied by sin - k[1, i] for each degree i from max(j, 2) up to n, so every
      later degree weights it again. */
  lemma {:induction false} BpClosedForm(e: Env, n: nat)
    requires Valid(e) && n <= e.N
    ensures BpAsWritten(e, n + 1) == WeightedPoleSum(e, n, n)
  {
    if n > 0 {
      BpClosedForm(e, n - 1);
      PoleSumScales(e, n - 1, n);
      var f := PoleFactor(e, n);
      assert PoleProduct(e, n, n) == f by {
        assert PoleProduct(e, n, n - 1) == 1.0;
      }
      assert BpAsWritten(e, n + 1) == (BpAsWritten(e, n) + PoleContribution(e, n)) * f;
      DistributeRight(BpAsWritten(e, n), PoleContribution(e, n), f);
    }
  }

  /** Adding degree n multiplies every earlier term by the factor of degree n. */
  lemma {:induction false} PoleSumScales(e: Env, m: nat, n: nat)
    requires Valid(e) && 1 <= n <= e.N && m < n
    ensures WeightedPoleSum(e, m, n - 1) * PoleFactor(e, n) == WeightedPoleSum(e, m, n)
  {
    if m > 0 {
      PoleSumScales(e, m - 1, n);
      var c := PoleContribution(e, m);
      var p := PoleProduct(e, m, n - 1);
      var f := PoleFactor(e, n);
      var a := WeightedPoleSum(e, m - 1, n - 1);
      assert WeightedPoleSum(e, m, n - 1) == a + c * p;
      assert PoleProduct(e, m, n) == p * f;
      assert WeightedPoleSum(e, m, n) == a * f + c * (p * f);
      DistributeRight(a, c * p, f);
      assert c * p * f == c * (p * f);
    }
  }

  /** (a + b) f = a f + b f. */
  lemma DistributeRight(a: real, b: real, f: real)
    ensures (a + b) * f == a * f + b * f
  {
  }

  /** Cell [i][j] of gh has been written once the loop has reached order m of degree n:
      the owner of the cell has degree >= 1 and was visited before (m, n). Row N+1 never is. */
  predicate Written(e: Env, i: nat, j: nat, m: int, n: int) {
    i <= e.N && j <= e.N && var o := OwnerOf(i, j); o.n >= 1 && Before(o.m, o.n, m, n)
  }

  /** Cell [i][j] of gh holds its extrapolated coefficient if written, zero if not. */
  predicate GhCell(e: Env, gh: Matrix, i: nat, j: nat, m: int, n: int) {
    Valid(e) && IsMatrix(gh, e.N + 2, e.N + 1) && i <= e.N + 1 && j <= e.N
    && gh[i][j] == if Written(e, i, j, m, n) then Extrapolate(e.c[i][j], e.cd[i][j], e.dt) else 0.0
  }

  /** The whole gh table is as it should be before step (m, n). */
  predicate GhUpTo(e: Env, gh: Matrix, m: int, n: int) {
    Valid(e) && IsMatrix(gh, e.N + 2, e.N + 1)
    && forall i: nat, j: nat :: i <= e.N + 1 && j <= e.N ==> GhCell(e, gh, i, j, m, n)
  }

  /** Writing g_n^m(t) and, for m > 0, h_n^m(t) into gh. */
  function WriteSlots(e: Env, gh: Matrix, m: nat, n: nat): (u: Matrix)
    requires Valid(e) && IsMatrix(gh, e.N + 2, e.N + 1) && m <= n <= e.N
    ensures IsMatrix(u, e.N + 2, e.N + 1)
  {
    var g := Set(gh, m, n, GAt(e, m, n));
    if m > 0 then Set(g, n, m - 1, HAt(e, m, n)) else g
  }

  /** Step (m, n) writes exactly the two slots of its owners. */
  lemma GhExtends(e: Env, gh: Matrix, m: nat, n: nat)
    requires 1 <= n <= e.N && m <= n && GhUpTo(e, gh, m, n)
    ensures GhUpTo(e, WriteSlots(e, gh, m, n), m + 1, n)
  {
    var u, next := WriteSlots(e, gh, m, n), m + 1;
    forall i: nat, j: nat | i <= e.N + 1 && j <= e.N
      ensures GhCell(e, u, i, j, next, n)
    {
      GhExtendsCell(e, gh, m, n, i, j);
    }
  }

  /** GhExtends for one cell [i][j]. */
  lemma GhExtendsCell(e: Env, gh: Matrix, m: nat, n: nat, i: nat, j: nat)
    requires 1 <= n <= e.N && m <= n && i <= e.N + 1 && j <= e.N && GhUpTo(e, gh, m, n)
    ensures GhCell(e, WriteSlots(e, gh, m, n), i, j, m + 1, n)
  {
    assert GhCell(e, gh, i, j, m, n);
    if i <= e.N {
      var o := OwnerOf(i, j);
      if o == G(n, m) {
        assert (i, j) == (m, n);
      } else if m > 0 && o == H(n, m) {
        assert (i, j) == (n, m - 1);
      } else {
        assert (i, j) != (m, n) && (m == 0 || (i, j) != (n, m - 1));
      }
    }
  }

  /** The body of the order loop up to the sums: write gh, then form gchs and gshc. */
  method OrderTerms(e: Env, gh: Matrix, m: nat, n: nat) returns (gchs: real, gshc: real, gh': Matrix)
    requires 1 <= n <= e.N && m <= n && GhUpTo(e, gh, m, n)
    ensures gchs == Gchs(e, m, n) && gshc == Gshc(e, m, n)
    ensures gh' == WriteSlots(e, gh, m, n) && GhUpTo(e, gh', m + 1, n)
  {
    GhExtends(e, gh, m, n);
    gh' := Set(gh, m, n, GAt(e, m, n));
    gchs := gh'[m][n] * e.cp[m];
    gshc := gh'[m][n] * e.sp[m];
    if m > 0 {
      gh' := Set(gh', n, m - 1, HAt(e, m, n));
      gchs := gchs + gh'[n][m - 1] * e.sp[m];
      gshc := gshc - gh'[n][m - 1] * e.cp[m];
    }
  }

  /** The order loop of degree n: the three order sums, the pole update at m = 1 when
      cos = 0, and gh filled through degree n. */
  method DegreeTerms(e: Env, gh: Matrix, bp: real, n: nat)
    returns (x: real, y: real, z: real, bp': real, gh': Matrix)
    requires 1 <= n <= e.N && GhUpTo(e, gh, 0, n)
    ensures OrderSums(TermsOf(e, North), TermsOf(e, East), TermsOf(e, Down), x, y, z, n + 1, n)
    ensures bp' == if e.cosLat == 0.0 then PoleUpdate(e, bp, n) else bp
    ensures GhUpTo(e, gh', n + 1, n)
  {
    x, y, z, bp', gh' := 0.0, 0.0, 0.0, bp, gh;
    var m := 0;
    while m <= n
      invariant 0 <= m <= n + 1 && GhUpTo(e, gh', m, n)
      invariant OrderSums(TermsOf(e, North), TermsOf(e, East), TermsOf(e, Down), x, y, z, m, n)
      invariant bp' == if e.cosLat == 0.0 && m > 1 then PoleUpdate(e, bp, n) else bp
    {
      var gchs, gshc;
      gchs, gshc, gh' := OrderTerms(e, gh', m, n);
      TermValues(e, gchs, gshc, m, n);
      OrderSumsStep(TermsOf(e, North), TermsOf(e, East), TermsOf(e, Down), x, y, z,
        gchs * e.dP[m][n], m as real * gshc * e.P[m][n], gchs * e.P[m][n], m, n);
      x := x + gchs * e.dP[m][n];
      y := y + m as real * gshc * e.P[m][n];
      z := z + gchs * e.P[m][n];
      bp' := PoleBranch(e, bp', gshc, m, n);
      m := m + 1;
    }
  }

  /** x, y and z are the three order sums of degree n over orders 0..m-1 of the tables
      tx, ty and tz. */
  predicate OrderSums(tx: TermTable, ty: TermTable, tz: TermTable, x: real, y: real, z: real, m: nat, n: nat) {
    x == OrderSum(tx, m, n) && y == OrderSum(ty, m, n) && z == OrderSum(tz, m, n)
  }

  /** The terms of order m in degree n, from gchs and gshc. */
  lemma TermValues(e: Env, gchs: real, gshc: real, m: nat, n: nat)
    requires Valid(e) && m <= n <= e.N && gchs == Gchs(e, m, n) && gshc == Gshc(e, m, n)
    ensures TermsOf(e, North)(m, n) == gchs * e.dP[m][n]
    ensures TermsOf(e, East)(m, n) == m as real * gshc * e.P[m][n]
    ensures TermsOf(e, Down)(m, n) == gchs * e.P[m][n]
  {
  }

  /** Adding the terms of order m extends the three order sums. */
  lemma OrderSumsStep(tx: TermTable, ty: TermTable, tz: TermTable, x: real, y: real, z: real,
                      vx: real, vy: real, vz: real, m: nat, n: nat)
    requires OrderSums(tx, ty, tz, x, y, z, m, n)
    requires vx == tx(m, n) && vy == ty(m, n) && vz == tz(m, n)
    ensures OrderSums(tx, ty, tz, x + vx, y + vy, z + vz, m + 1, n)
  {
  }

  /** The geographic-pole branch of the order loop. */
  method PoleBranch(e: Env, bp: real, gshc: real, m: nat, n: nat) returns (bp': real)
    requires Valid(e) && 1 <= n <= e.N && m <= n && (m == 1 ==> gshc == Gshc(e, 1, n))
    ensures bp' == if e.cosLat == 0.0 && m == 1 then PoleUpdate(e, bp, n) else bp
  {
    bp' := bp;
    if e.cosLat == 0.0 && m == 1 {
      bp' := bp' + Pow(e.ar, n + 2) * gshc;
      if n > 1 {
        bp' := bp' * (e.sinLat - e.k[m][n]);
      }
    }
  }

  /** The degree loop of magnetic_field over a fresh (N+2)x(N+1) gh: X', the undivided
      Y' sum and Z' are the weighted double sums of equations 10 to 12, Bp is the pole
      accumulator (untouched away from the poles), and gh holds the extrapolated value
      of every coefficient cell except g_0^0, which the loop never visits. */
  method Accumulate(e: Env) returns (xp: real, yp: real, zp: real, bp: real, gh: Matrix)
    requires Valid(e)
    ensures DegreeSums(e, xp, yp, zp, e.N + 1)
    ensures bp == if e.cosLat == 0.0 then BpAsWritten(e, e.N + 1) else 0.0
    ensures Extrapolated(e, gh)
  {
    gh := Zeros(e.N + 2, e.N + 1);
    xp, yp, zp, bp := 0.0, 0.0, 0.0, 0.0;
    InitialGh(e, gh);
    var n := 1;
    while n <= e.N
      invariant 1 <= n <= e.N + 1 && GhUpTo(e, gh, 0, n) && DegreeSums(e, xp, yp, zp, n)
      invariant bp == if e.cosLat == 0.0 then BpAsWritten(e, n) else 0.0
    {
      var x, y, z;
      x, y, z, bp, gh := DegreeTerms(e, gh, bp, n);
      xp, yp, zp := AddDegree(e, xp, yp, zp, x, y, z, n);
      NextDegreeGh(e, gh, n);
      n := n + 1;
    }
    FinalGh(e, gh);
  }

  /** gh as the loop leaves it: every slot of degrees 1..N holds its coefficient at t, and
      the slot [0][0] and the extra row N+1 stay zero. */
  predicate Extrapolated(e: Env, gh: Matrix) {
    && Valid(e) && IsMatrix(gh, e.N + 2, e.N + 1)
    && forall i, j :: 0 <= i <= e.N + 1 && 0 <= j <= e.N ==>
      gh[i][j] == if i <= e.N && (i, j) != (0, 0) then Extrapolate(e.c[i][j], e.cd[i][j], e.dt) else 0.0
  }

  /** xp, yp and zp are the three weighted sums over degrees 1..n-1. */
  predicate DegreeSums(e: Env, xp: real, yp: real, zp: real, n: nat) {
    && xp == DegreeSum(WeightsOf(e, North), TermsOf(e, North), n)
    && yp == DegreeSum(WeightsOf(e, East), TermsOf(e, East), n)
    && zp == DegreeSum(WeightsOf(e, Down), TermsOf(e, Down), n)
  }

  /** The updates of X', Y' and Z' after the order loop of degree n (equations 10 to 12). */
  method AddDegree(e: Env, xp: real, yp: real, zp: real, x: real, y: real, z: real, n: nat)
    returns (xp': real, yp': real, zp': real)
    requires 1 <= n && DegreeSums(e, xp, yp, zp, n)
    requires OrderSums(TermsOf(e, North), TermsOf(e, East), TermsOf(e, Down), x, y, z, n + 1, n)
    ensures DegreeSums(e, xp', yp', zp', n + 1)
  {
    var arn2 := Pow(e.ar, n + 2);
    xp' := xp + arn2 * x;
    yp' := yp + arn2 * y;
    zp' := zp - (n + 1) as real * arn2 * z;
    ghost var down := -((n + 1) as real * arn2);
    WeightValues(e, arn2, n);
    DownStep(zp, z, arn2, (n + 1) as real, down);
    assert zp' == zp + down * z;
    SumsAdvance(WeightsOf(e, North), TermsOf(e, North), WeightsOf(e, East), TermsOf(e, East),
      WeightsOf(e, Down), TermsOf(e, Down), xp, yp, zp, x, y, z, arn2, down, n);
  }

  /** Adding degree n to all three weighted sums at once. */
  lemma SumsAdvance(wx: Weights, tx: TermTable, wy: Weights, ty: TermTable, wz: Weights, tz: TermTable,
                    xp: real, yp: real, zp: real, x: real, y: real, z: real, a: real, d: real, n: nat)
    requires n >= 1 && wx(n) == a && wy(n) == a && wz(n) == d
    requires xp == DegreeSum(wx, tx, n) && yp == DegreeSum(wy, ty, n) && zp == DegreeSum(wz, tz, n)
    requires OrderSums(tx, ty, tz, x, y, z, n + 1, n)
    ensures xp + a * x == DegreeSum(wx, tx, n + 1)
    ensures yp + a * y == DegreeSum(wy, ty, n + 1)
    ensures zp + d * z == DegreeSum(wz, tz, n + 1)
  {
    DegreeSumStep(wx, tx, xp, x, a, n);
    DegreeSumStep(wy, ty, yp, y, a, n);
    DegreeSumStep(wz, tz, zp, z, d, n);
  }

  /** The weights of degree n. */
  lemma WeightValues(e: Env, arn2: real, n: nat)
    requires arn2 == Pow(e.ar, n + 2)
    ensures WeightsOf(e, North)(n) == arn2 && WeightsOf(e, East)(n) == arn2
    ensures WeightsOf(e, Down)(n) == -((n + 1) as real * arn2)
  {
  }

  /** Z' -= (n+1) arn2 z adds the weight -(n+1) arn2 times z. */
  lemma DownStep(zp: real, z: real, arn2: real, f: real, down: real)
    requires down == -(f * arn2)
    ensures zp - f * arn2 * z == zp + down * z
  {
  }

  /** One more degree in a weighted sum. */
  lemma DegreeSumStep(w: Weights, t: TermTable, acc: real, v: real, wn: real, n: nat)
    requires n >= 1 && acc == DegreeSum(w, t, n) && v == OrderSum(t, n + 1, n) && wn == w(n)
    ensures acc + wn * v == DegreeSum(w, t, n + 1)
  {
  }

  /** A zero table has nothing written. */
  lemma InitialGh(e: Env, gh: Matrix)
    requires Valid(e) && gh == Zeros(e.N + 2, e.N + 1)
    ensures GhUpTo(e, gh, 0, 1)
  {
    forall i: nat, j: nat | i <= e.N + 1 && j <= e.N
      ensures GhCell(e, gh, i, j, 0, 1)
    {
      assert !Written(e, i, j, 0, 1);
    }
  }

  /** Finishing degree n is starting degree n+1. */
  lemma NextDegreeGh(e: Env, gh: Matrix, n: nat)
    requires 1 <= n <= e.N && GhUpTo(e, gh, n + 1, n)
    ensures GhUpTo(e, gh, 0, n + 1)
  {
    var next := n + 1;
    forall i: nat, j: nat | i <= e.N + 1 && j <= e.N
      ensures GhCell(e, gh, i, j, 0, next)
    {
      assert GhCell(e, gh, i, j, next, n);
    }
  }

  /** After degree N every cell but [0][0] and row N+1 is written. */
  lemma FinalGh(e: Env, gh: Matrix)
    requires GhUpTo(e, gh, 0, e.N + 1)
    ensures forall i, j :: 0 <= i <= e.N + 1 && 0 <= j <= e.N ==>
      gh[i][j] == if i <= e.N && (i, j) != (0, 0) then Extrapolate(e.c[i][j], e.cd[i][j], e.dt) else 0.0
  {
    forall i, j | 0 <= i <= e.N + 1 && 0 <= j <= e.N
      ensures gh[i][j] == if i <= e.N && (i, j) != (0, 0) then Extrapolate(e.c[i][j], e.cd[i][j], e.dt) else 0.0
    {
      assert GhCell(e, gh, i, j, 0, e.N + 1);
    }
  }
}
