/** `denormalize_coefficients` (ahrs/utils/wmm.py:676-699): one sweep over the degrees n
    and orders m that fills the Schmidt factors S, the recursion table k, the Legendre
    functions P and their derivatives dP, and scales every Gauss coefficient of `c` and
    `cd` in place by its Schmidt factor. Tables are indexed [m][n], order first. */
module Denormalization {
  import opened Matrices
  import opened Coefficients
  import opened Legendre

  /** The arrays the sweep reads and writes: the local S, the instance's k, P and dP, and
      the coefficient tables c and cd. */
  datatype Work = Work(S: Matrix, k: Matrix, P: Matrix, dP: Matrix, c: Matrix, cd: Matrix)

  /** S, k, c, cd are (N+1)x(N+1), P is (N+2)x(N+2) and dP is (N+2)x(N+1). */
  predicate Shaped(w: Work, N: nat) {
    && IsMatrix(w.S, N + 1, N + 1) && IsMatrix(w.k, N + 1, N + 1)
    && IsMatrix(w.P, N + 2, N + 2) && IsMatrix(w.dP, N + 2, N + 1)
    && IsMatrix(w.c, N + 1, N + 1) && IsMatrix(w.cd, N + 1, N + 1)
  }

  /** The sweep visits (order i, degree j) before (m, n): degrees ascending, and orders
      ascending within a degree. */
  predicate Before(i: int, j: int, m: int, n: int) {
    j < n || (j == n && i < m)
  }

  /** k[m, n] as the table holds it: the cells of degree 0 are never written. */
  function KCell(m: int, n: int): real {
    if n == 0 then 0.0 else KFactor(m, n)
  }

  /** The four tables the sweep computes. */
  datatype Quantity = SchmidtTable | KTableCells | PTable | DPTable

  /** The value the sweep is meant to leave in cell [i][j] of each table. */
  function Reference(q: Quantity, root: real -> real, sinLat: real, cosLat: real, i: int, j: int): real {
    match q
    case SchmidtTable => if 0 <= i <= j then Schmidt(root, i, j) else 0.0
    case KTableCells => KCell(i, j)
    case PTable => LegendreP(KFactor, sinLat, cosLat, i, j)
    case DPTable => LegendreDP(KFactor, sinLat, cosLat, i, j)
  }

  /** `t` has at least the cells [0..N][0..N]. */
  predicate Covers(t: Matrix, N: nat) {
    N < |t| && forall i :: 0 <= i <= N ==> N < |t[i]|
  }

  /** Every triangle cell visited before (m, n) holds its reference value. */
  predicate Done(t: Matrix, q: Quantity, root: real -> real, sinLat: real, cosLat: real, N: nat, m: int, n: int)
    requires Covers(t, N)
  {
    forall i, j :: 0 <= i <= j <= N && Before(i, j, m, n) ==> t[i][j] == Reference(q, root, sinLat, cosLat, i, j)
  }

  /** All four tables are done up to (m, n). */
  predicate AllDone(w: Work, root: real -> real, sinLat: real, cosLat: real, N: nat, m: int, n: int)
    requires Shaped(w, N)
  {
    && Done(w.S, SchmidtTable, root, sinLat, cosLat, N, m, n)
    && Done(w.k, KTableCells, root, sinLat, cosLat, N, m, n)
    && Done(w.P, PTable, root, sinLat, cosLat, N, m, n)
    && Done(w.dP, DPTable, root, sinLat, cosLat, N, m, n)
  }

  /** Writing the reference value into cell (m, n) extends a table by one cell. */
  lemma DoneExtends(t: Matrix, q: Quantity, root: real -> real, sinLat: real, cosLat: real, N: nat,
                    m: nat, n: nat, v: real)
    requires Covers(t, N) && m <= n <= N
    requires Done(t, q, root, sinLat, cosLat, N, m, n)
    requires v == Reference(q, root, sinLat, cosLat, m, n)
    ensures Covers(Set(t, m, n, v), N)
    ensures Done(Set(t, m, n, v), q, root, sinLat, cosLat, N, m + 1, n)
  {
  }

  /** The factor by which coefficient cell [i][j] has been scaled once the sweep has
      reached (m, n): the S cell of its owner when that owner has degree >= 1 and was
      visited before (m, n), and 1 (untouched) otherwise. */
  function ScaleOf(S: Matrix, N: nat, i: nat, j: nat, m: int, n: int): real
    requires Covers(S, N) && i <= N && j <= N
  {
    var o := OwnerOf(i, j);
    if o.n >= 1 && Before(o.m, o.n, m, n) then S[o.m][o.n] else 1.0
  }

  /** Cell [i][j] of `t` is the cell of `t0` times its scale factor so far. */
  predicate CellScaled(t: Matrix, t0: Matrix, S: Matrix, N: nat, i: nat, j: nat, m: int, n: int) {
    IsMatrix(t, N + 1, N + 1) && IsMatrix(t0, N + 1, N + 1) && Covers(S, N) && i <= N && j <= N
    && t[i][j] == t0[i][j] * ScaleOf(S, N, i, j, m, n)
  }

  /** Each cell of `t` is the original cell of `t0` times its scale factor so far. */
  predicate ScaledUpTo(t: Matrix, t0: Matrix, S: Matrix, N: nat, m: int, n: int) {
    IsMatrix(t, N + 1, N + 1) && IsMatrix(t0, N + 1, N + 1) && Covers(S, N)
    && forall i: nat, j: nat :: i <= N && j <= N ==> CellScaled(t, t0, S, N, i, j, m, n)
  }

  /** The multiplication of step (m, n) inside `if m > 0`: the h slot [n][m-1] by f. */
  function ScaleH(t: Matrix, N: nat, m: nat, n: nat, f: real): (u: Matrix)
    requires IsMatrix(t, N + 1, N + 1) && m <= n <= N
    ensures IsMatrix(u, N + 1, N + 1)
  {
    if m > 0 then Set(t, n, m - 1, t[n][m - 1] * f) else t
  }

  /** The last multiplication of step (m, n): the g slot [m][n] by f. */
  function ScaleG(t: Matrix, N: nat, m: nat, n: nat, f: real): (u: Matrix)
    requires IsMatrix(t, N + 1, N + 1) && m <= n <= N
    ensures IsMatrix(u, N + 1, N + 1)
  {
    Set(t, m, n, t[m][n] * f)
  }

  /** Both multiplications of step (m, n), in the order the sweep performs them. */
  function ScaleSlots(t: Matrix, N: nat, m: nat, n: nat, f: real): (u: Matrix)
    requires IsMatrix(t, N + 1, N + 1) && m <= n <= N
    ensures IsMatrix(u, N + 1, N + 1)
  {
    ScaleG(ScaleH(t, N, m, n, f), N, m, n, f)
  }

  /** Step (m, n) scales exactly the cells of the owners G(n, m) and H(n, m), each once, by
      S[m, n]. */
  lemma ScaleExtends(t: Matrix, t0: Matrix, S: Matrix, N: nat, m: nat, n: nat)
    requires 1 <= n <= N && m <= n
    requires ScaledUpTo(t, t0, S, N, m, n)
    ensures ScaledUpTo(ScaleSlots(t, N, m, n, S[m][n]), t0, S, N, m + 1, n)
  {
    var u, next := ScaleSlots(t, N, m, n, S[m][n]), m + 1;
    forall i: nat, j: nat | i <= N && j <= N
      ensures CellScaled(u, t0, S, N, i, j, next, n)
    {
      ScaleCell(t, t0, S, N, m, n, i, j);
    }
  }

  /** ScaleExtends for one cell [i][j]. */
  lemma ScaleCell(t: Matrix, t0: Matrix, S: Matrix, N: nat, m: nat, n: nat, i: nat, j: nat)
    requires 1 <= n <= N && m <= n && i <= N && j <= N
    requires ScaledUpTo(t, t0, S, N, m, n)
    ensures CellScaled(ScaleSlots(t, N, m, n, S[m][n]), t0, S, N, i, j, m + 1, n)
  {
    var o := OwnerOf(i, j);
    assert CellScaled(t, t0, S, N, i, j, m, n);
    if o == G(n, m) {
      assert (i, j) == (m, n);
    } else if m > 0 && o == H(n, m) {
      assert (i, j) == (n, m - 1);
    } else {
      assert (i, j) != (m, n) && (m == 0 || (i, j) != (n, m - 1));
    }
  }

  /** Writing an S cell that has not been visited yet leaves every scale factor alone. */
  lemma ScaleFrame(t: Matrix, t0: Matrix, S: Matrix, N: nat, m: nat, n: nat, a: nat, b: nat, v: real)
    requires a <= b <= N && !Before(a, b, m, n)
    requires ScaledUpTo(t, t0, S, N, m, n)
    ensures ScaledUpTo(t, t0, Set(S, a, b, v), N, m, n)
  {
    var S1 := Set(S, a, b, v);
    forall i: nat, j: nat | i <= N && j <= N
      ensures CellScaled(t, t0, S1, N, i, j, m, n)
    {
      assert CellScaled(t, t0, S, N, i, j, m, n);
    }
  }

  /** A cell that already holds its reference value can be counted as visited. */
  lemma DoneAt(t: Matrix, q: Quantity, root: real -> real, sinLat: real, cosLat: real, N: nat, m: nat, n: nat)
    requires Covers(t, N) && m <= n <= N
    requires Done(t, q, root, sinLat, cosLat, N, m, n)
    requires t[m][n] == Reference(q, root, sinLat, cosLat, m, n)
    ensures Done(t, q, root, sinLat, cosLat, N, m + 1, n)
  {
  }

  /** The Schmidt factor of step (m, n), m > 0, from S[m-1, n] and the square root of
      (n-m+1)(delta+1)/(n+m), with delta the Kronecker delta of the order. */
  lemma SchmidtAlongOrder(root: real -> real, m: nat, n: nat, a: real, delta: int)
    requires 1 <= m <= n && a == Schmidt(root, m - 1, n) && delta == KroneckerOne(m)
    ensures a * root((n - m + 1) as real * (delta + 1) as real / (n + m) as real) == Schmidt(root, m, n)
  {
  }

  /** The zonal factor S[0, n] = S[0, n-1] (2n-1)/n. */
  lemma SchmidtAlongDegree(root: real -> real, n: nat, a: real)
    requires 1 <= n && a == Schmidt(root, 0, n - 1)
    ensures a * (2 * n - 1) as real / n as real == Schmidt(root, 0, n)
  {
  }

  /** The diagonal recursions of step (n, n). */
  lemma DiagonalValues(sinLat: real, cosLat: real, n: nat, p: real, d: real)
    requires 1 <= n
    requires p == LegendreP(KFactor, sinLat, cosLat, n - 1, n - 1)
    requires d == LegendreDP(KFactor, sinLat, cosLat, n - 1, n - 1)
    ensures cosLat * p == LegendreP(KFactor, sinLat, cosLat, n, n)
    ensures cosLat * d + sinLat * p == LegendreDP(KFactor, sinLat, cosLat, n, n)
  {
  }

  /** The off-diagonal recursions of step (m, n): the second-previous cells p2, d2 matter
      only when they lie inside the triangle. */
  lemma OffDiagonalValues(sinLat: real, cosLat: real, m: nat, n: nat, k: real, p1: real, p2: real, d1: real, d2: real)
    requires m < n && k == KFactor(m, n)
    requires p1 == LegendreP(KFactor, sinLat, cosLat, m, n - 1)
    requires d1 == LegendreDP(KFactor, sinLat, cosLat, m, n - 1)
    requires m <= n - 2 ==> p2 == LegendreP(KFactor, sinLat, cosLat, m, n - 2)
    requires m <= n - 2 ==> d2 == LegendreDP(KFactor, sinLat, cosLat, m, n - 2)
    ensures sinLat * p1 - k * p2 == LegendreP(KFactor, sinLat, cosLat, m, n)
    ensures sinLat * d1 - cosLat * p1 - k * d2 == LegendreDP(KFactor, sinLat, cosLat, m, n)
  {
    if m == n - 1 {
      SubDiagonalValues(sinLat, cosLat, n, k, p1, p2, d1, d2);
    } else {
      InteriorValues(KFactor, sinLat, cosLat, m, n, k, p1, p2, d1, d2);
    }
  }

  /** The off-diagonal recursions with both previous cells inside the triangle. */
  lemma InteriorValues(kt: KTable, sinLat: real, cosLat: real, m: nat, n: nat, k: real, p1: real, p2: real, d1: real, d2: real)
    requires m < n && k == kt(m, n)
    requires p1 == LegendreP(kt, sinLat, cosLat, m, n - 1) && p2 == LegendreP(kt, sinLat, cosLat, m, n - 2)
    requires d1 == LegendreDP(kt, sinLat, cosLat, m, n - 1) && d2 == LegendreDP(kt, sinLat, cosLat, m, n - 2)
    ensures sinLat * p1 - k * p2 == LegendreP(kt, sinLat, cosLat, m, n)
    ensures sinLat * d1 - cosLat * p1 - k * d2 == LegendreDP(kt, sinLat, cosLat, m, n)
  {
    OffDiagonalRecursion(kt, sinLat, cosLat, m, n);
  }

  /** The off-diagonal recursions on the first sub-diagonal, whatever p2 and d2 hold. */
  lemma SubDiagonalValues(sinLat: real, cosLat: real, n: nat, k: real, p1: real, p2: real, d1: real, d2: real)
    requires 1 <= n && k == KFactor(n - 1, n)
    requires p1 == LegendreP(KFactor, sinLat, cosLat, n - 1, n - 1)
    requires d1 == LegendreDP(KFactor, sinLat, cosLat, n - 1, n - 1)
    ensures sinLat * p1 - k * p2 == LegendreP(KFactor, sinLat, cosLat, n - 1, n)
    ensures sinLat * d1 - cosLat * p1 - k * d2 == LegendreDP(KFactor, sinLat, cosLat, n - 1, n)
  {
    SubDiagonalIgnoresOutsideCell(sinLat, cosLat, n, p2, d2);
  }

  /** The state of the sweep just before step (m, n), for original coefficient tables c0
      and cd0: every table cell visited so far holds its reference value and every
      coefficient visited so far has been scaled by the S cell of its owner. */
  predicate SweepState(w: Work, c0: Matrix, cd0: Matrix, root: real -> real, sinLat: real, cosLat: real,
                       N: nat, m: int, n: int)
  {
    && Shaped(w, N)
    && AllDone(w, root, sinLat, cosLat, N, m, n)
    && ScaledUpTo(w.c, c0, w.S, N, m, n) && ScaledUpTo(w.cd, cd0, w.S, N, m, n)
  }

  /** The body of the inner loop of denormalize_coefficients for order m of degree n. */
  method OrderStep(w: Work, c0: Matrix, cd0: Matrix, root: real -> real, sinLat: real, cosLat: real,
                   N: nat, n: nat, m: nat, delta: int)
    returns (w': Work, delta': int)
    requires 1 <= n <= N && m <= n
    requires SweepState(w, c0, cd0, root, sinLat, cosLat, N, m, n) && w.S[0][n] == Schmidt(root, 0, n)
    requires delta == if m <= 1 then 1 else 0
    ensures SweepState(w', c0, cd0, root, sinLat, cosLat, N, m + 1, n) && w'.S[0][n] == Schmidt(root, 0, n)
    ensures delta' == if m + 1 <= 1 then 1 else 0
  {
    var k := KStep(w.k, root, sinLat, cosLat, N, m, n);
    var S := SchmidtStep(w.S, root, sinLat, cosLat, N, m, n, delta);
    var c, cd := ScaleH(w.c, N, m, n, S[m][n]), ScaleH(w.cd, N, m, n, S[m][n]);
    delta' := if m > 0 then 0 else delta;
    var P, dP := LegendreStep(w.P, w.dP, k, root, sinLat, cosLat, N, m, n);
    c, cd := ScaleG(c, N, m, n, S[m][n]), ScaleG(cd, N, m, n, S[m][n]);
    ScaleBothExtend(w.c, w.cd, c0, cd0, w.S, S, N, m, n);
    w' := Work(S, k, P, dP, c, cd);
  }

  /** The scaling invariant survives step (m, n), across the update of S[m, n]. */
  lemma ScaleBothExtend(c: Matrix, cd: Matrix, c0: Matrix, cd0: Matrix, S: Matrix, S': Matrix, N: nat, m: nat, n: nat)
    requires 1 <= n <= N && m <= n
    requires ScaledUpTo(c, c0, S, N, m, n) && ScaledUpTo(cd, cd0, S, N, m, n)
    requires IsMatrix(S', N + 1, N + 1) && (S' == S || S' == Set(S, m, n, S'[m][n]))
    ensures ScaledUpTo(ScaleSlots(c, N, m, n, S'[m][n]), c0, S', N, m + 1, n)
    ensures ScaledUpTo(ScaleSlots(cd, N, m, n, S'[m][n]), cd0, S', N, m + 1, n)
  {
    if S' != S {
      ScaleFrame(c, c0, S, N, m, n, m, n, S'[m][n]);
      ScaleFrame(cd, cd0, S, N, m, n, m, n, S'[m][n]);
    }
    ScaleExtends(c, c0, S', N, m, n);
    ScaleExtends(cd, cd0, S', N, m, n);
  }

  /** k[m, n] = ((n-1)^2 - m^2) / ((2n-1)(2n-3)). */
  method KStep(k: Matrix, root: real -> real, sinLat: real, cosLat: real, N: nat, m: nat, n: nat)
    returns (k': Matrix)
    requires 1 <= n <= N && m <= n && IsMatrix(k, N + 1, N + 1)
    requires Done(k, KTableCells, root, sinLat, cosLat, N, m, n)
    ensures IsMatrix(k', N + 1, N + 1) && k'[m][n] == KFactor(m, n)
    ensures Done(k', KTableCells, root, sinLat, cosLat, N, m + 1, n)
  {
    var v := ((n - 1) as real * (n - 1) as real - m as real * m as real) / ((2 * n - 1) as real * (2 * n - 3) as real);
    DoneExtends(k, KTableCells, root, sinLat, cosLat, N, m, n, v);
    k' := Set(k, m, n, v);
  }

  /** For m > 0, S[m, n] = S[m-1, n] sqrt((n-m+1)(delta+1)/(n+m)); S is untouched at m = 0,
      where S[0, n] was set before the order loop. */
  method SchmidtStep(S: Matrix, root: real -> real, sinLat: real, cosLat: real, N: nat, m: nat, n: nat, delta: int)
    returns (S': Matrix)
    requires 1 <= n <= N && m <= n && IsMatrix(S, N + 1, N + 1)
    requires Done(S, SchmidtTable, root, sinLat, cosLat, N, m, n) && S[0][n] == Schmidt(root, 0, n)
    requires delta == if m <= 1 then 1 else 0
    ensures IsMatrix(S', N + 1, N + 1) && (S' == S || S' == Set(S, m, n, S'[m][n]))
    ensures Done(S', SchmidtTable, root, sinLat, cosLat, N, m + 1, n) && S'[0][n] == Schmidt(root, 0, n)
  {
    if m > 0 {
      SchmidtAlongOrder(root, m, n, S[m - 1][n], delta);
      var v := S[m - 1][n] * root((n - m + 1) as real * (delta + 1) as real / (n + m) as real);
      DoneExtends(S, SchmidtTable, root, sinLat, cosLat, N, m, n, v);
      S' := Set(S, m, n, v);
    } else {
      DoneAt(S, SchmidtTable, root, sinLat, cosLat, N, m, n);
      S' := S;
    }
  }

  /** P[m, n] and dP[m, n] from the diagonal or the off-diagonal recursion. */
  method LegendreStep(P: Matrix, dP: Matrix, k: Matrix, root: real -> real, sinLat: real, cosLat: real,
                      N: nat, m: nat, n: nat)
    returns (P': Matrix, dP': Matrix)
    requires 1 <= n <= N && m <= n && IsMatrix(P, N + 2, N + 2) && IsMatrix(dP, N + 2, N + 1)
    requires IsMatrix(k, N + 1, N + 1) && k[m][n] == KFactor(m, n)
    requires Done(P, PTable, root, sinLat, cosLat, N, m, n) && Done(dP, DPTable, root, sinLat, cosLat, N, m, n)
    ensures IsMatrix(P', N + 2, N + 2) && IsMatrix(dP', N + 2, N + 1)
    ensures Done(P', PTable, root, sinLat, cosLat, N, m + 1, n) && Done(dP', DPTable, root, sinLat, cosLat, N, m + 1, n)
  {
    var p, d;
    if n == m {
      p, d := DiagonalCell(P, dP, root, sinLat, cosLat, N, n);
    } else {
      p, d := OffDiagonalCell(P, dP, k[m][n], root, sinLat, cosLat, N, m, n);
    }
    DoneExtends(P, PTable, root, sinLat, cosLat, N, m, n, p);
    DoneExtends(dP, DPTable, root, sinLat, cosLat, N, m, n, d);
    P' := Set(P, m, n, p);
    dP' := Set(dP, m, n, d);
  }

  /** P[n, n] = cos P[n-1, n-1] and dP[n, n] = cos dP[n-1, n-1] + sin P[n-1, n-1]. */
  method DiagonalCell(P: Matrix, dP: Matrix, root: real -> real, sinLat: real, cosLat: real, N: nat, n: nat)
    returns (p: real, d: real)
    requires 1 <= n <= N && IsMatrix(P, N + 2, N + 2) && IsMatrix(dP, N + 2, N + 1)
    requires Done(P, PTable, root, sinLat, cosLat, N, n, n) && Done(dP, DPTable, root, sinLat, cosLat, N, n, n)
    ensures p == LegendreP(KFactor, sinLat, cosLat, n, n) && d == LegendreDP(KFactor, sinLat, cosLat, n, n)
  {
    var p1, d1 := P[n - 1][n - 1], dP[n - 1][n - 1];
    assert Before(n - 1, n - 1, n, n);
    DiagonalValues(sinLat, cosLat, n, p1, d1);
    p := cosLat * p1;
    d := cosLat * d1 + sinLat * p1;
  }

  /** P[m, n] = sin P[m, n-1] - k P[m, n-2] and
      dP[m, n] = sin dP[m, n-1] - cos P[m, n-1] - k dP[m, n-2], with Python's index -1
      wrapping to the last column at n = 1. */
  method OffDiagonalCell(P: Matrix, dP: Matrix, k: real, root: real -> real, sinLat: real, cosLat: real,
                         N: nat, m: nat, n: nat)
    returns (p: real, d: real)
    requires 1 <= n <= N && m < n && IsMatrix(P, N + 2, N + 2) && IsMatrix(dP, N + 2, N + 1)
    requires k == KFactor(m, n)
    requires Done(P, PTable, root, sinLat, cosLat, N, m, n) && Done(dP, DPTable, root, sinLat, cosLat, N, m, n)
    ensures p == LegendreP(KFactor, sinLat, cosLat, m, n) && d == LegendreDP(KFactor, sinLat, cosLat, m, n)
  {
    var p1, d1 := P[m][n - 1], dP[m][n - 1];
    var p2, d2 := P[m][Wrap(n - 2, N + 2)], dP[m][Wrap(n - 2, N + 1)];
    assert Before(m, n - 1, m, n) && Before(m, n - 2, m, n);
    OffDiagonalValues(sinLat, cosLat, m, n, k, p1, p2, d1, d2);
    p := sinLat * p1 - k * p2;
    d := sinLat * d1 - cosLat * p1 - k * d2;
  }

  /** Writing a cell that has not been visited yet keeps a table done. */
  lemma DoneFrame(t: Matrix, q: Quantity, root: real -> real, sinLat: real, cosLat: real, N: nat,
                  m: nat, n: nat, a: nat, b: nat, v: real)
    requires Covers(t, N) && a < |t| && b < |t[a]| && !Before(a, b, m, n)
    requires Done(t, q, root, sinLat, cosLat, N, m, n)
    ensures Covers(Set(t, a, b, v), N) && Done(Set(t, a, b, v), q, root, sinLat, cosLat, N, m, n)
  {
  }

  /** The start of degree n: S[0, n] = S[0, n-1] (2n-1)/n. Cell (0, n) is not visited
      yet, so the sweep state does not change. */
  method StartDegree(w: Work, c0: Matrix, cd0: Matrix, root: real -> real, sinLat: real, cosLat: real,
                     N: nat, n: nat)
    returns (w': Work)
    requires 1 <= n <= N && SweepState(w, c0, cd0, root, sinLat, cosLat, N, 0, n)
    ensures SweepState(w', c0, cd0, root, sinLat, cosLat, N, 0, n) && w'.S[0][n] == Schmidt(root, 0, n)
  {
    var S := ZonalSchmidt(w.S, root, sinLat, cosLat, N, n);
    ScaleFrame(w.c, c0, w.S, N, 0, n, 0, n, S[0][n]);
    ScaleFrame(w.cd, cd0, w.S, N, 0, n, 0, n, S[0][n]);
    w' := w.(S := S);
  }

  /** S[0, n] = S[0, n-1] (2n-1)/n, the Schmidt factor of order 0. */
  method ZonalSchmidt(S: Matrix, root: real -> real, sinLat: real, cosLat: real, N: nat, n: nat)
    returns (S': Matrix)
    requires 1 <= n <= N && IsMatrix(S, N + 1, N + 1) && Done(S, SchmidtTable, root, sinLat, cosLat, N, 0, n)
    ensures IsMatrix(S', N + 1, N + 1) && S' == Set(S, 0, n, S'[0][n]) && S'[0][n] == Schmidt(root, 0, n)
    ensures Done(S', SchmidtTable, root, sinLat, cosLat, N, 0, n)
  {
    assert Before(0, n - 1, 0, n);
    SchmidtAlongDegree(root, n, S[0][n - 1]);
    var v := S[0][n - 1] * (2 * n - 1) as real / n as real;
    DoneFrame(S, SchmidtTable, root, sinLat, cosLat, N, 0, n, 0, n, v);
    S' := Set(S, 0, n, v);
  }

  /** One iteration of the degree loop: the start of degree n, then orders 0..n. */
  method DegreeStep(w: Work, c0: Matrix, cd0: Matrix, root: real -> real, sinLat: real, cosLat: real,
                    N: nat, n: nat)
    returns (w': Work)
    requires 1 <= n <= N && SweepState(w, c0, cd0, root, sinLat, cosLat, N, 0, n)
    ensures SweepState(w', c0, cd0, root, sinLat, cosLat, N, 0, n + 1)
  {
    var cur := StartDegree(w, c0, cd0, root, sinLat, cosLat, N, n);
    var delta := 1;
    var m := 0;
    while m <= n
      invariant 0 <= m <= n + 1
      invariant SweepState(cur, c0, cd0, root, sinLat, cosLat, N, m, n) && cur.S[0][n] == Schmidt(root, 0, n)
      invariant delta == if m <= 1 then 1 else 0
    {
      cur, delta := OrderStep(cur, c0, cd0, root, sinLat, cosLat, N, n, m, delta);
      m := m + 1;
    }
    NextDegree(cur, c0, cd0, root, sinLat, cosLat, N, n);
    w' := cur;
  }

  /** Having visited every order of degree n is having reached order 0 of degree n+1. */
  lemma NextDegree(w: Work, c0: Matrix, cd0: Matrix, root: real -> real, sinLat: real, cosLat: real, N: nat, n: nat)
    requires n <= N && SweepState(w, c0, cd0, root, sinLat, cosLat, N, n + 1, n)
    ensures SweepState(w, c0, cd0, root, sinLat, cosLat, N, 0, n + 1)
  {
    DoneNext(w.S, SchmidtTable, root, sinLat, cosLat, N, n);
    DoneNext(w.k, KTableCells, root, sinLat, cosLat, N, n);
    DoneNext(w.P, PTable, root, sinLat, cosLat, N, n);
    DoneNext(w.dP, DPTable, root, sinLat, cosLat, N, n);
    ScaledNext(w.c, c0, w.S, N, n);
    ScaledNext(w.cd, cd0, w.S, N, n);
  }

  /** NextDegree for one table. */
  lemma DoneNext(t: Matrix, q: Quantity, root: real -> real, sinLat: real, cosLat: real, N: nat, n: nat)
    requires Covers(t, N) && Done(t, q, root, sinLat, cosLat, N, n + 1, n)
    ensures Done(t, q, root, sinLat, cosLat, N, 0, n + 1)
  {
  }

  /** NextDegree for one coefficient table. */
  lemma ScaledNext(t: Matrix, t0: Matrix, S: Matrix, N: nat, n: nat)
    requires ScaledUpTo(t, t0, S, N, n + 1, n)
    ensures ScaledUpTo(t, t0, S, N, 0, n + 1)
  {
    var next := n + 1;
    forall i: nat, j: nat | i <= N && j <= N
      ensures CellScaled(t, t0, S, N, i, j, 0, next)
    {
      assert CellScaled(t, t0, S, N, i, j, next, n);
    }
  }

  /** The Schmidt factor applied to coefficient cell [i][j] by a complete sweep: that of
      the cell's owner for degrees n >= 1, and 1 for g_0^0 in cell [0][0]. */
  function OwnerFactor(root: real -> real, i: nat, j: nat): real {
    var o := OwnerOf(i, j);
    if o.n >= 1 then Schmidt(root, o.m, o.n) else 1.0
  }

  /** denormalize_coefficients for a model of degree N at geocentric latitude with sine
      sinLat and cosine cosLat, `root` standing for np.sqrt. S and k start as the identity
      and zeros of size N+1, P as the identity of size N+2, dP as zeros of size
      (N+2)x(N+1). Afterwards every triangle cell of S, k, P and dP holds its reference
      value, and every cell of c and cd has been multiplied by its owner's factor. */
  method Denormalize(N: nat, c0: Matrix, cd0: Matrix, root: real -> real, sinLat: real, cosLat: real)
    returns (w: Work)
    requires IsMatrix(c0, N + 1, N + 1) && IsMatrix(cd0, N + 1, N + 1)
    ensures Shaped(w, N)
    ensures forall i, j :: 0 <= i <= j <= N ==>
      && w.S[i][j] == Schmidt(root, i, j) && w.k[i][j] == KCell(i, j)
      && w.P[i][j] == LegendreP(KFactor, sinLat, cosLat, i, j)
      && w.dP[i][j] == LegendreDP(KFactor, sinLat, cosLat, i, j)
    ensures forall i, j :: 0 <= i <= N && 0 <= j <= N ==>
      w.c[i][j] == c0[i][j] * OwnerFactor(root, i, j) && w.cd[i][j] == cd0[i][j] * OwnerFactor(root, i, j)
  {
    w := Work(Identity(N + 1), Zeros(N + 1, N + 1), Identity(N + 2), Zeros(N + 2, N + 1), c0, cd0);
    InitialState(w, c0, cd0, root, sinLat, cosLat, N);
    var n := 1;
    while n <= N
      invariant 1 <= n <= N + 1 && SweepState(w, c0, cd0, root, sinLat, cosLat, N, 0, n)
    {
      w := DegreeStep(w, c0, cd0, root, sinLat, cosLat, N, n);
      n := n + 1;
    }
    FinalState(w, c0, cd0, root, sinLat, cosLat, N);
  }

  /** Before the sweep only [0][0] counts as visited, and it already holds S = 1, k = 0,
      P = 1 and dP = 0. */
  lemma InitialState(w: Work, c0: Matrix, cd0: Matrix, root: real -> real, sinLat: real, cosLat: real, N: nat)
    requires IsMatrix(c0, N + 1, N + 1) && IsMatrix(cd0, N + 1, N + 1)
    requires w == Work(Identity(N + 1), Zeros(N + 1, N + 1), Identity(N + 2), Zeros(N + 2, N + 1), c0, cd0)
    ensures SweepState(w, c0, cd0, root, sinLat, cosLat, N, 0, 1)
  {
    forall i: nat, j: nat | i <= N && j <= N
      ensures CellScaled(w.c, c0, w.S, N, i, j, 0, 1) && CellScaled(w.cd, cd0, w.S, N, i, j, 0, 1)
    {
      assert ScaleOf(w.S, N, i, j, 0, 1) == 1.0;
    }
  }

  /** After degree N every cell is visited. */
  lemma FinalState(w: Work, c0: Matrix, cd0: Matrix, root: real -> real, sinLat: real, cosLat: real, N: nat)
    requires SweepState(w, c0, cd0, root, sinLat, cosLat, N, 0, N + 1)
    ensures forall i, j :: 0 <= i <= j <= N ==>
      && w.S[i][j] == Schmidt(root, i, j) && w.k[i][j] == KCell(i, j)
      && w.P[i][j] == LegendreP(KFactor, sinLat, cosLat, i, j)
      && w.dP[i][j] == LegendreDP(KFactor, sinLat, cosLat, i, j)
    ensures forall i, j :: 0 <= i <= N && 0 <= j <= N ==>
      w.c[i][j] == c0[i][j] * OwnerFactor(root, i, j) && w.cd[i][j] == cd0[i][j] * OwnerFactor(root, i, j)
  {
    FinalTables(w, c0, cd0, root, sinLat, cosLat, N);
    forall i, j | 0 <= i <= N && 0 <= j <= N
      ensures w.c[i][j] == c0[i][j] * OwnerFactor(root, i, j) && w.cd[i][j] == cd0[i][j] * OwnerFactor(root, i, j)
    {
      FinalCell(w, c0, cd0, root, sinLat, cosLat, N, i, j);
    }
  }

  /** After degree N the four tables hold their reference values on the triangle. */
  lemma FinalTables(w: Work, c0: Matrix, cd0: Matrix, root: real -> real, sinLat: real, cosLat: real, N: nat)
    requires SweepState(w, c0, cd0, root, sinLat, cosLat, N, 0, N + 1)
    ensures forall i, j :: 0 <= i <= j <= N ==>
      && w.S[i][j] == Schmidt(root, i, j) && w.k[i][j] == KCell(i, j)
      && w.P[i][j] == LegendreP(KFactor, sinLat, cosLat, i, j)
      && w.dP[i][j] == LegendreDP(KFactor, sinLat, cosLat, i, j)
  {
    forall i, j | 0 <= i <= j <= N
      ensures w.S[i][j] == Schmidt(root, i, j)
    {
      assert Before(i, j, 0, N + 1);
    }
  }

  /** After degree N one cell of c and cd carries its owner's Schmidt factor. */
  lemma FinalCell(w: Work, c0: Matrix, cd0: Matrix, root: real -> real, sinLat: real, cosLat: real, N: nat, i: nat, j: nat)
    requires SweepState(w, c0, cd0, root, sinLat, cosLat, N, 0, N + 1) && i <= N && j <= N
    requires forall a, b :: 0 <= a <= b <= N ==> w.S[a][b] == Schmidt(root, a, b)
    ensures w.c[i][j] == c0[i][j] * OwnerFactor(root, i, j) && w.cd[i][j] == cd0[i][j] * OwnerFactor(root, i, j)
  {
    var o := OwnerOf(i, j);
    assert CellScaled(w.c, c0, w.S, N, i, j, 0, N + 1) && CellScaled(w.cd, cd0, w.S, N, i, j, 0, N + 1);
    if o.n >= 1 {
      assert Before(o.m, o.n, 0, N + 1);
    }
  }

  /** The sweep scales g_n^m (cell [m][n], n >= 1) and h_n^m (cell [n][m-1], m >= 1) both
      by S[m, n], leaves g_0^0 alone, and never zeroes a coefficient. */
  lemma OwnerFactorSlots(root: real -> real, m: nat, n: nat)
    requires m <= n
    ensures OwnerFactor(root, m, n) == if n >= 1 then Schmidt(root, m, n) else 1.0
    ensures m >= 1 ==> OwnerFactor(root, n, m - 1) == Schmidt(root, m, n)
    ensures IsSqrt(root) ==> OwnerFactor(root, m, n) > 0.0
  {
    if IsSqrt(root) {
      SchmidtPositive(root, m, n);
    }
  }
}
