/** Packing of the Gauss coefficient rows of a COF file into the two square
    tables `c` (main field) and `cd` (secular variation): g_n^m at [m][n],
    h_n^m at the transposed slot [n][m-1] (ahrs/utils/wmm.py:478-487). */
module Coefficients {
  import opened Outcomes
  import opened Matrices

  /** One data row: degree n, order m, g and h in nT, their yearly rates gd and hd. */
  datatype CofRow = CofRow(n: int, m: int, g: real, h: real, gd: real, hd: real)

  /** The packed coefficient table of one model epoch. */
  datatype Table = Table(degree: nat, c: Matrix, cd: Matrix)

  predicate InTriangle(row: CofRow) {
    0 <= row.m <= row.n
  }

  predicate WellFormedTable(t: Table) {
    IsMatrix(t.c, t.degree + 1, t.degree + 1) && IsMatrix(t.cd, t.degree + 1, t.degree + 1)
  }

  /** A matrix cell `[row][col]`. */
  datatype Cell = Cell(row: int, col: int)

  /** The coefficient that owns a cell: g_n^m or h_n^m. */
  datatype Owner = G(n: nat, m: nat) | H(n: nat, m: nat)

  predicate ValidOwner(o: Owner, degree: nat) {
    match o
    case G(n, m) => m <= n <= degree
    case H(n, m) => 1 <= m <= n <= degree
  }

  function GSlot(n: int, m: int): Cell {
    Cell(m, n)
  }

  function HSlot(n: int, m: int): Cell {
    Cell(n, m - 1)
  }

  function SlotOf(o: Owner): Cell {
    match o
    case G(n, m) => GSlot(n, m)
    case H(n, m) => HSlot(n, m)
  }

  /** Inverse of the layout: on or above the diagonal a cell holds a g, below it an h. */
  function OwnerOf(i: nat, j: nat): (o: Owner)
    ensures ValidOwner(o, if i <= j then j else i)
    ensures SlotOf(o) == Cell(i, j)
  {
    if i <= j then G(j, i) else H(i, j + 1)
  }

  /** The layout is a bijection between the coefficients of a degree-N model and the
      cells of an (N+1)x(N+1) matrix: every slot is in bounds, g slots lie on or above
      the diagonal, h slots strictly below it, and the slot determines its owner. */
  lemma SlotLayout(degree: nat)
    ensures forall n, m :: 0 <= m <= n <= degree ==>
      var s := GSlot(n, m); 0 <= s.row <= s.col <= degree
    ensures forall n, m :: 1 <= m <= n <= degree ==>
      var s := HSlot(n, m); 0 <= s.col < s.row <= degree
    ensures forall o :: ValidOwner(o, degree) ==> OwnerOf(SlotOf(o).row, SlotOf(o).col) == o
  {
  }

  /** No two coefficients share a slot: distinct owners have distinct cells. */
  lemma SlotsCollisionFree(o1: Owner, o2: Owner, degree: nat)
    requires ValidOwner(o1, degree) && ValidOwner(o2, degree)
    requires SlotOf(o1) == SlotOf(o2)
    ensures o1 == o2
  {
    SlotLayout(degree);
  }

  /** The last row of `rows` with degree n and order m, if any: the row whose values
      survive in the packed table. */
  function LastRow(rows: seq<CofRow>, n: int, m: int): (r: Option<CofRow>)
    ensures r.Some? ==> r.value in rows && r.value.n == n && r.value.m == m
    ensures r.None? ==> forall row :: row in rows ==> row.n != n || row.m != m
  {
    if |rows| == 0 then None
    else if rows[|rows| - 1].n == n && rows[|rows| - 1].m == m then Some(rows[|rows| - 1])
    else LastRow(rows[..|rows| - 1], n, m)
  }

  /** What the packed cell `[i][j]` holds after loading `rows`: the g (or gd) of its g
      owner, the h (or hd) of its h owner, or zero when no row supplies the owner. */
  function Expected(rows: seq<CofRow>, i: nat, j: nat, secular: bool): real {
    var o := OwnerOf(i, j);
    match LastRow(rows, o.n, o.m)
    case None => 0.0
    case Some(row) =>
      if o.G? then (if secular then row.gd else row.g)
      else (if secular then row.hd else row.h)
  }

  /** The largest degree in a non-empty table: int(max(data[:, 0])). */
  function MaxDegree(rows: seq<CofRow>): (d: int)
    requires |rows| > 0
    ensures forall row :: row in rows ==> row.n <= d
    ensures exists row :: row in rows && row.n == d
  {
    if |rows| == 1 then rows[0].n
    else
      var rest := MaxDegree(rows[1..]);
      assert forall row :: row in rows[1..] ==> row in rows;
      if rows[0].n >= rest then rows[0].n else rest
  }

  /** When no later row repeats its (n, m), a row's four values all land in its own
      slots: no row overwrites another row's g or h. */
  lemma RowSurvivesPacking(rows: seq<CofRow>, k: nat)
    requires k < |rows| && InTriangle(rows[k])
    requires forall j :: k < j < |rows| ==> rows[j].n != rows[k].n || rows[j].m != rows[k].m
    ensures Expected(rows, rows[k].m, rows[k].n, false) == rows[k].g
    ensures Expected(rows, rows[k].m, rows[k].n, true) == rows[k].gd
    ensures rows[k].m >= 1 ==> Expected(rows, rows[k].n, rows[k].m - 1, false) == rows[k].h
    ensures rows[k].m >= 1 ==> Expected(rows, rows[k].n, rows[k].m - 1, true) == rows[k].hd
  {
    LastRowIsLastMatch(rows, k);
  }

  lemma {:induction false} LastRowIsLastMatch(rows: seq<CofRow>, k: nat)
    requires k < |rows|
    requires forall j :: k < j < |rows| ==> rows[j].n != rows[k].n || rows[j].m != rows[k].m
    ensures LastRow(rows, rows[k].n, rows[k].m) == Some(rows[k])
    decreases |rows|
  {
    if k < |rows| - 1 {
      var init := rows[..|rows| - 1];
      assert init[k] == rows[k];
      LastRowIsLastMatch(init, k);
    }
  }

  /** load_coefficients: the degree is the largest n, both tables are
      (degree+1)x(degree+1), and every cell holds the value its owner received from the
      last row naming that owner (zero if none). With no data row or a single one the
      array reader returns a one-dimensional array, and the column slice `data[:, 0]`
      fails before the maximum is taken. */
  method LoadCoefficients(rows: seq<CofRow>) returns (r: Result<Table>)
    requires forall row :: row in rows ==> InTriangle(row)
    ensures |rows| <= 1 <==> r.Err?
    ensures r.Err? ==> r.error == FlatTable
    ensures r.Ok? ==> WellFormedTable(r.value)
    ensures r.Ok? ==> forall row :: row in rows ==> row.n <= r.value.degree
    ensures r.Ok? ==> exists row :: row in rows && row.n == r.value.degree
    ensures r.Ok? ==> forall i, j :: 0 <= i <= r.value.degree && 0 <= j <= r.value.degree ==>
      r.value.c[i][j] == Expected(rows, i, j, false) && r.value.cd[i][j] == Expected(rows, i, j, true)
  {
    if |rows| <= 1 {
      return Err(FlatTable);
    }
    var degree := MaxDegree(rows);
    var c, cd := Pack(rows, degree);
    return Ok(Table(degree, c, cd));
  }

  /** `t` is a packed table of `rows` (its `c`, or with `secular` its `cd`). */
  predicate PackedFrom(t: Matrix, rows: seq<CofRow>, degree: nat, secular: bool) {
    IsMatrix(t, degree + 1, degree + 1)
    && forall i, j :: 0 <= i <= degree && 0 <= j <= degree ==> t[i][j] == Expected(rows, i, j, secular)
  }

  /** One row's assignments to one table: its g (gd) at [m][n] and, for m != 0, its h (hd)
      at [n][m-1]. */
  function Place(t: Matrix, row: CofRow, secular: bool, degree: nat): (u: Matrix)
    requires IsMatrix(t, degree + 1, degree + 1) && InTriangle(row) && row.n <= degree
    ensures IsMatrix(u, degree + 1, degree + 1)
  {
    var t1 := Set(t, row.m, row.n, if secular then row.gd else row.g);
    if row.m != 0 then Set(t1, row.n, row.m - 1, if secular then row.hd else row.h) else t1
  }

  /** The row loop of load_coefficients over zero-initialised tables. */
  method Pack(rows: seq<CofRow>, degree: nat) returns (c: Matrix, cd: Matrix)
    requires forall row :: row in rows ==> InTriangle(row) && row.n <= degree
    ensures IsMatrix(c, degree + 1, degree + 1) && IsMatrix(cd, degree + 1, degree + 1)
    ensures forall i, j :: 0 <= i <= degree && 0 <= j <= degree ==>
      c[i][j] == Expected(rows, i, j, false) && cd[i][j] == Expected(rows, i, j, true)
  {
    c := Zeros(degree + 1, degree + 1);
    cd := Zeros(degree + 1, degree + 1);
    var k := 0;
    while k < |rows|
      invariant 0 <= k <= |rows|
      invariant PackedFrom(c, rows[..k], degree, false) && PackedFrom(cd, rows[..k], degree, true)
    {
      assert rows[k] in rows;
      PlaceExtends(c, rows, k, degree, false);
      PlaceExtends(cd, rows, k, degree, true);
      c := Place(c, rows[k], false, degree);
      cd := Place(cd, rows[k], true, degree);
      k := k + 1;
    }
    assert rows[..k] == rows;
  }

  /** Placing row k into a table packed from the first k rows packs the first k+1. */
  lemma PlaceExtends(t: Matrix, rows: seq<CofRow>, k: nat, degree: nat, secular: bool)
    requires k < |rows| && InTriangle(rows[k]) && rows[k].n <= degree
    requires PackedFrom(t, rows[..k], degree, secular)
    ensures PackedFrom(Place(t, rows[k], secular, degree), rows[..k + 1], degree, secular)
  {
    assert rows[..k + 1][..k] == rows[..k];
    PackStep(rows[..k + 1], degree);
  }

  /** Appending one row changes exactly the cells of that row's owners. */
  lemma PackStep(rows: seq<CofRow>, degree: nat)
    requires |rows| > 0 && InTriangle(rows[|rows| - 1]) && rows[|rows| - 1].n <= degree
    ensures var row, init := rows[|rows| - 1], rows[..|rows| - 1];
      forall i, j :: 0 <= i <= degree && 0 <= j <= degree ==>
        && Expected(rows, i, j, false) ==
             (if Cell(i, j) == GSlot(row.n, row.m) then row.g
              else if row.m != 0 && Cell(i, j) == HSlot(row.n, row.m) then row.h
              else Expected(init, i, j, false))
        && Expected(rows, i, j, true) ==
             (if Cell(i, j) == GSlot(row.n, row.m) then row.gd
              else if row.m != 0 && Cell(i, j) == HSlot(row.n, row.m) then row.hd
              else Expected(init, i, j, true))
  {
  }
}
