/** The WMM object (ahrs/utils/wmm.py:382-435, 701-874): the constructor, reset_coefficients
    and magnetic_field, over the pieces modelled in the other modules. Python attributes
    become the fields of an immutable state; each call returns the new state or the
    exception as an `Err`. Everything outside the computation is passed in as `Outside`:
    today's date, the two coefficient files, the geodetic-to-geocentric conversion with
    its sines and cosines, the square root, the arctangent and ned2enu. */
module Wmm {
  import opened Outcomes
  import opened Matrices
  import opened Coefficients
  import opened Dates
  import opened Header
  import opened Guard
  import opened Legendre
  import opened Denormalization
  import opened Synthesis
  import opened Pole
  import opened Elements

  /** One shipped coefficient file: its text, whose first line is the header, and its
      data rows as the array reader delivers them. */
  datatype CofData = CofData(text: string, rows: seq<CofRow>)

  /** What the program obtains from geodetic2spherical and numpy for one place: sin and
      cos of the longitude, of the geocentric latitude phi' and of phi' - phi, and a/r. */
  datatype Place = Place(sinLon: real, cosLon: real, sinLat: real, cosLat: real,
                         sinPsi: real, cosPsi: real, ar: real)

  /** The sines and cosines of a place are those of actual angles. */
  predicate OnCircles(p: Place) {
    && p.sinLon * p.sinLon + p.cosLon * p.cosLon == 1.0
    && p.sinLat * p.sinLat + p.cosLat * p.cosLat == 1.0
    && p.sinPsi * p.sinPsi + p.cosPsi * p.cosPsi == 1.0
  }

  datatype Outside = Outside(
    today: Day,
    files: CofFile -> CofData,
    geo: (real, real, real) -> Place,     // (latitude, longitude, height) in degrees and km
    root: real -> real,
    atan2: (real, real) -> real,          // RAD2DEG * arctan2
    toEnu: Vector -> Vector)

  /** Today is a calendar date and every data row lies in the coefficient triangle. */
  predicate Sound(o: Outside) {
    && ValidDay(o.today)
    && forall f: CofFile, row :: row in o.files(f).rows ==> InTriangle(row)
  }

  /** Date, header properties and packed tables, as reset_coefficients leaves them. */
  datatype Coeffs = Coeffs(dates: DateState, props: Properties, table: Table)

  /** The attributes of a WMM object. `last` holds the tables of the latest evaluation
      (sp, cp, P, dP, k, the scaled c and cd, dt, a/r and the geocentric latitude) and
      `gh` the extrapolated coefficients; `field` holds X, Y, Z, H, F, I, D, GV, unset
      until magnetic_field has run. */
  datatype WmmState = WmmState(coeffs: Coeffs, latitude: real, longitude: real, height: real,
                               frame: string, last: Option<Env>, gh: Option<Matrix>, field: Option<Field>)

  /** What every reachable state satisfies: square tables of the model's degree, and
      elements, once present, whose grivation belongs to the stored place. */
  predicate Consistent(s: WmmState) {
    && WellFormedTable(s.coeffs.table)
    && (s.field.Some? ==> s.field.value.GV == Grivation(s.field.value.D, s.latitude, s.longitude))
  }

  /** `t` is what load_coefficients makes of `rows`: degree the largest n, every cell the
      value its owner received last. */
  predicate LoadedFrom(t: Table, rows: seq<CofRow>) {
    && WellFormedTable(t)
    && (forall row :: row in rows ==> row.n <= t.degree)
    && (exists row :: row in rows && row.n == t.degree)
    && forall i, j :: 0 <= i <= t.degree && 0 <= j <= t.degree ==>
      t.c[i][j] == Expected(rows, i, j, false) && t.cd[i][j] == Expected(rows, i, j, true)
  }

  /** A date argument reset_date can be handed: a calendar date must exist. */
  predicate Admissible(date: DateInput) {
    date.Calendar? ==> ValidDay(Day(date.year, date.yday))
  }

  /** reset_date accepts `date`, and the file it chooses has a readable header and at
      least two data rows (fewer make the column slice of load_coefficients fail). */
  predicate Loads(date: DateInput, o: Outside)
    requires ValidDay(o.today) && Admissible(date)
  {
    var rd := ResetDate(date, o.today);
    && rd.Ok?
    && GetProperties(FileName(rd.value.file), o.files(rd.value.file).text).Ok?
    && |o.files(rd.value.file).rows| > 1
  }

  /** The error reset_coefficients raises when `date` does not load: the first failing
      step of reset_date, the header check and the row loader, in that order. */
  function LoadError(date: DateInput, o: Outside): Error
    requires ValidDay(o.today) && Admissible(date) && !Loads(date, o)
  {
    var rd := ResetDate(date, o.today);
    if rd.Err? then rd.error
    else
      var p := GetProperties(FileName(rd.value.file), o.files(rd.value.file).text);
      if p.Err? then p.error else FlatTable
  }

  /** The extension check of get_properties never fires inside reset_coefficients: both
      files it can choose end in .COF. */
  lemma NeverNotCof(date: DateInput, o: Outside)
    requires ValidDay(o.today) && Admissible(date) && !Loads(date, o)
    ensures LoadError(date, o) != NotCofFile
  {
    ShippedNamesAreCof();
  }

  /** Moreover the chosen file has a row of degree 1 or more, so sp[1] exists. */
  predicate Evaluable(date: DateInput, o: Outside)
    requires ValidDay(o.today) && Admissible(date)
  {
    && Loads(date, o)
    && exists row :: row in o.files(ResetDate(date, o.today).value.file).rows && row.n >= 1
  }

  /** reset_coefficients: reset_date, then the header of the chosen file, then its rows;
      the first failing step decides the error. */
  method ResetCoefficients(date: DateInput, o: Outside) returns (r: Result<Coeffs>)
    requires Sound(o) && Admissible(date)
    ensures r.Ok? <==> Loads(date, o)
    ensures ResetDate(date, o.today).Err? ==> r == Err(ResetDate(date, o.today).error)
    ensures ResetDate(date, o.today).Ok? ==>
      var ds := ResetDate(date, o.today).value;
      var p := GetProperties(FileName(ds.file), o.files(ds.file).text);
      && (p.Err? ==> r == Err(p.error))
      && (p.Ok? ==> (r.Ok? <==> |o.files(ds.file).rows| > 1))
      && (p.Ok? && |o.files(ds.file).rows| <= 1 ==> r == Err(FlatTable))
    ensures !Loads(date, o) ==> r == Err(LoadError(date, o))
    ensures r.Ok? ==>
      && Ok(r.value.dates) == ResetDate(date, o.today)
      && Ok(r.value.props) == GetProperties(FileName(r.value.dates.file), o.files(r.value.dates.file).text)
      && LoadedFrom(r.value.table, o.files(r.value.dates.file).rows)
  {
    var ds :- ResetDate(date, o.today);
    var props :- GetProperties(FileName(ds.file), o.files(ds.file).text);
    var table :- LoadCoefficients(o.files(ds.file).rows);
    return Ok(Coeffs(ds, props, table));
  }

  /** The geocentric components X', Y', Z' of equations 10 to 12, with Y' the east sum
      over the reduced functions (so the same formula at the poles). */
  function Geocentric(e: Env): Vector {
    Vector(DegreeSum(WeightsOf(e, North), TermsOf(e, North), e.N + 1),
           CorrectedEast(e),
           DegreeSum(WeightsOf(e, Down), TermsOf(e, Down), e.N + 1))
  }

  /** X', Y', Z' as the loop of magnetic_field leaves them: at a pole Y' is the running
      total Bp, elsewhere the east sum divided by cos(phi'). */
  function WrittenGeocentric(e: Env): Vector
    requires Valid(e)
  {
    Vector(DegreeSum(WeightsOf(e, North), TermsOf(e, North), e.N + 1),
           EastAsWritten(DegreeSum(WeightsOf(e, East), TermsOf(e, East), e.N + 1), BpAsWritten(e, e.N + 1), e.cosLat),
           DegreeSum(WeightsOf(e, Down), TermsOf(e, Down), e.N + 1))
  }

  /** Away from the poles the components as written are the corrected ones. */
  lemma WrittenAgreesOffPole(e: Env)
    requires SweptP(e) && e.cosLat != 0.0
    ensures WrittenGeocentric(e) == Geocentric(e)
  {
    CorrectedOffPole(e);
  }

  /** At the north pole of NorthPoleExample the program's Y' is 4/5 where the corrected
      component is 1. */
  lemma WrittenDiffersAtPole()
    ensures WrittenGeocentric(NorthPoleExample()).y == 4.0 / 5.0
    ensures Geocentric(NorthPoleExample()).y == 1.0
  {
    PoleAccumulatorDiffers();
    CorrectedAtPole(NorthPoleExample());
  }

  /** ned2enu when the frame is ENU in any letter case. */
  function Oriented(frame: string, toEnu: Vector -> Vector, v: Vector): Vector {
    if Upper(frame) == "ENU" then toEnu(v) else v
  }

  /** The elements at a place, from geocentric components p. */
  function FieldOf(p: Vector, g: Place, frame: string, o: Outside, latitude: real, longitude: real): Field {
    ElementsOf(o.root, o.atan2, Oriented(frame, o.toEnu, ToGeodetic(p, g.sinPsi, g.cosPsi)), latitude, longitude)
  }

  /** `e` holds the tables of one evaluation at place `g` with coefficients `c`, `cd`:
      the multiple-angle tables, P and dP of the sweep, and t - t0. */
  predicate EvaluatedAt(e: Env, g: Place, c: Matrix, cd: Matrix, dt: real) {
    && SweptP(e) && e.c == c && e.cd == cd && e.dt == dt
    && e.ar == g.ar && e.sinLat == g.sinLat && e.cosLat == g.cosLat
    && (forall m :: 0 <= m <= e.N ==> e.sp[m] == SinMul(g.sinLon, g.cosLon, m) && e.cp[m] == CosMul(g.sinLon, g.cosLon, m))
    && (forall m, n :: 0 <= m <= n <= e.N ==> e.dP[m][n] == LegendreDP(KFactor, e.sinLat, e.cosLat, m, n))
  }

  /** `after` is `before` with every g and h slot multiplied once by its Schmidt factor. */
  predicate ScaledOnce(after: Table, before: Table, root: real -> real) {
    && after.degree == before.degree && WellFormedTable(after) && WellFormedTable(before)
    && forall i, j :: 0 <= i <= before.degree && 0 <= j <= before.degree ==>
      after.c[i][j] == before.c[i][j] * OwnerFactor(root, i, j)
      && after.cd[i][j] == before.cd[i][j] * OwnerFactor(root, i, j)
  }

  /** `c` holds the date and header reset_coefficients loads for `date`, and the tables
      it packs from the chosen file, scaled once by the denormalisation. */
  ghost predicate ReloadedScaled(c: Coeffs, date: DateInput, o: Outside)
    requires ValidDay(o.today) && Admissible(date)
  {
    && Ok(c.dates) == ResetDate(date, o.today)
    && Ok(c.props) == GetProperties(FileName(c.dates.file), o.files(c.dates.file).text)
    && exists t :: LoadedFrom(t, o.files(c.dates.file).rows) && ScaledOnce(c.table, t, o.root)
  }

  /** `v` holds one evaluation at its stored place: the tables of that evaluation, gh
      extrapolated to its date, and the elements of the geocentric components, which off
      the poles are also those the loop as written produces. */
  predicate EvaluatedState(v: WmmState, o: Outside) {
    && v.last.Some? && v.field.Some? && v.gh.Some?
    && var e := v.last.value;
       var g := o.geo(v.latitude, v.longitude, v.height);
       && e.N == v.coeffs.table.degree >= 1
       && Extrapolated(e, v.gh.value)
       && EvaluatedAt(e, g, v.coeffs.table.c, v.coeffs.table.cd, Round1(v.coeffs.dates.dateDec) - v.coeffs.props.epoch)
       && v.field.value == FieldOf(Geocentric(e), g, v.frame, o, v.latitude, v.longitude)
       && (e.cosLat != 0.0 ==> v.field.value == FieldOf(WrittenGeocentric(e), g, v.frame, o, v.latitude, v.longitude))
  }

  /** magnetic_field: reload the coefficients when a date is given, then evaluate at the
      place. The denormalised tables replace c and cd, so a call without a date starts
      from the tables the previous call scaled. A degree-0 table fails on sp[1]. */
  method MagneticField(s: WmmState, latitude: real, longitude: real, height: real, date: Option<DateInput>, o: Outside)
    returns (r: Result<WmmState>)
    requires Sound(o) && WellFormedTable(s.coeffs.table)
    requires date.Some? ==> Admissible(date.value)
    ensures date.Some? && ResetDate(date.value, o.today).Err? ==> r == Err(ResetDate(date.value, o.today).error)
    ensures date.None? ==> (r.Ok? <==> s.coeffs.table.degree >= 1)
    ensures date.Some? ==> (r.Ok? <==> Evaluable(date.value, o))
    ensures date.None? && s.coeffs.table.degree == 0 ==> r == Err(IndexOutOfRange)
    ensures date.Some? && !Loads(date.value, o) ==> r == Err(LoadError(date.value, o))
    ensures date.Some? && Loads(date.value, o) && !Evaluable(date.value, o) ==> r == Err(IndexOutOfRange)
    ensures date.None? && r.Ok? ==>
      && r.value.coeffs.dates == s.coeffs.dates && r.value.coeffs.props == s.coeffs.props
      && ScaledOnce(r.value.coeffs.table, s.coeffs.table, o.root)
    ensures date.Some? && r.Ok? ==> ReloadedScaled(r.value.coeffs, date.value, o)
    ensures r.Ok? ==> Consistent(r.value)
    ensures r.Ok? ==>
      && r.value.latitude == latitude && r.value.longitude == longitude && r.value.height == height
      && r.value.frame == s.frame && EvaluatedState(r.value, o)
  {
    var coeffs := s.coeffs;
    if date.Some? {
      coeffs :- ResetCoefficients(date.value, o);
    }
    var N := coeffs.table.degree;
    if N == 0 {
      return Err(IndexOutOfRange);
    }
    var g := o.geo(latitude, longitude, height);
    var e, gh, xp, ySum, zp := Evaluate(coeffs, g, o);
    if e.cosLat != 0.0 {
      WrittenAgreesOffPole(e);
    }
    var field := FieldFor(e, xp, ySum, zp, g, s.frame, o, latitude, longitude);
    var table := Table(N, e.c, e.cd);
    r := Ok(WmmState(coeffs.(table := table), latitude, longitude, height, s.frame, Some(e), Some(gh), Some(field)));
  }

  /** The body of magnetic_field between the place and the elements: the tables of one
      evaluation, then the accumulation of equations 10 to 12. */
  method Evaluate(coeffs: Coeffs, g: Place, o: Outside) returns (e: Env, gh: Matrix, xp: real, yp: real, zp: real)
    requires WellFormedTable(coeffs.table) && coeffs.table.degree >= 1
    ensures e.N == coeffs.table.degree
    ensures EvaluatedAt(e, g, e.c, e.cd, Round1(coeffs.dates.dateDec) - coeffs.props.epoch)
    ensures ScaledOnce(Table(e.N, e.c, e.cd), coeffs.table, o.root)
    ensures Extrapolated(e, gh) && DegreeSums(e, xp, yp, zp, e.N + 1)
  {
    e := Tables(coeffs, g, o);
    var bp;
    xp, yp, zp, bp, gh := Accumulate(e);
  }

  /** The multiple-angle tables, t - t0 and the denormalisation sweep. */
  method Tables(coeffs: Coeffs, g: Place, o: Outside) returns (e: Env)
    requires WellFormedTable(coeffs.table) && coeffs.table.degree >= 1
    ensures e.N == coeffs.table.degree
    ensures EvaluatedAt(e, g, e.c, e.cd, Round1(coeffs.dates.dateDec) - coeffs.props.epoch)
    ensures ScaledOnce(Table(e.N, e.c, e.cd), coeffs.table, o.root)
  {
    var N := coeffs.table.degree;
    var sp, cp := AngleTables(N, g.sinLon, g.cosLon);
    var w := Sweep(coeffs.table, o.root, g.sinLat, g.cosLat);
    e := Env(N, w.c, w.cd, Round1(coeffs.dates.dateDec) - coeffs.props.epoch, sp, cp, w.P, w.dP, w.k, g.ar, g.sinLat, g.cosLat);
    SweptEnv(w, coeffs.table, o.root, e);
  }

  /** The denormalisation sweep over a packed table. */
  predicate SweptWork(w: Work, t: Table, root: real -> real, sinLat: real, cosLat: real) {
    && WellFormedTable(t) && Shaped(w, t.degree)
    && (forall i, j :: 0 <= i <= j <= t.degree ==>
      && w.P[i][j] == LegendreP(KFactor, sinLat, cosLat, i, j)
      && w.dP[i][j] == LegendreDP(KFactor, sinLat, cosLat, i, j))
    && ScaledOnce(Table(t.degree, w.c, w.cd), t, root)
  }

  method Sweep(t: Table, root: real -> real, sinLat: real, cosLat: real) returns (w: Work)
    requires WellFormedTable(t)
    ensures SweptWork(w, t, root, sinLat, cosLat)
  {
    w := Denormalize(t.degree, t.c, t.cd, root, sinLat, cosLat);
  }

  /** The environment assembled from a sweep carries its P, dP and scaled tables. */
  lemma SweptEnv(w: Work, t: Table, root: real -> real, e: Env)
    requires SweptWork(w, t, root, e.sinLat, e.cosLat) && t.degree >= 1
    requires e.N == t.degree && e.c == w.c && e.cd == w.cd && e.P == w.P && e.dP == w.dP && e.k == w.k
    requires |e.sp| == e.N + 1 && |e.cp| == e.N + 2
    ensures SweptP(e) && ScaledOnce(Table(e.N, e.c, e.cd), t, root)
    ensures forall m, n :: 0 <= m <= n <= e.N ==> e.dP[m][n] == LegendreDP(KFactor, e.sinLat, e.cosLat, m, n)
  {
  }

  /** The tail of magnetic_field: the sums, Y' by the corrected pole rule, the rotation
      of equation 17, the frame and the elements. */
  method FieldFor(e: Env, xp: real, ySum: real, zp: real, g: Place, frame: string, o: Outside, latitude: real, longitude: real)
    returns (f: Field)
    requires SweptP(e) && DegreeSums(e, xp, ySum, zp, e.N + 1)
    ensures f == FieldOf(Geocentric(e), g, frame, o, latitude, longitude)
  {
    var yp := EastComponent(e, ySum);
    EastIsReducedSum(e);
    var v := ToGeodetic(Vector(xp, yp, zp), g.sinPsi, g.cosPsi);
    if Upper(frame) == "ENU" {
      v := o.toEnu(v);
    }
    f := ElementsOf(o.root, o.atan2, v, latitude, longitude);
  }

  /** The calendar date the constructor hands back to magnetic_field: self.date as
      reset_date left it, which for a numeric date is the reconstructed calendar day. */
  function Redated(date: DateInput, o: Outside): (d: DateInput)
    requires ValidDay(o.today) && Admissible(date) && ResetDate(date, o.today).Ok?
    ensures d.Calendar? && Admissible(d)
  {
    var day := ResetDate(date, o.today).value.date;
    Calendar(day.year, day.yday)
  }

  /** WMM(date, latitude, longitude, height, frame): reset_coefficients, then the guard
      clauses, then magnetic_field at self.date when latitude and longitude are both
      non-zero. */
  method Construct(date: DateInput, latitude: Arg, longitude: Arg, height: Arg, frame: FrameArg, o: Outside)
    returns (r: Result<WmmState>)
    requires Sound(o) && Admissible(date)
    ensures ResetDate(date, o.today).Err? ==> r == Err(ResetDate(date, o.today).error)
    ensures !Loads(date, o) ==> r == Err(LoadError(date, o))
    ensures Loads(date, o) && GuardClauses(latitude, longitude, height, frame).Err? ==>
      r == Err(GuardClauses(latitude, longitude, height, frame).error)
    ensures (Loads(date, o) && GuardClauses(latitude, longitude, height, frame).Ok? && latitude.x != 0.0 && longitude.x != 0.0) ==>
      var d := Redated(date, o);
      && (!Loads(d, o) ==> r == Err(LoadError(d, o)))
      && (Loads(d, o) && !Evaluable(d, o) ==> r == Err(IndexOutOfRange))
    ensures r.Ok? <==>
      && Loads(date, o) && GuardClauses(latitude, longitude, height, frame).Ok?
      && (latitude.x != 0.0 && longitude.x != 0.0 ==> Evaluable(Redated(date, o), o))
    ensures r.Ok? ==> Consistent(r.value)
    ensures r.Ok? ==>
      && r.value.latitude == latitude.x && r.value.longitude == longitude.x && r.value.height == height.x
      && r.value.frame == frame.s
      && (r.value.field.Some? <==> latitude.x != 0.0 && longitude.x != 0.0)
      && Ok(r.value.coeffs.dates)
         == if r.value.field.Some? then ResetDate(Redated(date, o), o.today) else ResetDate(date, o.today)
    ensures r.Ok? && latitude.x != 0.0 && longitude.x != 0.0 ==>
      EvaluatedState(r.value, o) && ReloadedScaled(r.value.coeffs, Redated(date, o), o)
    ensures r.Ok? && (latitude.x == 0.0 || longitude.x == 0.0) ==>
      && r.value.last.None? && r.value.gh.None? && r.value.field.None?
      && Ok(r.value.coeffs.dates) == ResetDate(date, o.today)
      && Ok(r.value.coeffs.props) == GetProperties(FileName(r.value.coeffs.dates.file), o.files(r.value.coeffs.dates.file).text)
      && LoadedFrom(r.value.coeffs.table, o.files(r.value.coeffs.dates.file).rows)
  {
    var coeffs :- ResetCoefficients(date, o);
    var _ :- GuardClauses(latitude, longitude, height, frame);
    var s := WmmState(coeffs, latitude.x, longitude.x, height.x, frame.s, None, None, None);
    if latitude.x != 0.0 && longitude.x != 0.0 {
      r := MagneticField(s, latitude.x, longitude.x, height.x, Some(Calendar(coeffs.dates.date.year, coeffs.dates.date.yday)), o);
    } else {
      r := Ok(s);
    }
  }

  /** The magnetic_elements property: X, Y, Z, H, F, I, D and GV, all unset before the
      first evaluation. */
  function MagneticElements(s: WmmState): (f: Option<Field>)
    requires Consistent(s)
    ensures f.Some? <==> s.field.Some?
    ensures f.Some? ==> f.value == s.field.value
    ensures f.Some? ==> f.value.GV == Grivation(f.value.D, s.latitude, s.longitude)
  {
    s.field
  }

  /** Two calls of magnetic_field without a date: each denormalises the tables the
      previous one left behind, so every slot ends up multiplied by the square of its
      Schmidt factor. */
  method CallTwiceWithoutDate(s: WmmState, latitude: real, longitude: real, height: real, o: Outside)
    returns (r: Result<WmmState>)
    requires Sound(o) && WellFormedTable(s.coeffs.table)
    ensures r.Ok? <==> s.coeffs.table.degree >= 1
    ensures r.Ok? ==> r.value.coeffs.dates == s.coeffs.dates && ScaledTwice(r.value.coeffs.table, s.coeffs.table, o.root)
  {
    var first :- MagneticField(s, latitude, longitude, height, None, o);
    r := MagneticField(first, latitude, longitude, height, None, o);
    if r.Ok? {
      ScalingsCompose(r.value.coeffs.table, first.coeffs.table, s.coeffs.table, o.root);
    }
  }

  /** `after` is `before` with every g and h slot multiplied by the square of its Schmidt
      factor. */
  predicate ScaledTwice(after: Table, before: Table, root: real -> real) {
    && after.degree == before.degree && WellFormedTable(after) && WellFormedTable(before)
    && forall i, j :: 0 <= i <= before.degree && 0 <= j <= before.degree ==>
      && after.c[i][j] == before.c[i][j] * OwnerFactor(root, i, j) * OwnerFactor(root, i, j)
      && after.cd[i][j] == before.cd[i][j] * OwnerFactor(root, i, j) * OwnerFactor(root, i, j)
  }

  lemma ScalingsCompose(after: Table, mid: Table, before: Table, root: real -> real)
    requires ScaledOnce(after, mid, root) && ScaledOnce(mid, before, root)
    ensures ScaledTwice(after, before, root)
  {
  }

  /** The second scaling is visible: g_2^0 (slot [0][2]) has Schmidt factor 3/2, so a
      non-zero value is scaled to 9/4 of itself instead of 3/2. */
  lemma SecondScalingVisible(root: real -> real, g: real)
    requires g != 0.0
    ensures OwnerFactor(root, 0, 2) == 3.0 / 2.0
    ensures g * OwnerFactor(root, 0, 2) * OwnerFactor(root, 0, 2) != g * OwnerFactor(root, 0, 2)
  {
    OwnerFactorSlots(root, 0, 2);
    assert Schmidt(root, 0, 1) == 1.0;
  }

  /** The constructor evaluates at self.date, not at the argument: the numeric date
      2019.999 selects WMM2015, but the field is computed from WMM2020 at 1 January 2020. */
  lemma ConstructorRereadsDate(o: Outside)
    requires Sound(o)
    ensures ResetDate(Decimal(2019.999), o.today).Ok? && ResetDate(Decimal(2019.999), o.today).value.file == Wmm2015
    ensures Redated(Decimal(2019.999), o) == Calendar(2020, 1)
    ensures ResetDate(Redated(Decimal(2019.999), o), o.today).value.file == Wmm2020
  {
    DecimalRereadSwitchesFile(o.today);
  }

  /** With a true square root, a place on the unit circles and an orientation that keeps
      lengths, F is the length of the geocentric vector (X', Y', Z'), and H <= F. */
  lemma IntensityIsGeocentricNorm(p: Vector, g: Place, frame: string, o: Outside, latitude: real, longitude: real)
    requires IsSqrt(o.root) && OnCircles(g)
    requires Upper(frame) == "ENU" ==> forall v :: NormSq(o.toEnu(v)) == NormSq(v)
    ensures var f := FieldOf(p, g, frame, o, latitude, longitude);
      0.0 <= f.H <= f.F && f.F * f.F == NormSq(p)
  {
    RotationKeepsIntensity(p, g.sinPsi, g.cosPsi);
  }
}
