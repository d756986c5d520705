# World Magnetic Model evaluation, modelled in Dafny

This project models the `WMM` class of `ahrs/utils/wmm.py`, which evaluates the World
Magnetic Model (WMM2015 and WMM2020) at a place and date. All quantities are `real`. The
floating-point trigonometry is replaced by parameters: sines and cosines on the unit
circle, an abstract square root and an abstract arctangent. Under those parameters the
discrete skeleton is modelled and verified. It covers:

- **Coefficient loading** (`coefficients.dfy`): packing the rows `(n, m, g, h, gd, hd)`
  of a COF file into the square tables `c` and `cd`. `g_n^m` sits at `[m][n]` and `h_n^m`
  at the transposed slot `[n][m-1]`.
- **Date selection** (`dates.dfy`): `reset_date`, covering the decimal date, the calendar
  day attached to a numeric date, the 2015 cut-off and the WMM2015/WMM2020 choice.
- **COF header** (`header.dfy`): `get_properties`, the whitespace split of the first line
  of a COF file.
- **Argument checks** (`guard.dfy`): `_guard_clauses`.
- **Reference recursions** (`legendre.dfy`): the Schmidt factors S, the k table, and the
  Gauss-normalised Legendre functions P and their derivatives dP.
- **Denormalisation** (`denormalize.dfy`): `denormalize_coefficients` as one loop over
  `[m][n]` tables. It fills S, k, P and dP and scales `c` and `cd` in place.
- **Synthesis** (`synthesis.dfy`): the multiple-angle tables, the secular extrapolation
  `g + dt gd`, and the accumulation of X', Y', Z' and of the pole accumulator Bp
  (equations 9 to 12 of the WMM report).
- **Pole rule** (`pole.dfy`): the east component at and away from the geographic poles.
- **Field elements** (`elements.dfy`): the rotation to geodetic axes (equation 17), the
  elements H, F, I and D (equation 19), and grivation (equation 1).
- **The object** (`facade.dfy`): the constructor, `reset_coefficients`, `magnetic_field`
  and `magnetic_elements`. They run over an immutable state record, and each call returns
  the new state or the exception as an `Err` (`outcomes.dfy`).

## Notes

Details of the code that the model follows:

- `dP[0][0]` is 0, because `dP` starts as a zero matrix.
- The diagonal derivative is `cos * dP + sin * P`.
- S is stepped along the order m within each degree n. The Kronecker delta fires only
  at m = 1.
- At n = 1 the recursion reads `P[m][n-2]` with n - 2 = -1, which in Python is the last
  column. `Matrices.Wrap` models that index. The read carries the weight `k[0][1]`, which
  is zero (`Legendre.SubDiagonalIgnoresOutsideCell`), so the value found there never matters.
- A numeric date is turned into a calendar day through the proleptic ordinal and Python's
  round-half-even. The constructor later hands that calendar day, not the number, back to
  `magnetic_field` (`Wmm.ConstructorRereadsDate`).

The pole branch is corrected in the model (see Findings). `Wmm.MagneticField` computes Y'
with `Pole.EastComponent`. The loop as written is kept in `Synthesis.PoleBranch` (its closed form is `Synthesis.BpClosedForm`) and
`Synthesis.BpAsWritten`, and `Synthesis.Accumulate` states what it produces.
`Wmm.WrittenGeocentric` assembles X', Y', Z' as the program does, with `Pole.EastAsWritten`.
Off the poles it is the corrected vector (`Wmm.WrittenAgreesOffPole`); at a pole it is not
(`Wmm.WrittenDiffersAtPole`).

## Model

| member | source | states |
|---|---|---|
| Coefficients.LoadCoefficients | ahrs/utils/wmm.py:477-487 | Fails with `FlatTable` exactly when there are fewer than two data rows: the array reader then returns a one-dimensional array and the column slice `data[:, 0]` raises IndexError. Otherwise the degree is the largest n and is attained by some row, both tables are (degree+1)x(degree+1), and every cell holds the g, h, gd or hd of its owner's last row, or 0 when no row names the owner |
| Coefficients.SlotLayout | ahrs/utils/wmm.py:483-487 | For 0 <= m <= n <= N the g slot [m][n] lies on or above the diagonal and the h slot [n][m-1] strictly below it, both in bounds; the owner of a slot is recovered from the slot |
| Coefficients.SlotsCollisionFree | ahrs/utils/wmm.py:483-487 | Two coefficients (g or h) of a degree-N model that share a slot are the same coefficient |
| Coefficients.RowSurvivesPacking | ahrs/utils/wmm.py:481-487 | A row whose (n, m) no later row repeats keeps all four of its values in its own slots: no other row's g or h overwrites them |
| Coefficients.MaxDegree | ahrs/utils/wmm.py:478 | The degree bounds every row's n and equals the n of some row |
| Matrices.Wrap | ahrs/utils/wmm.py:696-697 | A Python index in -len..len-1 addresses a slot in range that is congruent to the index modulo len |
| Matrices.WrapUnique | ahrs/utils/wmm.py:696-697 | That slot is the only one in range congruent to the index, so the wrapped read is determined |
| Dates.ResetDate | ahrs/utils/wmm.py:542-555 | No date gives today; a number keeps its value as the decimal date and gets the reconstructed calendar day; a calendar date gets year + yday/365; any other type fails. A numeric date outside the calendar fails as `FromDecimal` does; every other failure is a year before 2015 (`NoCoefficients`), and otherwise the result is a valid day. WMM2015 is chosen exactly when the decimal date is below 2020.0, with no upper bound |
| Dates.FromDecimal | ahrs/utils/wmm.py:547 | The calendar day of a numeric date is a valid day of its truncated year, or 1 January of the next year; years outside 1..9999 fail. Within the year, yday - 1 lies within half a day of frac(v) * 365, and on a tie the day's ordinal is even. The next New Year is chosen only when frac(v) * 365 is at least the year's length minus half a day, and on that tie only when New Year's ordinal is even |
| Dates.DecimalRoundTrip | ahrs/utils/wmm.py:547 | The number year + (yday-1)/365 is read back as exactly that calendar day |
| Dates.Round1 | ahrs/utils/wmm.py:799 | round(x, 1) lies within 0.05 of x and is a whole number of tenths; when x lies exactly halfway between two tenths, the even tenth is chosen |
| Dates.YearEndTies | ahrs/utils/wmm.py:547 | Half a day before the end of 2017 the ordinal tie keeps 31 December; in 2018 it moves to 1 January 2019 |
| Dates.EpochBoundary | ahrs/utils/wmm.py:555 | 2019.999 selects WMM2015 and 2020.0 selects WMM2020 |
| Dates.LastDayOf2019UsesWmm2020 | ahrs/utils/wmm.py:548-555 | 31 December 2019 has decimal date 2020.0 and so is evaluated with WMM2020 |
| Dates.LateDatesUseWmm2020 | ahrs/utils/wmm.py:553-555 | Every valid calendar date from 2020 on is accepted with WMM2020 |
| Dates.LateDecimal2014Accepted | ahrs/utils/wmm.py:545-554 | The year test is applied to the reconstructed day: 2014.999 becomes 1 January 2015 and is accepted |
| Dates.NumericDateDrifts | ahrs/utils/wmm.py:545-547 | A number and its reconstructed day can round to different tenths of a year (2017.149 against day 55 of 2017) |
| Dates.DecimalRereadSwitchesFile | ahrs/utils/wmm.py:545-555 | 2019.999 is a WMM2015 date attached to 1 January 2020, and that calendar day read again selects WMM2020 |
| Header.GetProperties | ahrs/utils/wmm.py:516-521 | A name not ending in `.COF` fails with the type error, and a first line without tokens fails. Otherwise the call succeeds exactly when the first token parses as a float, fails with `BadEpoch` when it does not, and the epoch is that float, and the model and release date are the second and third tokens when present |
| Header.SplitJoin | ahrs/utils/wmm.py:519 | Splitting the space-joined words gives the words back |
| Header.HeaderRoundTrip | ahrs/utils/wmm.py:516-521 | A header "<year>.0 <model> <date>" followed by data lines is read back as exactly that epoch, model and date |
| Guard.GuardClauses | ahrs/utils/wmm.py:398-409 | The call passes exactly when all three numbers and the frame have the right type, \|latitude\| <= 90, \|longitude\| <= 180 and the upper-cased frame is NED or ENU. Failures are reported in that order |
| Guard.FrameAcceptedIffCaseVariant | ahrs/utils/wmm.py:408 | A frame is accepted exactly when it spells NED or ENU in any mixture of letter cases |
| Guard.BoundariesAccepted | ahrs/utils/wmm.py:404-409 | ±90, ±180, "ned" and "Enu" are accepted, while 90.5, -180.5 and "NEU" are rejected with the matching error |
| Legendre.SchmidtPositive | ahrs/utils/wmm.py:683-688 | Every Schmidt factor is strictly positive |
| Legendre.SchmidtZonal | ahrs/utils/wmm.py:683 | Along order 0, S[0][n] · n! = (2n-1)!! |
| Legendre.KFactor | ahrs/utils/wmm.py:686 | k[m][n] times (2n-1)(2n-3) is (n-1)² - m² for every integer n: the denominator is never zero, so k is always defined |
| Legendre.KVanishesOnSubDiagonal | ahrs/utils/wmm.py:686 | k[n-1][n] = 0 |
| Legendre.SubDiagonalIgnoresOutsideCell | ahrs/utils/wmm.py:696-697 | On the sub-diagonal m = n-1, the recursions give the reference P and dP whatever the cell [m][n-2] holds, including the wrapped column at n = 1 |
| Legendre.OffDiagonalRecursion | ahrs/utils/wmm.py:696-697 | The reference functions obey the off-diagonal recursions for any k table |
| Legendre.LowDegrees | ahrs/utils/wmm.py:692-697 | Closed forms of P and dP for degrees 1 and 2 |
| Legendre.LegendreFactorsCos | ahrs/utils/wmm.py:693-696 | Every P[m][n] with m >= 1 is cos(phi') times the reduced function |
| Legendre.HigherOrdersVanishAtPole | ahrs/utils/wmm.py:824-827 | At a geographic pole every P[m][n] with m >= 1 is zero |
| Denormalization.Denormalize | ahrs/utils/wmm.py:676-699 | After the sweep, every triangle cell of S, k, P and dP equals its reference definition, and every cell of c and cd is its old value times the Schmidt factor of its owner |
| Denormalization.OrderStep | ahrs/utils/wmm.py:685-699 | One inner-loop step keeps the sweep invariant: visited cells hold reference values and visited coefficients are scaled exactly once |
| Denormalization.OwnerFactorSlots | ahrs/utils/wmm.py:689-699 | The g slot [m][n] (n >= 1) and the h slot [n][m-1] (m >= 1) are both scaled by S[m][n], [0][0] by 1, and with a true square root the factor is positive |
| Synthesis.AngleTables | ahrs/utils/wmm.py:792-798 | sp has length N+1 and cp length N+2; entries 0..N are sin(m λ) and cos(m λ) by angle addition, and cp[N+1] stays 1 |
| Synthesis.MultipleAnglesOnUnitCircle | ahrs/utils/wmm.py:796-798 | The tables stay on the unit circle when sin λ and cos λ are on it |
| Synthesis.AngleAddition | ahrs/utils/wmm.py:796-798 | The tables obey the addition theorems for (a+b) λ |
| Synthesis.ExtrapolationProperties | ahrs/utils/wmm.py:812-817 | g + dt · gd is exact at dt = 0 and composes over consecutive intervals |
| Synthesis.Accumulate | ahrs/utils/wmm.py:800-830 | X', the undivided Y' sum and Z' are the weighted double sums of equations 10 to 12. Bp is the pole accumulator as written at a pole and 0 elsewhere. gh holds c + dt cd in every coefficient cell except [0][0], and zeros elsewhere |
| Synthesis.DegreeTerms | ahrs/utils/wmm.py:810-827 | One degree's order loop yields the three order sums and the pole update, and writes gh through that degree |
| Synthesis.BpClosedForm | ahrs/utils/wmm.py:823-827 | After degrees 1..n, Bp is the sum over j of (a/r)^(j+2) times the order-1 g sin - h cos of degree j, times the product of sin - k[1][i] over every degree i from max(j, 2) to n: each degree is weighted again by every later one |
| Pole.EastIsReducedSum | ahrs/utils/wmm.py:831 | At every latitude the corrected east component equals the sum over the reduced functions P/cos. At the poles it is the pole sum, elsewhere the sum divided by cos |
| Pole.CorrectedOffPole | ahrs/utils/wmm.py:831 | Off the poles, dividing the accumulated east sum by cos gives the reduced sum |
| Pole.CorrectedAtPole | ahrs/utils/wmm.py:824-827 | At a pole the reduced sum keeps only order 1, degree by degree |
| Pole.PoleAccumulatorDiffers | ahrs/utils/wmm.py:824-831 | On a degree-3 model at the north pole, the Bp loop as written gives 4/5 where the pole sum gives 1 |
| Elements.RotationKeepsIntensity | ahrs/utils/wmm.py:833-835 | The rotation of equation 17 keeps X² + Y² + Z² |
| Elements.RotationUndone | ahrs/utils/wmm.py:833-835 | Rotating back by -psi restores the geocentric components |
| Elements.ElementsOf | ahrs/utils/wmm.py:840-849 | X, Y and Z are the rotated components. With a true square root, 0 <= H <= F, H² = X² + Y² and F² = X² + Y² + Z². GV is the grivation of D |
| Elements.GrivationBands | ahrs/utils/wmm.py:845-849 | Above 55° the grivation is D minus the longitude, below -55° D plus the longitude, and D in between; exactly one of the three bands applies |
| Elements.GrivationInvertible | ahrs/utils/wmm.py:845-849 | The declination is recovered from the grivation at the same place |
| Elements.GrivationMirrors | ahrs/utils/wmm.py:845-849 | Mirroring the place through the Earth's centre leaves the grivation unchanged |
| Wmm.ResetCoefficients | ahrs/utils/wmm.py:433-435 | Succeeds exactly when the date, the header and a row set of at least two rows all pass. Every failure is `LoadError`: the reset_date error, else the get_properties error, else `FlatTable`. On success the dates and header are those of reset_date and get_properties, and the tables are packed from the chosen file |
| Wmm.MagneticField | ahrs/utils/wmm.py:782-849 | With a date, it fails with the `LoadError` of reset_coefficients when the date does not load, and with IndexOutOfRange when it loads a table of degree 0. Without a date it fails with IndexOutOfRange exactly when the held degree is 0. Without a date, it keeps dates and header and scales the tables already held once more. On success it stores the place, keeps the frame, uses dt = round(date_dec, 1) - epoch, stores gh holding c + dt cd in every coefficient cell except [0][0], and the elements are those of the geocentric sums rotated, oriented and measured. Off the poles they equal the elements of the components as the program writes them (`WrittenGeocentric`) |
| Wmm.Construct | ahrs/utils/wmm.py:382-396 | The `LoadError` of the date comes first and the guard error second. When both pass and the place is non-zero, the second reset at the attached calendar day fails with its own `LoadError`, or with IndexOutOfRange on a degree-0 table. The field is computed exactly when latitude and longitude are both non-zero, and then at the calendar day reset_date attached: the object then holds the date, header and once-scaled tables of that second reset, the tables of the evaluation at the given place, gh, and the elements of the geocentric components there. Otherwise it holds the date, header and packed tables of the first reset and no elements |
| Wmm.MagneticElements | ahrs/utils/wmm.py:851-874 | Returns exactly the stored elements, unset before the first evaluation; once computed they carry the grivation rule for the stored place |
| Wmm.CallTwiceWithoutDate | ahrs/utils/wmm.py:782-801 | Two calls without a date leave every slot multiplied by the square of its Schmidt factor |
| Wmm.SecondScalingVisible | ahrs/utils/wmm.py:683-699 | g_2^0 has factor 3/2, so a second scaling gives a non-zero value 9/4 of itself instead of 3/2 |
| Wmm.NeverNotCof | ahrs/utils/wmm.py:516-517 | The extension check of get_properties never fires inside reset_coefficients, since both files it can choose end in .COF |
| Wmm.WrittenAgreesOffPole | ahrs/utils/wmm.py:823-831 | Away from the poles, the components the loop as written produces (Y' = the east sum over cos) are the corrected ones |
| Wmm.WrittenDiffersAtPole | ahrs/utils/wmm.py:823-831 | On the degree-3 north-pole model, the program's Y' (Bp) is 4/5 while the corrected Y' is 1 |
| Wmm.ConstructorRereadsDate | ahrs/utils/wmm.py:388-396 | 2019.999 selects WMM2015, but the constructor evaluates the field at 1 January 2020, with WMM2020 |
| Wmm.IntensityIsGeocentricNorm | ahrs/utils/wmm.py:833-841 | With a true square root, a place on the unit circles and a length-keeping ENU rotation, F is the length of (X', Y', Z') and H <= F |

## Left out

- Wmm.MagneticField: at a geographic pole (cos φ′ = 0) the elements come from the corrected
  pole sum, not from the program's `Bp` (see Findings). Everywhere else they equal the
  elements of the program's components `Wmm.WrittenGeocentric`.
- File access (`pkgutil.get_data`) and `np.genfromtxt`, including its comment sentinel
  999999 and header skip. The data rows and the header text of each file are parameters
  (`Wmm.CofData`).
- Data rows are required to satisfy 0 <= m <= n. The shipped files do, and the code's
  behaviour on other rows depends on numpy's negative indexing.
- `datetime.date.today()` is a parameter. Calendar dates are given as year and day of
  year, assumed valid, because `datetime.date` cannot hold any other.
- Floating point throughout. `sin`, `cos`, `arcsin` and the WGS 84 ellipsoid numerics
  inside `geodetic2spherical` (ahrs/utils/wmm.py:260-267) are replaced by the parameter
  `Outside.geo`, which yields the sines, cosines and a/r of a place. `np.sqrt` and
  `np.linalg.norm` become `root`. `np.arctan2` with the degree conversion becomes `atan2`.
- `ned2enu` and the constants module (DEG2RAD, Earth radii, Munich defaults) are not
  part of this model. ned2enu is the parameter `toEnu`.
- `Guard.Upper`: models `str.upper` on ASCII letters only, because the frame names are ASCII.
- Python's `bool` being an `int`: `True` passes the type checks. `Guard.Arg` has only
  numbers and other types.
- The default argument of `magnetic_field` is `datetime.date.today()` evaluated at
  import time, so an omitted date reloads the coefficients for that day. `Wmm.MagneticField`
  takes an `Option`: `None` is an explicit `date=None` and `Some` is any date, the default
  included.
- The attributes a Python call leaves half-updated before raising. An `Err` returns no state.
- `Header.GetProperties`: a header without model or release date leaves the previous
  attribute in place in Python. Here it is `None`.
- `Header.GetProperties`: `float()` is modelled on plain decimal notation only, without
  exponents, `inf` or `nan`. Any other first token is `BadEpoch`.
- The regression values in the docstrings (ahrs/utils/wmm.py:139-161), which need real
  floating-point evaluation.
- The numeric values of I and D: they are `atan2` of the components and are stated only
  through the parameter.

## Findings

| source | as written | input that shows it | evidently intended | confidence | as-written member | corrected member |
|---|---|---|---|---|---|---|
| ahrs/utils/wmm.py:824-831 | At a geographic pole, `Bp` adds the degree-n order-1 term and then, for n > 1, multiplies the whole running total by `sin_lat - k[1, n]`. Earlier degrees are weighted again at every later degree (`Synthesis.BpClosedForm`), and the recursion's n-2 term is missing | Degree-3 model, only g_1^1 = 1, north pole (sin = 1, cos = 0), longitude 90°, a/r = 1, dt = 0: Bp = 4/5 | Y' at a pole is the sum over degrees of (a/r)^(n+2) times the order-1 g sin - h cos times the pole value of P[1][n]/cos, the continuous extension of Y'/cos. It gives 1 on this input | not executed | Pole.PoleAccumulatorDiffers | Pole.EastIsReducedSum |
