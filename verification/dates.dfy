/** Date handling of `reset_date` (ahrs/utils/wmm.py:542-555): the decimal date, the
    calendar date kept alongside it, and the choice of coefficient file. */
module Dates {
  import opened Outcomes

  /** The date argument as Python sees it: None, an int or float, a datetime.date
      (year and day of year), or a value of any other type. */
  datatype DateInput = NoDate | Decimal(value: real) | Calendar(year: int, yday: int) | OtherType

  /** A calendar date as year and day of the year (1-based, `tm_yday`). */
  datatype Day = Day(year: int, yday: int)

  /** The two coefficient files shipped with the package. */
  datatype CofFile = Wmm2015 | Wmm2020

  /** What reset_date leaves on the object: `date`, `date_dec` and `wmm_filename`. */
  datatype DateState = DateState(date: Day, dateDec: real, file: CofFile)

  /** Earliest year with coefficients. */
  const FirstYear: int := 2015
  /** Decimal date from which the WMM2020 coefficients are used. */
  const Switch2020: real := 2020.0
  /** datetime.MINYEAR and datetime.MAXYEAR. */
  const MinYear: int := 1
  const MaxYear: int := 9999

  function FileName(f: CofFile): string {
    match f
    case Wmm2015 => "WMM2015/WMM.COF"
    case Wmm2020 => "WMM2020/WMM.COF"
  }

  predicate IsLeap(y: int) {
    (y % 4 == 0 && y % 100 != 0) || y % 400 == 0
  }

  function DaysInYear(y: int): int {
    if IsLeap(y) then 366 else 365
  }

  predicate ValidDay(d: Day) {
    MinYear <= d.year <= MaxYear && 1 <= d.yday <= DaysInYear(d.year)
  }

  /** Python's int() of a float: truncation toward zero. */
  function Trunc(x: real): (r: int)
    ensures x >= 0.0 ==> r as real <= x < r as real + 1.0
    ensures x < 0.0 ==> r as real - 1.0 < x <= r as real
  {
    if x >= 0.0 then x.Floor else -((-x).Floor)
  }

  /** Python's round() of a number: to the nearest integer, ties to the even one. */
  function RoundHalfEven(x: real): (r: int)
    ensures -0.5 <= r as real - x <= 0.5
    ensures r as real - x == 0.5 || x - r as real == 0.5 ==> r % 2 == 0
  {
    var f := x.Floor;
    var d := x - f as real;
    if d < 0.5 then f
    else if d > 0.5 then f + 1
    else if f % 2 == 0 then f
    else f + 1
  }

  /** Python's round(x, 1): to the nearest tenth, ties to an even last digit. */
  function Round1(x: real): (r: real)
    ensures -0.05 <= r - x <= 0.05
    ensures (r * 10.0).Floor as real == r * 10.0
    ensures r - x == 0.05 || x - r == 0.05 ==> (r * 10.0).Floor % 2 == 0
  {
    RoundHalfEven(x * 10.0) as real / 10.0
  }

  /** date(y, 1, 1).toordinal(): proleptic Gregorian day number, 0001-01-01 being day 1. */
  function NewYearOrdinal(y: int): int
    requires y >= 1
  {
    1 + 365 * (y - 1) + (y - 1) / 4 - (y - 1) / 100 + (y - 1) / 400
  }

  /** date.fromordinal(round(date(int(v), 1, 1).toordinal() + frac(v) * 365)): the
      calendar date reset_date attaches to a numeric date. The rounding is applied to the
      whole ordinal, so a tie goes to the even day number. datetime refuses years outside
      1..9999. */
  function FromDecimal(v: real): (r: Result<Day>)
    ensures Trunc(v) < MinYear || Trunc(v) > MaxYear ==> r == Err(DateOutOfRange)
    ensures MinYear <= Trunc(v) < MaxYear ==> r.Ok?
    ensures r.Ok? ==> ValidDay(r.value)
    ensures r.Ok? ==> r.value.year == Trunc(v) || (r.value.year == Trunc(v) + 1 && r.value.yday == 1)
    ensures r.Ok? && r.value.year == Trunc(v) ==>
      var z := (v - Trunc(v) as real) * 365.0;
      var d := (r.value.yday - 1) as real;
      && -0.5 <= d - z <= 0.5
      && (d - z == 0.5 || z - d == 0.5 ==> (NewYearOrdinal(r.value.year) + r.value.yday - 1) % 2 == 0)
    ensures r.Ok? && r.value.year == Trunc(v) + 1 ==>
      var z := (v - Trunc(v) as real) * 365.0;
      var len := DaysInYear(Trunc(v));
      && z >= len as real - 0.5
      && (z == len as real - 0.5 ==> (NewYearOrdinal(Trunc(v)) + len) % 2 == 0)
  {
    var y := Trunc(v);
    if y < MinYear || y > MaxYear then Err(DateOutOfRange)
    else
      var ord := NewYearOrdinal(y);
      var offset := RoundHalfEven(ord as real + (v - y as real) * 365.0) - ord;
      assert 0 <= offset <= 365;
      if offset < DaysInYear(y) then Ok(Day(y, offset + 1))
      else if y + 1 > MaxYear then Err(DateOutOfRange)
      else Ok(Day(y + 1, 1))
  }

  /** A date written as year + (yday - 1)/365 is read back as the same calendar date. */
  lemma DecimalRoundTrip(d: Day)
    requires ValidDay(d) && d.yday <= 365
    ensures FromDecimal(d.year as real + (d.yday - 1) as real / 365.0) == Ok(d)
  {
    var v := d.year as real + (d.yday - 1) as real / 365.0;
    assert Trunc(v) == d.year;
    var ord := NewYearOrdinal(d.year);
    assert (v - d.year as real) * 365.0 == (d.yday - 1) as real;
    assert RoundHalfEven(ord as real + (v - d.year as real) * 365.0) == ord + d.yday - 1;
  }

  /** year + tm_yday/365.0 */
  function CalendarDecimal(d: Day): real {
    d.year as real + d.yday as real / 365.0
  }

  /** reset_date: the decimal and calendar date for each kind of argument (`today` stands
      for datetime.date.today()), rejection of years before 2015, and the file choice:
      WMM2015 exactly when the decimal date is below 2020.0, with no upper bound. */
  function ResetDate(date: DateInput, today: Day): (r: Result<DateState>)
    requires ValidDay(today)
    requires date.Calendar? ==> ValidDay(Day(date.year, date.yday))
    ensures date.OtherType? ==> r == Err(InvalidType)
    ensures r.Ok? ==> r.value.date.year >= FirstYear && ValidDay(r.value.date)
    ensures r.Ok? ==> (r.value.file == Wmm2015 <==> r.value.dateDec < Switch2020)
    ensures date.Calendar? ==> (r.Ok? <==> date.year >= FirstYear)
    ensures date.Calendar? && r.Ok? ==>
      r.value.date == Day(date.year, date.yday) && r.value.dateDec == CalendarDecimal(r.value.date)
    ensures date.NoDate? ==> (r.Ok? <==> today.year >= FirstYear)
    ensures date.NoDate? && r.Ok? ==> r.value.date == today && r.value.dateDec == CalendarDecimal(today)
    ensures date.Decimal? && r.Ok? ==> r.value.dateDec == date.value && Ok(r.value.date) == FromDecimal(date.value)
    ensures date.Decimal? && FromDecimal(date.value).Ok? ==>
      (r.Ok? <==> FromDecimal(date.value).value.year >= FirstYear)
    ensures date.Decimal? && FromDecimal(date.value).Err? ==> r == Err(FromDecimal(date.value).error)
    ensures r.Err? && !date.OtherType? && !(date.Decimal? && FromDecimal(date.value).Err?) ==>
      r.error == NoCoefficients
  {
    var (day, dec) :- match date
      case NoDate => Ok((today, CalendarDecimal(today)))
      case Decimal(v) => (var d :- FromDecimal(v); Ok((d, v)))
      case Calendar(y, yd) => Ok((Day(y, yd), CalendarDecimal(Day(y, yd))))
      case OtherType => Err(InvalidType);
    if day.year < FirstYear then Err(NoCoefficients)
    else Ok(DateState(day, dec, if dec < Switch2020 then Wmm2015 else Wmm2020))
  }

  /** The epoch boundary: 2019.999 still uses WMM2015, 2020.0 uses WMM2020. */
  lemma EpochBoundary(today: Day)
    requires ValidDay(today)
    ensures ResetDate(Decimal(2019.999), today).Ok?
    ensures ResetDate(Decimal(2019.999), today).value.file == Wmm2015
    ensures ResetDate(Decimal(2020.0), today).Ok?
    ensures ResetDate(Decimal(2020.0), today).value.file == Wmm2020
  {
    assert Trunc(2019.999) == 2019;
    assert Trunc(2020.0) == 2020;
  }

  /** 31 December 2019 (day 365 of a common year) has decimal date 2020.0 and so is
      evaluated with the WMM2020 coefficients. */
  lemma LastDayOf2019UsesWmm2020(today: Day)
    requires ValidDay(today)
    ensures ResetDate(Calendar(2019, 365), today) == Ok(DateState(Day(2019, 365), 2020.0, Wmm2020))
  {
  }

  /** There is no upper bound: any later calendar year is accepted with WMM2020. */
  lemma LateDatesUseWmm2020(y: int, yd: int, today: Day)
    requires ValidDay(today) && ValidDay(Day(y, yd)) && y >= 2020
    ensures ResetDate(Calendar(y, yd), today).Ok?
    ensures ResetDate(Calendar(y, yd), today).value.file == Wmm2020
  {
  }

  /** The year test looks at the reconstructed calendar date, not at the number: 2014.999
      rounds to day 365 of 2014, i.e. 1 January 2015, and is accepted. */
  lemma LateDecimal2014Accepted(today: Day)
    requires ValidDay(today)
    ensures FromDecimal(2014.999) == Ok(Day(2015, 1))
    ensures ResetDate(Decimal(2014.999), today).Ok?
    ensures ResetDate(Decimal(2014.999), today).value.file == Wmm2015
  {
    assert Trunc(2014.999) == 2014;
    assert RoundHalfEven(NewYearOrdinal(2014) as real + (2014.999 - 2014.0) * 365.0) == NewYearOrdinal(2014) + 365;
  }

  /** Half a day before the end of a year the ordinal ties, and the even one wins: in 2017
      that is 31 December (ordinal 736694), in 2018 it is New Year 2019 (ordinal 737060). */
  lemma YearEndTies()
    ensures FromDecimal(2017.0 + 364.5 / 365.0) == Ok(Day(2017, 365))
    ensures FromDecimal(2018.0 + 364.5 / 365.0) == Ok(Day(2019, 1))
  {
    assert Trunc(2017.0 + 364.5 / 365.0) == 2017;
    assert RoundHalfEven(NewYearOrdinal(2017) as real + 364.5) == NewYearOrdinal(2017) + 364;
    assert Trunc(2018.0 + 364.5 / 365.0) == 2018;
    assert RoundHalfEven(NewYearOrdinal(2018) as real + 364.5) == NewYearOrdinal(2018) + 365;
  }

  /** A numeric date and the calendar date reset_date derives from it can round to
      different tenths of a year: 2017.149 becomes day 55 of 2017, whose decimal date
      2017 + 55/365 rounds to 2017.2 while 2017.149 rounds to 2017.1. */
  lemma NumericDateDrifts()
    ensures FromDecimal(2017.149) == Ok(Day(2017, 55))
    ensures Round1(2017.149) == 2017.1
    ensures Round1(CalendarDecimal(Day(2017, 55))) == 2017.2
  {
    assert Trunc(2017.149) == 2017;
    assert RoundHalfEven(NewYearOrdinal(2017) as real + (2017.149 - 2017.0) * 365.0) == NewYearOrdinal(2017) + 54;
    assert RoundHalfEven(2017.149 * 10.0) == 20171;
    assert RoundHalfEven(CalendarDecimal(Day(2017, 55)) * 10.0) == 20172;
  }

  /** A numeric date late in 2019 is still a WMM2015 date, but the calendar day attached
      to it is 1 January 2020, which read again as a calendar date selects WMM2020. */
  lemma DecimalRereadSwitchesFile(today: Day)
    requires ValidDay(today)
    ensures ResetDate(Decimal(2019.999), today) == Ok(DateState(Day(2020, 1), 2019.999, Wmm2015))
    ensures ResetDate(Calendar(2020, 1), today) == Ok(DateState(Day(2020, 1), 2020.0 + 1.0 / 365.0, Wmm2020))
  {
    assert Trunc(2019.999) == 2019;
    assert RoundHalfEven(NewYearOrdinal(2019) as real + (2019.999 - 2019.0) * 365.0) == NewYearOrdinal(2019) + 365;
  }
}
