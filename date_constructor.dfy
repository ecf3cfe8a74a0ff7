/**
 * `new Date(year, month, date)` (section 20.3.2.1 of ECMA-262 6th edition)
 * with hours, minutes, seconds and milliseconds left at 0: the two-digit year
 * rule, MakeDay (section 20.3.1.13), MakeDate (section 20.3.1.14), the
 * conversion from local time to UTC (section 20.3.1.10) and TimeClip
 * (section 20.3.1.15).
 *
 * The host's local time zone adjustment LocalTZA (section 20.3.1.7) is the
 * parameter `tza`, in milliseconds; daylight saving time is not modelled
 * (DaylightSavingTA is taken to be 0).
 */
module DateConstructor {
  import opened JsValues
  import opened Calendar

  /** Time values lie within 8.64e15 ms of the epoch (section 20.3.1.1). */
  const MaxTimeValue: int := 8640000000000000

  predicate InTimeRange(t: int) {
    -MaxTimeValue <= t <= MaxTimeValue
  }

  /** The year argument after the two-digit rule: a year whose integer part
      is 0 to 99 means 1900 to 1999. */
  function FullYear(year: JsNumber): (yr: JsNumber)
    ensures !year.Finite? ==> yr == year
    ensures year.Finite? ==> yr.Finite?
  {
    match year
    case Finite(y) =>
      if 0 <= ToInteger(y) <= 99 then Finite((1900 + ToInteger(y)) as real) else year
    case _ => year
  }

  /** The time value of `new Date(year, month, date)`, or None for NaN. */
  function NewDate(year: JsNumber, month: JsNumber, date: JsNumber, tza: int): (t: Option<int>)
    ensures t.Some? ==> InTimeRange(t.value)
  {
    var yr := FullYear(year);
    if !yr.Finite? || !month.Finite? || !date.Finite? then None  // MakeDay of a non-finite argument
    else
      var day := MakeDay(ToInteger(yr.value), ToInteger(month.value), ToInteger(date.value));
      var utc := day * MsPerDay - tza;  // MakeDate(day, 0) converted to UTC
      if InTimeRange(utc) then Some(utc) else None  // TimeClip
  }

  /** The local civil date of a time value (getFullYear, getMonth, getDate). */
  function LocalDate(t: int, tza: int): CivilDate {
    CivilOf((t + tza) / MsPerDay)
  }

  /** The milliseconds since local midnight of a time value. */
  function LocalTimeOfDay(t: int, tza: int): int {
    (t + tza) % MsPerDay
  }

  /** An argument that is NaN or infinite makes the date NaN. */
  lemma NewDateNonFinite(year: JsNumber, month: JsNumber, date: JsNumber, tza: int)
    requires !year.Finite? || !month.Finite? || !date.Finite?
    ensures NewDate(year, month, date, tza) == None
  {
  }

  /** Local midnight of day number `day` is that day's start in local time. */
  lemma LocalMidnight(day: int, tza: int)
    ensures LocalDate(day * MsPerDay - tza, tza) == CivilOf(day)
    ensures LocalTimeOfDay(day * MsPerDay - tza, tza) == 0
  {
    assert (day * MsPerDay - tza + tza) / MsPerDay == day;
  }

  /** The two-digit year rule on an integer year. */
  function TwoDigitYear(y: int): (yr: int)
    ensures 0 <= y <= 99 ==> yr == 1900 + y
    ensures !(0 <= y <= 99) ==> yr == y
  {
    if 0 <= y <= 99 then 1900 + y else y
  }

  /** With finite arguments the date is NaN only when it falls outside the
      time value range: no day or month is rejected, they are carried over
      (MakeDayNormalises). LocalMidnight tells which local date a date that
      is not NaN shows. */
  lemma NewDateOfIntegers(y: int, m: int, dt: int, tza: int)
    ensures var t := MakeDay(TwoDigitYear(y), m, dt) * MsPerDay - tza;
            NewDate(Finite(y as real), Finite(m as real), Finite(dt as real), tza)
              == (if InTimeRange(t) then Some(t) else None)
  {
    var yr := TwoDigitYear(y);
    assert ToInteger(y as real) == y && ToInteger(m as real) == m && ToInteger(dt as real) == dt;
    assert ToInteger(yr as real) == yr;
  }

  /** For a finite year, the two-digit year rule works on its integer part:
      an integer part from 0 to 99 becomes 1900 plus that part, any other is
      kept. */
  lemma FullYearOfFinite(y: real)
    ensures FullYear(Finite(y)).Finite?
    ensures ToInteger(FullYear(Finite(y)).value) == TwoDigitYear(ToInteger(y))
  {
    var k := ToInteger(y);
    if 0 <= k <= 99 {
      assert ToInteger((1900 + k) as real) == 1900 + k;
    }
  }

  /** Finite arguments, integers or not, are truncated toward zero before
      MakeDay: `new Date(99.5, 2.5, 1.5)` is 1 March 1999. The date is NaN
      only when its midnight falls outside the time value range. */
  lemma NewDateOfFinite(y: real, m: real, dt: real, tza: int)
    ensures var t := MakeDay(TwoDigitYear(ToInteger(y)), ToInteger(m), ToInteger(dt)) * MsPerDay - tza;
            NewDate(Finite(y), Finite(m), Finite(dt), tza) == (if InTimeRange(t) then Some(t) else None)
  {
    FullYearOfFinite(y);
  }

  /** `new Date(99.5, 2.5, 1.5)`: the fractions are dropped and the year 99
      means 1999, so the date is local midnight of 1 March 1999. */
  lemma NewDateOfFractions(tza: int)
    requires -MsPerDay <= tza <= MsPerDay
    ensures NewDate(Finite(99.5), Finite(2.5), Finite(1.5), tza) == Some(DayOfCivil(CivilDate(1999, 3, 1)) * MsPerDay - tza)
  {
    assert MakeDay(TwoDigitYear(ToInteger(99.5)), ToInteger(2.5), ToInteger(1.5))
        == DayOfCivil(CivilDate(1999, 3, 1)) == 10651 by { DaysOfFractions(); }
    NewDateOfFinite(99.5, 2.5, 1.5, tza);
  }

  lemma DaysOfFractions()
    ensures MakeDay(TwoDigitYear(ToInteger(99.5)), ToInteger(2.5), ToInteger(1.5))
         == DayOfCivil(CivilDate(1999, 3, 1)) == 10651
  {
    TruncatedFractions();
    DaysOfMarch1999();
  }

  lemma TruncatedFractions()
    ensures ToInteger(99.5) == 99 && ToInteger(2.5) == 2 && ToInteger(1.5) == 1
  {
  }

  lemma DaysOfMarch1999()
    ensures MakeDay(TwoDigitYear(99), 2, 1) == DayOfCivil(CivilDate(1999, 3, 1)) == 10651
  {
    assert TwoDigitYear(99) == 1999;
    assert 2 / 12 == 0 && 2 % 12 == 2;
    assert DayFromYear(1999) == 10592 && !IsLeapYear(1999);
  }

  /** For a valid civil date from year 100 on, whose midnight is a time value,
      the date is exactly local midnight of that civil date. */
  lemma NewDateOfCivil(c: CivilDate, tza: int)
    requires c.Valid() && c.year >= 100
    requires InTimeRange(DayOfCivil(c) * MsPerDay - tza)
    ensures NewDate(Finite(c.year as real), Finite((c.month - 1) as real), Finite(c.day as real), tza)
         == Some(DayOfCivil(c) * MsPerDay - tza)
  {
    var m := c.month - 1;
    assert TwoDigitYear(c.year) == c.year;
    assert MakeDay(c.year, m, c.day) == DayOfCivil(c);
    NewDateOfIntegers(c.year, m, c.day, tza);
  }

  /** Local midnight of a valid civil date reads back as that date. */
  lemma LocalDateOfCivil(c: CivilDate, tza: int)
    requires c.Valid()
    ensures LocalDate(DayOfCivil(c) * MsPerDay - tza, tza) == c
    ensures LocalTimeOfDay(DayOfCivil(c) * MsPerDay - tza, tza) == 0
  {
    LocalMidnight(DayOfCivil(c), tza);
    DayOfCivilRoundTrip(c);
  }
}
