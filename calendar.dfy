/**
 * The proleptic Gregorian calendar of ECMA-262 6th edition (sections 20.3.1.2
 * to 20.3.1.5 and 20.3.1.13): day numbers count days from 1 January 1970, day
 * 0. DayFromYear, InLeapYear and the month table are the standard's own
 * definitions; CivilOf is their inverse (YearFromTime, MonthFromTime and
 * DateFromTime), computed by splitting the days since 1 January of year 1 into
 * 400-year, 100-year, 4-year and 1-year blocks.
 */
module Calendar {

  /** msPerDay (section 20.3.1.2). */
  const MsPerDay: int := 86400000

  /** The leap-year rule behind DaysInYear (section 20.3.1.3). */
  predicate IsLeapYear(y: int) {
    y % 4 == 0 && (y % 100 != 0 || y % 400 == 0)
  }

  function DaysInYear(y: int): int {
    if IsLeapYear(y) then 366 else 365
  }

  /** DayFromYear (section 20.3.1.3): the day number of 1 January of year `y`. */
  function DayFromYear(y: int): int {
    365 * (y - 1970) + (y - 1969) / 4 - (y - 1901) / 100 + (y - 1601) / 400
  }

  /** The number of days of a year before zero-based month `m` starts (the
      ranges of MonthFromTime, section 20.3.1.4); month 12 is the year's end. */
  function MonthStart(m: int, leap: bool): int
    requires 0 <= m <= 12
  {
    (if leap && m >= 2 then 1 else 0) + CommonMonthStarts[m]
  }

  /** The days before each month of a common year, and the year's length. */
  const CommonMonthStarts: seq<int> := [0, 31, 59, 90, 120, 151, 181, 212, 243, 273, 304, 334, 365]

  /** Months are ordered: each starts after the previous one. */
  lemma MonthStartIncreasing(a: int, b: int, leap: bool)
    requires 0 <= a < b <= 12
    ensures MonthStart(a, leap) + 28 <= MonthStart(b, leap)
    ensures MonthStart(12, leap) == (if leap then 366 else 365)
  {
  }

  /** The days in month `month` (1 to 12) of year `y`. */
  function DaysInMonth(y: int, month: int): int
    requires 1 <= month <= 12
  {
    MonthStart(month, IsLeapYear(y)) - MonthStart(month - 1, IsLeapYear(y))
  }

  /** A date of the proleptic Gregorian calendar, with a one-based month. */
  datatype CivilDate = CivilDate(year: int, month: int, day: int) {
    predicate Valid() {
      1 <= month <= 12 && 1 <= day <= DaysInMonth(year, month)
    }
  }

  /** MakeDay (section 20.3.1.13) once its arguments are integers: month `m`
      is zero-based and may lie outside 0..11, the day `dt` outside the month;
      both carry over into the neighbouring months and years. */
  function MakeDay(y: int, m: int, dt: int): int {
    var ym := y + m / 12;
    var mn := m % 12;
    DayFromYear(ym) + MonthStart(mn, IsLeapYear(ym)) + dt - 1
  }

  /** The day number of a civil date. */
  function DayOfCivil(c: CivilDate): int {
    MakeDay(c.year, c.month - 1, c.day)
  }

  /** The year holding day number `t` (YearFromTime, section 20.3.1.3). */
  function YearFromDay(t: int): int {
    var z := t + 719162;  // days since 1 January of year 1
    var era := z / 146097;
    var doc := z % 146097;
    var c := if doc / 36524 < 3 then doc / 36524 else 3;
    var r1 := doc - 36524 * c;
    var q := r1 / 1461;
    var r2 := r1 - 1461 * q;
    var r := if r2 / 365 < 3 then r2 / 365 else 3;
    1 + 400 * era + 100 * c + 4 * q + r
  }

  /** The zero-based month holding day `d` of a year (MonthFromTime). */
  function MonthOfDayInYear(d: int, leap: bool): (m: int)
    requires 0 <= d < MonthStart(12, leap)
    ensures 0 <= m < 12
    ensures MonthStart(m, leap) <= d < MonthStart(m + 1, leap)
  {
    if d < MonthStart(1, leap) then 0
    else if d < MonthStart(2, leap) then 1
    else if d < MonthStart(3, leap) then 2
    else if d < MonthStart(4, leap) then 3
    else if d < MonthStart(5, leap) then 4
    else if d < MonthStart(6, leap) then 5
    else if d < MonthStart(7, leap) then 6
    else if d < MonthStart(8, leap) then 7
    else if d < MonthStart(9, leap) then 8
    else if d < MonthStart(10, leap) then 9
    else if d < MonthStart(11, leap) then 10
    else 11
  }

  /** The civil date of day number `t`: the local getters getFullYear,
      getMonth + 1 and getDate of a time value on that day. */
  function CivilOf(t: int): (c: CivilDate)
  {
    var y := YearFromDay(t);
    var leap := IsLeapYear(y);
    var d := t - DayFromYear(y);
    if 0 <= d < MonthStart(12, leap) then
      var m := MonthOfDayInYear(d, leap);
      CivilDate(y, m + 1, d - MonthStart(m, leap) + 1)
    else
      CivilDate(y, 1, 1)  // not reached: see YearFromDayBounds
  }

  // ---------------------------------------------------------------------------
  // Proofs.

  /** DayFromYear and the leap-year rule on a year split into 400-year,
      100-year and 4-year blocks counted from year 1. */
  lemma DayFromYearParts(era: int, c: int, q: int, r: int)
    requires 0 <= c < 4 && 0 <= q < 25 && 0 <= r < 4
    ensures DayFromYear(1 + 400 * era + 100 * c + 4 * q + r)
         == 146097 * era + 36524 * c + 1461 * q + 365 * r - 719162
    ensures IsLeapYear(1 + 400 * era + 100 * c + 4 * q + r) <==> r == 3 && (q != 24 || c == 3)
  {
    var y := 1 + 400 * era + 100 * c + 4 * q + r;
    Quotient(y - 1969, 4, 100 * era + 25 * c + q - 492, r);
    Quotient(y - 1901, 100, 4 * era + c - 19, 4 * q + r);
    Quotient(y - 1601, 400, era - 4, 100 * c + 4 * q + r);
    if r < 3 {
      Quotient(y, 4, 100 * era + 25 * c + q, r + 1);
    } else {
      Quotient(y, 4, 100 * era + 25 * c + q + 1, 0);
      if 4 * q + r + 1 < 100 {
        Quotient(y, 100, 4 * era + c, 4 * q + r + 1);
      } else {
        Quotient(y, 100, 4 * era + c + 1, 0);
        if c < 3 {
          Quotient(y, 400, era, 100 * c + 100);
        } else {
          Quotient(y, 400, era + 1, 0);
        }
      }
    }
  }

  /** Day number `t` lies in the year YearFromDay(t). */
  lemma YearFromDayBounds(t: int)
    ensures DayFromYear(YearFromDay(t)) <= t < DayFromYear(YearFromDay(t)) + DaysInYear(YearFromDay(t))
  {
    var z := t + 719162;
    var era := z / 146097;
    var doc := z % 146097;
    var c := if doc / 36524 < 3 then doc / 36524 else 3;
    var r1 := doc - 36524 * c;
    assert 0 <= r1 <= 36524;
    assert c < 3 ==> r1 < 36524;
    var q := r1 / 1461;
    var r2 := r1 - 1461 * q;
    assert q <= 24 && 0 <= r2 < 1461;
    var r := if r2 / 365 < 3 then r2 / 365 else 3;
    assert YearFromDay(t) == 1 + 400 * era + 100 * c + 4 * q + r;
    var d := r2 - 365 * r;
    assert 0 <= d <= 365 && (d == 365 ==> r == 3 && r2 == 1460) by {
      if r2 / 365 < 3 {
        assert d == r2 % 365;
      }
    }
    assert d == 365 && q == 24 ==> c == 3 by {
      assert q == 24 ==> r1 == 35064 + r2;
    }
    DayFromYearParts(era, c, q, r);
    assert DayFromYear(YearFromDay(t)) == t - d;
  }

  /** The days of year `y` are exactly the day numbers YearFromDay maps to `y`. */
  lemma YearFromDayOfYear(y: int, k: int)
    requires 0 <= k < DaysInYear(y)
    ensures YearFromDay(DayFromYear(y) + k) == y
  {
    var era := (y - 1) / 400;
    var rem := (y - 1) % 400;
    var c := rem / 100;
    var q := (rem % 100) / 4;
    var r := rem % 4;
    assert y == 1 + 400 * era + 100 * c + 4 * q + r;
    DayFromYearParts(era, c, q, r);
    YearFromDayParts(era, c, q, r, k);
  }

  lemma YearFromDayParts(era: int, c: int, q: int, r: int, k: int)
    requires 0 <= c < 4 && 0 <= q < 25 && 0 <= r < 4
    requires 0 <= k < (if r == 3 && (q != 24 || c == 3) then 366 else 365)
    ensures YearFromDay(146097 * era + 36524 * c + 1461 * q + 365 * r + k - 719162)
         == 1 + 400 * era + 100 * c + 4 * q + r
  {
    var inner := 36524 * c + 1461 * q + 365 * r + k;
    var z := 146097 * era + inner;
    assert 0 <= inner < 146097;
    Quotient(z, 146097, era, inner);
    var c' := if inner / 36524 < 3 then inner / 36524 else 3;
    assert c' == c by {
      if c < 3 {
        assert 1461 * q + 365 * r + k < 36524;
        assert inner / 36524 == c;
      } else {
        assert inner >= 3 * 36524;
      }
    }
    var r1 := 1461 * q + 365 * r + k;
    assert r1 / 1461 == q;
    var r2 := 365 * r + k;
    assert r < 3 ==> r2 / 365 == r;
    assert r == 3 ==> r2 / 365 >= 3;
  }

  /** Division with a remainder in range, stated by its quotient and remainder. */
  lemma Quotient(a: int, b: int, q: int, r: int)
    requires b == 4 || b == 100 || b == 400 || b == 146097
    requires 0 <= r < b && a == b * q + r
    ensures a / b == q && a % b == r
  {
  }

  /** The day number of a date with an in-range month: the days before its
      year, before its month, and before it in the month. */
  lemma DayOfCivilInYear(y: int, m: int, day: int)
    requires 0 <= m < 12
    ensures DayOfCivil(CivilDate(y, m + 1, day)) == DayFromYear(y) + MonthStart(m, IsLeapYear(y)) + day - 1
  {
    assert (m + 1 - 1) / 12 == 0 && (m + 1 - 1) % 12 == m;
  }

  /** Every day number is the day of exactly one valid civil date: CivilOf
      gives a valid date whose day number is `t`. */
  lemma CivilOfDay(t: int)
    ensures CivilOf(t).Valid()
    ensures DayOfCivil(CivilOf(t)) == t
  {
    YearFromDayBounds(t);
    var y := YearFromDay(t);
    var leap := IsLeapYear(y);
    MonthStartIncreasing(0, 12, leap);
    var d := t - DayFromYear(y);
    var m := MonthOfDayInYear(d, leap);
    CivilOfYearDay(t, y, d, m);
    DateOfDayInMonth(y, m, d);
  }

  /** Day `d` of a year, found in zero-based month `m`, is a valid date whose
      day number is `d` days after 1 January. */
  lemma DateOfDayInMonth(y: int, m: int, d: int)
    requires 0 <= m < 12 && MonthStart(m, IsLeapYear(y)) <= d < MonthStart(m + 1, IsLeapYear(y))
    ensures var c := CivilDate(y, m + 1, d - MonthStart(m, IsLeapYear(y)) + 1);
            c.Valid() && DayOfCivil(c) == DayFromYear(y) + d
  {
    DayOfCivilInYear(y, m, d - MonthStart(m, IsLeapYear(y)) + 1);
  }

  /** Reading a valid civil date back from its day number gives the date. */
  lemma DayOfCivilRoundTrip(c: CivilDate)
    requires c.Valid()
    ensures CivilOf(DayOfCivil(c)) == c
  {
    var m := c.month - 1;
    DayOfCivilInYear(c.year, m, c.day);
    CivilOfMonthDay(c.year, m, c.day, DayOfCivil(c));
  }

  /** The civil date of the day `day` of zero-based month `m` of year `y`,
      given by its day number `t`. */
  lemma CivilOfMonthDay(y: int, m: int, day: int, t: int)
    requires 0 <= m < 12
    requires 1 <= day <= MonthStart(m + 1, IsLeapYear(y)) - MonthStart(m, IsLeapYear(y))
    requires t == DayFromYear(y) + MonthStart(m, IsLeapYear(y)) + day - 1
    ensures CivilOf(t) == CivilDate(y, m + 1, day)
  {
    var leap := IsLeapYear(y);
    var k := MonthStart(m, leap) + day - 1;
    assert 0 <= k < DaysInYear(y) by {
      MonthStartIncreasing(0, 12, leap);
      if m + 1 < 12 { MonthStartIncreasing(m + 1, 12, leap); }
    }
    YearFromDayOfYear(y, k);
    MonthOfDayInYearUnique(m, k, leap);
    assert YearFromDay(t) == y;
    CivilOfYearDay(t, y, k, m);
  }

  /** The civil date of day number `t`, once its year and its month in that
      year are known. */
  lemma CivilOfYearDay(t: int, y: int, k: int, m: int)
    requires YearFromDay(t) == y && t == DayFromYear(y) + k && 0 <= k < MonthStart(12, IsLeapYear(y))
    requires 0 <= m < 12 && MonthOfDayInYear(k, IsLeapYear(y)) == m
    ensures CivilOf(t) == CivilDate(y, m + 1, k - MonthStart(m, IsLeapYear(y)) + 1)
  {
  }

  /** MonthOfDayInYear finds the only month whose range holds the day. */
  lemma MonthOfDayInYearUnique(m: int, d: int, leap: bool)
    requires 0 <= m < 12 && MonthStart(m, leap) <= d < MonthStart(m + 1, leap)
    ensures d < MonthStart(12, leap)
    ensures MonthOfDayInYear(d, leap) == m
  {
    if m + 1 < 12 { MonthStartIncreasing(m + 1, 12, leap); }
    var found := MonthOfDayInYear(d, leap);
    if found < m {
      MonthStartIncreasing(found + 1, m, leap);
    } else if found > m {
      MonthStartIncreasing(m + 1, found, leap);
    }
  }

  /** Valid civil dates have different day numbers. */
  lemma DayOfCivilInjective(a: CivilDate, b: CivilDate)
    requires a.Valid() && b.Valid() && a != b
    ensures DayOfCivil(a) != DayOfCivil(b)
  {
    DayOfCivilRoundTrip(a);
    DayOfCivilRoundTrip(b);
  }

  /** MakeDay normalises: the day it gives is that of the civil date found by
      carrying the month into the year and the day into the months. The
      carried date is unique (DayOfCivilInjective). */
  lemma MakeDayNormalises(y: int, m: int, dt: int)
    ensures CivilOf(MakeDay(y, m, dt)).Valid()
    ensures DayOfCivil(CivilOf(MakeDay(y, m, dt))) == MakeDay(y, m, dt)
    ensures 0 <= m < 12 && 1 <= dt <= DaysInMonth(y, m + 1)
        ==> CivilOf(MakeDay(y, m, dt)) == CivilDate(y, m + 1, dt)
  {
    var t := MakeDay(y, m, dt);
    CivilOfDay(t);
    if 0 <= m < 12 && 1 <= dt <= DaysInMonth(y, m + 1) {
      var c := CivilDate(y, m + 1, dt);
      assert DayOfCivil(c) == t;
      DayOfCivilRoundTrip(c);
    }
  }

  /** Adding days to the day argument moves the day number by as many days. */
  lemma MakeDayShiftsDays(y: int, m: int, dt: int, k: int)
    ensures MakeDay(y, m, dt + k) == MakeDay(y, m, dt) + k
  {
  }

  /** A month number of twelve or more, or below zero, is carried into the year. */
  lemma MakeDayCarriesMonths(y: int, m: int, dt: int)
    ensures MakeDay(y, m + 12, dt) == MakeDay(y + 1, m, dt)
  {
    assert (m + 12) / 12 == m / 12 + 1;
    assert (m + 12) % 12 == m % 12;
  }
}
