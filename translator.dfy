/**
 * The value translator of the directive (angular-bootstrap-datepicker.js):
 * `formatIn` turns the `ngModel` value into the text the datepicker keeps in
 * its input element, `formatOut` turns that text back into the model value.
 *
 * In the `ISOString` mode the model holds a timestamp. `formatOut` reads the
 * text as day/month/year, builds `new Date(year, month - 1, day)` and yields
 * null when that date is NaN; otherwise it yields the Date's `toISOString()`,
 * which this model represents by the Date's time value (its rendering as text
 * is not modelled). A falsy model value becomes undefined in every mode.
 * In every other mode `formatIn` returns a truthy model value unchanged and
 * `formatOut` returns the text unchanged.
 */
module ValueTranslator {
  import opened JsValues
  import opened StringToNumber
  import opened Calendar
  import opened DateConstructor
  import opened DatepickerOptions

  /** The format `dateFilter` is asked for: day/month/year, as Angular spells it. */
  const FilterFormat: string := "dd/MM/yyyy"

  predicate IsIsoMode(dateFormat: Option<string>) {
    dateFormat == Some(IsoStringFormat)
  }

  /** `formatIn`: the model value as the datepicker text. Angular's
      `dateFilter` is the parameter `dateFilter`. */
  function FormatIn(modelValue: JsValue, dateFormat: Option<string>,
                    dateFilter: (JsValue, string) -> JsValue): (display: JsValue)
    ensures !Truthy(modelValue) ==> display == Undefined
    ensures Truthy(modelValue) && !IsIsoMode(dateFormat) ==> display == modelValue
    ensures Truthy(modelValue) && IsIsoMode(dateFormat) ==> display == dateFilter(modelValue, FilterFormat)
  {
    if !Truthy(modelValue) then Undefined
    else if IsIsoMode(dateFormat) then dateFilter(modelValue, FilterFormat)
    else modelValue
  }

  /** What `formatOut` gives the model: the text itself, null, or (in the
      `ISOString` mode) the timestamp of a Date, as its time value. */
  datatype ModelValue = Text(text: string) | NullDate | Timestamp(time: int)

  /** The Date that `formatOut` builds from the text: the first three
      `/`-separated fields are the day, the month (1 to 12, so the Date gets
      month - 1) and the year; a field that is missing is `undefined`, which
      converts to NaN. */
  function DateOfText(text: string, tza: int): Option<int> {
    var parts := Split(text, '/');
    var day := ToNumber(parts[0]);
    var month := if |parts| > 1 then Subtract(ToNumber(parts[1]), 1.0) else NaN;
    var year := if |parts| > 2 then ToNumber(parts[2]) else NaN;
    NewDate(year, month, day, tza)
  }

  /** `formatOut`: the datepicker text as the model value. */
  function FormatOut(text: string, dateFormat: Option<string>, tza: int): (r: ModelValue)
    ensures !IsIsoMode(dateFormat) ==> r == Text(text)
    ensures IsIsoMode(dateFormat) ==> !r.Text?
    ensures r.Timestamp? ==> InTimeRange(r.time)
  {
    if IsIsoMode(dateFormat) then
      match DateOfText(text, tza)
      case None => NullDate
      case Some(t) => Timestamp(t)
    else Text(text)
  }

  /** The text the datepicker shows for a date in its default `dd/mm/yyyy`
      format: two-digit day and month, four-digit year. */
  function DisplayText(c: CivilDate): string
    requires c.day >= 0 && c.month >= 0 && c.year >= 0
  {
    PaddedDecimal(c.day, 2) + "/" + PaddedDecimal(c.month, 2) + "/" + PaddedDecimal(c.year, 4)
  }

  // ---------------------------------------------------------------------------
  // Properties.

  /** Outside the `ISOString` mode, a text model value survives the trip to
      the datepicker and back. */
  lemma NativeRoundTrip(s: string, dateFormat: Option<string>, dateFilter: (JsValue, string) -> JsValue, tza: int)
    requires s != "" && !IsIsoMode(dateFormat)
    ensures FormatIn(Str(s), dateFormat, dateFilter) == Str(s)
    ensures FormatOut(s, dateFormat, tza) == Text(s)
  {
  }

  /** In the `ISOString` mode the result is null exactly when the Date is NaN,
      and a timestamp is always a valid time value, so `toISOString` cannot
      throw. */
  lemma IsoNullIffNaN(text: string, tza: int)
    ensures FormatOut(text, Some(IsoStringFormat), tza) == NullDate <==> DateOfText(text, tza).None?
    ensures FormatOut(text, Some(IsoStringFormat), tza).Timestamp?
        ==> InTimeRange(FormatOut(text, Some(IsoStringFormat), tza).time)
  {
  }

  /** Fewer than three fields give null. */
  lemma IsoTooFewFields(text: string, tza: int)
    requires |Split(text, '/')| < 3
    ensures FormatOut(text, Some(IsoStringFormat), tza) == NullDate
  {
    var parts := Split(text, '/');
    var day := ToNumber(parts[0]);
    var month := if |parts| > 1 then Subtract(ToNumber(parts[1]), 1.0) else NaN;
    NewDateNonFinite(NaN, month, day, tza);
    assert DateOfText(text, tza) == NewDate(NaN, month, day, tza);
  }

  /** A field among the first three that does not convert to a finite
      number (text that is not numeric, `Infinity`) gives null. */
  lemma IsoNonNumericField(text: string, i: nat, tza: int)
    requires i < 3 && i < |Split(text, '/')|
    requires !ToNumber(Split(text, '/')[i]).Finite?
    ensures FormatOut(text, Some(IsoStringFormat), tza) == NullDate
  {
    var parts := Split(text, '/');
    var day := ToNumber(parts[0]);
    var month := if |parts| > 1 then Subtract(ToNumber(parts[1]), 1.0) else NaN;
    var year := if |parts| > 2 then ToNumber(parts[2]) else NaN;
    assert !day.Finite? || !month.Finite? || !FullYear(year).Finite?;
    NewDateNonFinite(year, month, day, tza);
    assert DateOfText(text, tza) == NewDate(year, month, day, tza);
  }

  /** Fields after the third are ignored. */
  lemma IsoIgnoresExtraFields(text: string, extra: string, tza: int)
    requires |Split(text, '/')| >= 3
    ensures FormatOut(text + "/" + extra, Some(IsoStringFormat), tza)
         == FormatOut(text, Some(IsoStringFormat), tza)
  {
    SplitAppend(text, '/', extra);
    var parts := Split(text + "/" + extra, '/');
    var before := Split(text, '/');
    assert parts[0] == before[0] && parts[1] == before[1] && parts[2] == before[2];
    assert DateOfText(text + "/" + extra, tza) == DateOfText(text, tza);
  }

  /** Three non-empty decimal fields are read as their decimal values
      (leading zeros allowed), the month shifted down by one. */
  lemma DateOfDecimalFields(dd: string, mm: string, yy: string, tza: int)
    requires dd != "" && AllDecimalDigits(dd)
    requires mm != "" && AllDecimalDigits(mm)
    requires yy != "" && AllDecimalDigits(yy)
    ensures DateOfText(dd + "/" + mm + "/" + yy, tza)
         == NewDate(Finite(DigitsValue(yy, 10) as real), Finite((DigitsValue(mm, 10) - 1) as real),
                    Finite(DigitsValue(dd, 10) as real), tza)
  {
    var text := dd + "/" + mm + "/" + yy;
    assert Split(text, '/') == [dd, mm, yy] by {
      SplitOfThreeFields(dd, mm, yy);
    }
    ToNumberOfDigits(dd);
    ToNumberOfDigits(mm);
    ToNumberOfDigits(yy);
  }

  /** DateOfDecimalFields with the fields' values named. */
  lemma DateOfFieldValues(dd: string, mm: string, yy: string, d: nat, m: nat, y: nat, tza: int)
    requires dd != "" && AllDecimalDigits(dd) && DigitsValue(dd, 10) == d
    requires mm != "" && AllDecimalDigits(mm) && DigitsValue(mm, 10) == m
    requires yy != "" && AllDecimalDigits(yy) && DigitsValue(yy, 10) == y
    ensures DateOfText(dd + "/" + mm + "/" + yy, tza)
         == NewDate(Finite(y as real), Finite((m - 1) as real), Finite(d as real), tza)
  {
    DateOfDecimalFields(dd, mm, yy, tza);
    assert DigitsValue(yy, 10) as real == y as real && (DigitsValue(mm, 10) - 1) as real == (m - 1) as real
        && DigitsValue(dd, 10) as real == d as real;
  }

  lemma SplitOfThreeFields(dd: string, mm: string, yy: string)
    requires AllDecimalDigits(dd) && AllDecimalDigits(mm) && AllDecimalDigits(yy)
    ensures Split(dd + "/" + mm + "/" + yy, '/') == [dd, mm, yy]
  {
    var parts := [dd, mm, yy];
    assert '/' !in dd && '/' !in mm && '/' !in yy by {
      assert !IsDecimalDigit('/');
    }
    SplitJoin(parts, '/');
    assert Join(parts[1..], '/') == mm + "/" + yy by {
      assert parts[1..][1..] == [yy];
    }
    assert Join(parts, '/') == dd + "/" + mm + "/" + yy;
  }

  /** Integer fields give local midnight of the day MakeDay carries them to
      (years 0 to 99 meaning 1900 to 1999): a day or month out of range rolls
      over into the neighbouring months or years instead of being rejected.
      The result is null only when that midnight is outside the time value
      range. */
  lemma IsoOfIntegerFields(text: string, y: int, m: int, d: int, tza: int)
    requires DateOfText(text, tza) == NewDate(Finite(y as real), Finite(m as real), Finite(d as real), tza)
    ensures var day := MakeDay(TwoDigitYear(y), m, d);
            var t := day * MsPerDay - tza;
            FormatOut(text, Some(IsoStringFormat), tza) == (if InTimeRange(t) then Timestamp(t) else NullDate)
            && LocalDate(t, tza) == CivilOf(day) && LocalTimeOfDay(t, tza) == 0
  {
    NewDateOfIntegers(y, m, d, tza);
    LocalMidnight(MakeDay(TwoDigitYear(y), m, d), tza);
  }

  /** The datepicker's own text for a date holds that date's fields. */
  lemma DateOfDisplayText(c: CivilDate, tza: int)
    requires c.day >= 0 && c.month >= 0 && c.year >= 0
    ensures DateOfText(DisplayText(c), tza)
         == NewDate(Finite(c.year as real), Finite((c.month - 1) as real), Finite(c.day as real), tza)
  {
    DateOfPaddedFields(c.day, c.month, c.year, tza);
  }

  lemma DateOfPaddedFields(d: nat, m: nat, y: nat, tza: int)
    ensures DateOfText(PaddedDecimal(d, 2) + "/" + PaddedDecimal(m, 2) + "/" + PaddedDecimal(y, 4), tza)
         == NewDate(Finite(y as real), Finite((m - 1) as real), Finite(d as real), tza)
  {
    PaddedDecimalValue(d, 2);
    PaddedDecimalValue(m, 2);
    PaddedDecimalValue(y, 4);
    DateOfFieldValues(PaddedDecimal(d, 2), PaddedDecimal(m, 2), PaddedDecimal(y, 4), d, m, y, tza);
  }

  /** Round trip from the datepicker's own text: a valid date from year 100
      on, shown as `dd/mm/yyyy`, becomes local midnight of that same date. */
  lemma IsoRoundTrip(c: CivilDate, tza: int)
    requires c.Valid() && c.year >= 100
    requires InTimeRange(DayOfCivil(c) * MsPerDay - tza)
    ensures var t := DayOfCivil(c) * MsPerDay - tza;
            FormatOut(DisplayText(c), Some(IsoStringFormat), tza) == Timestamp(t)
            && LocalDate(t, tza) == c && LocalTimeOfDay(t, tza) == 0
  {
    DateOfDisplayText(c, tza);
    assert MakeDay(TwoDigitYear(c.year), c.month - 1, c.day) == DayOfCivil(c);
    IsoOfCarriedFields(DisplayText(c), c.year, c.month - 1, c.day, c, tza);
  }

  // ---------------------------------------------------------------------------
  // Texts a user can type. The time zone adjustment is kept within a day.

  /** Integer fields that MakeDay carries to the valid date `c` give local
      midnight of `c`, when that midnight is a time value. */
  lemma IsoOfCarriedFields(text: string, y: int, m: int, d: int, c: CivilDate, tza: int)
    requires DateOfText(text, tza) == NewDate(Finite(y as real), Finite(m as real), Finite(d as real), tza)
    requires c.Valid() && MakeDay(TwoDigitYear(y), m, d) == DayOfCivil(c)
    requires InTimeRange(DayOfCivil(c) * MsPerDay - tza)
    ensures var t := DayOfCivil(c) * MsPerDay - tza;
            FormatOut(text, Some(IsoStringFormat), tza) == Timestamp(t)
            && LocalDate(t, tza) == c && LocalTimeOfDay(t, tza) == 0
  {
    NewDateOfIntegers(y, m, d, tza);
    LocalDateOfCivil(c, tza);
  }

  lemma DateOfFeb31(tza: int)
    ensures DateOfText("31/02/2024", tza) == NewDate(Finite(2024.0), Finite(1.0), Finite(31.0), tza)
  {
    assert "31/02/2024" == "31" + "/" + "02" + "/" + "2024";
    assert AllDecimalDigits("31") && AllDecimalDigits("02") && AllDecimalDigits("2024");
    ValuesOfFeb31();
    DateOfFieldValues("31", "02", "2024", 31, 2, 2024, tza);
  }

  lemma ValuesOfFeb31()
    ensures DigitsValue("31", 10) == 31 && DigitsValue("02", 10) == 2 && DigitsValue("2024", 10) == 2024
  {
    assert "31"[..1] == "3" && "02"[..1] == "0";
    assert "2024"[..3] == "202" && "202"[..2] == "20" && "20"[..1] == "2";
  }

  /** A day past the end of the month is not rejected: 31 February 2024
      becomes 2 March 2024. */
  lemma IsoDayOverflow(tza: int)
    requires -MsPerDay <= tza <= MsPerDay
    ensures var r := FormatOut("31/02/2024", Some(IsoStringFormat), tza);
            r.Timestamp? && LocalDate(r.time, tza) == CivilDate(2024, 3, 2) && LocalTimeOfDay(r.time, tza) == 0
  {
    var c := CivilDate(2024, 3, 2);
    assert c.Valid() && MakeDay(TwoDigitYear(2024), 1, 31) == DayOfCivil(c) == 19784 by { DaysOfFeb31(); }
    assert InTimeRange(DayOfCivil(c) * MsPerDay - tza);
    DateOfFeb31(tza);
    IsoOfCarriedFields("31/02/2024", 2024, 1, 31, c, tza);
  }

  /** A month past December is not rejected either: month 13 of 2024 is
      January 2025, so 15/13/2024 becomes 15 January 2025. */
  lemma IsoMonthOverflow(tza: int)
    requires -MsPerDay <= tza <= MsPerDay
    ensures var r := FormatOut("15/13/2024", Some(IsoStringFormat), tza);
            r.Timestamp? && LocalDate(r.time, tza) == CivilDate(2025, 1, 15) && LocalTimeOfDay(r.time, tza) == 0
  {
    var c := CivilDate(2025, 1, 15);
    assert c.Valid() && MakeDay(TwoDigitYear(2024), 12, 15) == DayOfCivil(c) == 20103 by { DaysOfMonth13(); }
    assert InTimeRange(DayOfCivil(c) * MsPerDay - tza);
    DateOfMonth13(tza);
    IsoOfCarriedFields("15/13/2024", 2024, 12, 15, c, tza);
  }

  lemma DateOfMonth13(tza: int)
    ensures DateOfText("15/13/2024", tza) == NewDate(Finite(2024.0), Finite(12.0), Finite(15.0), tza)
  {
    assert "15/13/2024" == "15" + "/" + "13" + "/" + "2024";
    assert AllDecimalDigits("15") && AllDecimalDigits("13") && AllDecimalDigits("2024");
    ValuesOfMonth13();
    DateOfFieldValues("15", "13", "2024", 15, 13, 2024, tza);
  }

  lemma ValuesOfMonth13()
    ensures DigitsValue("15", 10) == 15 && DigitsValue("13", 10) == 13 && DigitsValue("2024", 10) == 2024
  {
    assert "15"[..1] == "1" && "13"[..1] == "1";
    assert "2024"[..3] == "202" && "202"[..2] == "20" && "20"[..1] == "2";
  }

  lemma DaysOfMonth13()
    ensures MakeDay(TwoDigitYear(2024), 12, 15) == DayOfCivil(CivilDate(2025, 1, 15)) == 20103
  {
    assert TwoDigitYear(2024) == 2024;
    assert 12 / 12 == 1 && 12 % 12 == 0 && 0 / 12 == 0 && 0 % 12 == 0;
  }

  /** A year written with four digits but below 100 still goes through the
      two-digit rule: 01/01/0050 becomes 1 January 1950, not the year 50. */
  lemma IsoTwoDigitYear(tza: int)
    requires -MsPerDay <= tza <= MsPerDay
    ensures var r := FormatOut("01/01/0050", Some(IsoStringFormat), tza);
            r.Timestamp? && LocalDate(r.time, tza) == CivilDate(1950, 1, 1) && LocalTimeOfDay(r.time, tza) == 0
  {
    var c := CivilDate(1950, 1, 1);
    assert c.Valid() && MakeDay(TwoDigitYear(50), 0, 1) == DayOfCivil(c) == -7305 by { DaysOfYear50(); }
    assert InTimeRange(DayOfCivil(c) * MsPerDay - tza);
    DateOfYear50(tza);
    IsoOfCarriedFields("01/01/0050", 50, 0, 1, c, tza);
  }

  lemma DateOfYear50(tza: int)
    ensures DateOfText("01/01/0050", tza) == NewDate(Finite(50.0), Finite(0.0), Finite(1.0), tza)
  {
    assert "01/01/0050" == "01" + "/" + "01" + "/" + "0050";
    assert AllDecimalDigits("01") && AllDecimalDigits("0050");
    ValuesOfYear50();
    DateOfFieldValues("01", "01", "0050", 1, 1, 50, tza);
  }

  lemma ValuesOfYear50()
    ensures DigitsValue("01", 10) == 1 && DigitsValue("0050", 10) == 50
  {
    assert "01"[..1] == "0";
    assert "0050"[..3] == "005" && "005"[..2] == "00" && "00"[..1] == "0";
  }

  lemma DaysOfYear50()
    ensures MakeDay(TwoDigitYear(50), 0, 1) == DayOfCivil(CivilDate(1950, 1, 1)) == -7305
  {
    assert TwoDigitYear(50) == 1950;
  }

  /** Empty fields convert to 0, so `//` is day 0 of month 0 of 1900: the
      last day of November 1899, not null. */
  lemma IsoEmptyFields(tza: int)
    requires -MsPerDay <= tza <= MsPerDay
    ensures var r := FormatOut("//", Some(IsoStringFormat), tza);
            r.Timestamp? && LocalDate(r.time, tza) == CivilDate(1899, 11, 30) && LocalTimeOfDay(r.time, tza) == 0
  {
    var c := CivilDate(1899, 11, 30);
    assert c.Valid() && MakeDay(TwoDigitYear(0), -1, 0) == DayOfCivil(c) == -25599 by { DaysOfEmptyFields(); }
    assert InTimeRange(DayOfCivil(c) * MsPerDay - tza);
    DateOfEmptyFields(tza);
    IsoOfCarriedFields("//", 0, -1, 0, c, tza);
  }

  lemma DateOfEmptyFields(tza: int)
    ensures DateOfText("//", tza) == NewDate(Finite(0.0), Finite(-1.0), Finite(0.0), tza)
  {
    assert Split("//", '/') == ["", "", ""] by {
      assert "//" == "" + "/" + "" + "/" + "";
      SplitOfThreeFields("", "", "");
    }
    assert ToNumber("") == Finite(0.0) by { ToNumberOfBlank(""); }
  }

  lemma DaysOfFeb31()
    ensures MakeDay(TwoDigitYear(2024), 1, 31) == DayOfCivil(CivilDate(2024, 3, 2)) == 19784
  {
    assert TwoDigitYear(2024) == 2024;
  }

  lemma DaysOfEmptyFields()
    ensures MakeDay(TwoDigitYear(0), -1, 0) == DayOfCivil(CivilDate(1899, 11, 30)) == -25599
  {
    assert TwoDigitYear(0) == 1900;
    assert -1 / 12 == -1 && -1 % 12 == 11 && 10 / 12 == 0 && 10 % 12 == 10;
    assert DayFromYear(1899) == -25932 && !IsLeapYear(1899);
  }
}
