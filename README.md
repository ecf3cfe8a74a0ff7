# angular-bootstrap-datepicker, modelled in Dafny

The `bootstrapDatepicker` AngularJS directive puts a bootstrap-datepicker
widget on an input element and keeps it in step with an `ngModel` value. This
project models its three parts:

- **The option policy** (`computeDatepickerOptions`). The directive starts
  from its defaults: French, close on pick, `dd/mm/yyyy`. It merges the
  caller's `datepickerOptions` object over them with lodash's `_.merge`. It
  then copies the `dateFormat` attribute into `format` when that attribute is
  truthy and is not the `ISOString` sentinel. In `options_policy.dfy`:
  - `OptionsOf` states, option by option, where each value comes from.
  - `ComputeDatepickerOptions` is the code's own sequence of steps, proved
    equal to `OptionsOf`.
- **The value translator** (`formatIn`, `formatOut`, and the `$formatters`
  and `$parsers` entries). A falsy model value becomes undefined in every
  mode. Outside the `ISOString` mode, `formatIn` returns a truthy model value
  unchanged, and `formatOut` returns the text unchanged. In the `ISOString` mode, `formatOut` reads the text as
  day/month/year and builds `new Date(year, month - 1, day)`. It yields null
  when that Date is NaN, and the Date's time value otherwise. The date
  arithmetic is written out from ECMA-262 6th edition:
  - `to_number.dfy`: ToNumber applied to a String (section 7.1.3.1).
  - `date_constructor.dfy`: the Date constructor (section 20.3.2.1), with
    MakeDay, MakeDate, the conversion from local time to UTC, and TimeClip.
  - `calendar.dfy`: DayFromYear and the month table, with their inverse
    (`CivilOf`).
- **The lifecycle** (the deep `$watch` handler on `datepickerOptions`, and
  `initialize`). In `directive.dfy`, class `Datepicker` holds the element's
  text, the widget on the element (the options it was created with), and the
  history of commands sent to the widget. Its methods update that state in
  place.

The code does not check field ranges. A day or month outside its range is
not rejected, although a caller might expect null for such input (for
`31/02/2024` or `15/13/2024`, say). MakeDay
carries the overflow into the next months or years:

- `31/02/2024` becomes 2 March 2024;
- `15/13/2024` becomes 15 January 2025;
- `//` becomes 30 November 1899.

The year is not taken literally either. The Date constructor reads a year
from 0 to 99 as 1900 to 1999, even when the text writes it with four digits,
so `01/01/0050` becomes 1 January 1950. The round trip from a date's own
`dd/mm/yyyy` text therefore holds only from year 100 on.

The model follows the code (`IsoDayOverflow`, `IsoMonthOverflow`,
`IsoEmptyFields`, `IsoTwoDigitYear`).

## Model

| member | source | states |
|---|---|---|
| DatepickerOptions.DefaultOptions | angular-bootstrap-datepicker.js:29-34 | The default options have exactly the keys `language`, `autoclose` and `format`. |
| DatepickerOptions.Merge | angular-bootstrap-datepicker.js:37-39 | The merged options hold exactly the keys of both objects. |
| DatepickerOptions.ComputeDatepickerOptions | angular-bootstrap-datepicker.js:27-47 | The in-place computation (defaults, then merge, then format) yields the policy `OptionsOf`, option by option. |
| DatepickerOptions.DefaultsOnly | angular-bootstrap-datepicker.js:27-34 | Without overrides and without a usable `dateFormat`, the options are exactly `{language: 'fr', autoclose: true, format: 'dd/mm/yyyy'}`. |
| DatepickerOptions.DateFormatWins | angular-bootstrap-datepicker.js:41-46 | A truthy `dateFormat` other than `ISOString` is always `format`, over both the default and any override. |
| DatepickerOptions.FormatWithoutDateFormat | angular-bootstrap-datepicker.js:41-46 | A missing, empty or `ISOString` `dateFormat` is never copied. `format` is then the override's defined value, or else the default `dd/mm/yyyy`. |
| DatepickerOptions.OptionKeys | angular-bootstrap-datepicker.js:29-39 | The options hold the default keys and the override keys, and no others. |
| DatepickerOptions.OverridesWin | angular-bootstrap-datepicker.js:36-39 | An override other than `format` wins over the default, unless it is `undefined` over a default key. |
| DatepickerOptions.DefaultsKept | angular-bootstrap-datepicker.js:29-39 | A default key that is not overridden, or is overridden with `undefined`, keeps its default value (`format` aside). |
| DatepickerOptions.OptionsOfIsMerge | angular-bootstrap-datepicker.js:36-46 | For any override object, the policy equals the merge of the overrides into the defaults, followed by the `format` rule. |
| ValueTranslator.FormatIn | angular-bootstrap-datepicker.js:79-93 | A falsy model value gives undefined. In the `ISOString` mode a truthy value goes to `dateFilter` with `dd/MM/yyyy`; in any other mode it comes back unchanged. |
| ValueTranslator.FormatOut | angular-bootstrap-datepicker.js:102-117 | Outside the `ISOString` mode the text comes back unchanged. In that mode the result is null or a timestamp, never text, and a timestamp is always a valid time value. |
| ValueTranslator.NativeRoundTrip | angular-bootstrap-datepicker.js:79-117 | Outside the `ISOString` mode, a non-empty text survives `formatIn` and then `formatOut` unchanged. |
| ValueTranslator.IsoNullIffNaN | angular-bootstrap-datepicker.js:110-112 | In the `ISOString` mode the result is null exactly when the Date built from the fields is NaN, and `toISOString` never sees an invalid Date. |
| ValueTranslator.IsoTooFewFields | angular-bootstrap-datepicker.js:107-110 | Text with fewer than three `/`-separated fields gives null. |
| ValueTranslator.IsoNonNumericField | angular-bootstrap-datepicker.js:107-110 | Any of the first three fields that does not convert to a finite number gives null. |
| ValueTranslator.IsoIgnoresExtraFields | angular-bootstrap-datepicker.js:107-109 | Fields after the third do not change the result. |
| ValueTranslator.DateOfDecimalFields | angular-bootstrap-datepicker.js:106-110 | Three non-empty decimal fields `dd/mm/yyyy` build `new Date(yyyy, mm - 1, dd)` from their decimal values, leading zeros allowed. |
| ValueTranslator.IsoOfIntegerFields | angular-bootstrap-datepicker.js:106-112 | For integer fields, the result is the time value of local midnight of the day MakeDay carries them to, with years 0 to 99 read as 1900 to 1999. It is null only when that midnight is out of range. |
| ValueTranslator.IsoOfCarriedFields | angular-bootstrap-datepicker.js:106-112 | Integer fields that MakeDay carries to the valid date `c` give local midnight of `c`. |
| ValueTranslator.DateOfDisplayText | angular-bootstrap-datepicker.js:106-110 | The datepicker's own `dd/mm/yyyy` text of a date builds the Date from that date's year, month - 1 and day. |
| ValueTranslator.DateOfPaddedFields | angular-bootstrap-datepicker.js:106-110 | Zero-padded day, month and year fields build the Date from the numbers they render. |
| ValueTranslator.IsoRoundTrip | angular-bootstrap-datepicker.js:105-112 | For a valid date from year 100 on, its `dd/mm/yyyy` text gives a timestamp at local midnight of exactly that date. |
| ValueTranslator.IsoDayOverflow | angular-bootstrap-datepicker.js:106-112 | `31/02/2024` is not null: it is local midnight of 2 March 2024. |
| ValueTranslator.IsoMonthOverflow | angular-bootstrap-datepicker.js:106-112 | `15/13/2024` is not null: it is local midnight of 15 January 2025. |
| ValueTranslator.IsoTwoDigitYear | angular-bootstrap-datepicker.js:106-112 | `01/01/0050` is not the year 50: it is local midnight of 1 January 1950. |
| ValueTranslator.IsoEmptyFields | angular-bootstrap-datepicker.js:106-112 | `//` is not null: empty fields convert to 0, so it is local midnight of 30 November 1899. |
| DateConstructor.FullYear | angular-bootstrap-datepicker.js:110 | The two-digit year rule keeps NaN and the infinities, and keeps finite years finite. Its value for a finite year is given by `FullYearOfFinite`. |
| DateConstructor.FullYearOfFinite | angular-bootstrap-datepicker.js:110 | A finite year whose integer part is 0 to 99 becomes 1900 plus that part; any other finite year keeps its integer part. |
| DateConstructor.TwoDigitYear | angular-bootstrap-datepicker.js:110 | An integer year 0 to 99 means 1900 to 1999; any other year is kept. |
| DateConstructor.NewDate | angular-bootstrap-datepicker.js:110 | A Date that is not NaN has a time value within 8.64e15 ms of the epoch. Its value for every argument is given by `NewDateNonFinite` (any non-finite argument) and `NewDateOfFinite` (all arguments finite). |
| DateConstructor.NewDateOfFinite | angular-bootstrap-datepicker.js:110 | For finite arguments, integers or not, the Date is local midnight of the MakeDay day of their integer parts (after the two-digit year rule) when that is in range, and NaN otherwise. |
| DateConstructor.NewDateOfFractions | angular-bootstrap-datepicker.js:110 | `new Date(99.5, 2.5, 1.5)` is local midnight of 1 March 1999. |
| DateConstructor.NewDateNonFinite | angular-bootstrap-datepicker.js:110 | A NaN or infinite year, month or day makes the Date NaN. |
| DateConstructor.NewDateOfIntegers | angular-bootstrap-datepicker.js:110 | For integer arguments, the Date is local midnight of the MakeDay day (after the two-digit year rule) when that is in range, and NaN otherwise. |
| DateConstructor.NewDateOfCivil | angular-bootstrap-datepicker.js:110 | For a valid date from year 100 on, the Date built from it is local midnight of that date's day number. |
| DateConstructor.LocalMidnight | angular-bootstrap-datepicker.js:110-112 | The local midnight of a day number falls on that day, at local time 0. |
| DateConstructor.LocalDateOfCivil | angular-bootstrap-datepicker.js:110-112 | The local midnight of a valid date reads back as that date, at local time 0. |
| Calendar.MakeDayNormalises | angular-bootstrap-datepicker.js:110 | Any year, month and day give the day number of a valid civil date. When the month and day are in range, that date is the one given. |
| Calendar.CivilOfDay | angular-bootstrap-datepicker.js:110 | Every day number is the day number of the valid civil date `CivilOf` gives. |
| Calendar.DayOfCivilRoundTrip | angular-bootstrap-datepicker.js:110 | A valid civil date is read back from its day number. |
| Calendar.DayOfCivilInjective | angular-bootstrap-datepicker.js:110 | Different valid civil dates have different day numbers. |
| Calendar.MakeDayShiftsDays | angular-bootstrap-datepicker.js:110 | Adding k to the day argument moves the day number by k. |
| Calendar.MakeDayCarriesMonths | angular-bootstrap-datepicker.js:110 | Month m + 12 of year y is month m of year y + 1. |
| StringToNumber.ToNumberOfDigits | angular-bootstrap-datepicker.js:107-110 | A non-empty field of decimal digits converts to its decimal value, leading zeros included. |
| StringToNumber.ToNumberOfPaddedDecimal | angular-bootstrap-datepicker.js:107-110 | A zero-padded decimal rendering of n converts back to n. |
| StringToNumber.ToNumberOfBlank | angular-bootstrap-datepicker.js:107-110 | An empty or all-white-space field converts to 0. |
| StringToNumber.ToNumberOfNonNumeric | angular-bootstrap-datepicker.js:107-110 | A field whose first non-blank character cannot start a numeric literal converts to NaN. |
| JsValues.Split | angular-bootstrap-datepicker.js:107-109 | Splitting gives at least one piece, and no piece holds the separator. |
| JsValues.JoinSplit | angular-bootstrap-datepicker.js:107-109 | Joining the pieces of a split gives back the text. |
| JsValues.SplitJoin | angular-bootstrap-datepicker.js:107-109 | Splitting joined pieces that hold no separator gives back the pieces. |
| JsValues.SplitAppend | angular-bootstrap-datepicker.js:107-109 | A separator splits the text into the pieces before it followed by the pieces after it. |
| JsValues.Subtract | angular-bootstrap-datepicker.js:110 | `month - 1` keeps NaN and the infinities, and lowers a finite month by one. |
| JsValues.ToInteger | angular-bootstrap-datepicker.js:110 | The Date constructor's arguments are truncated toward zero. |
| Directive.Datepicker.constructor | angular-bootstrap-datepicker.js:53-57 | The link function starts with the bound `dateFormat` and `datepickerOptions`, the element's text, and no widget. |
| Directive.Datepicker.SendRemove | angular-bootstrap-datepicker.js:62 | `element.datepicker('remove')` records a remove and leaves the element without a widget. |
| Directive.Datepicker.Initialize | angular-bootstrap-datepicker.js:69-75 | The element's text becomes the given value, and one widget is created with the options the policy computes. |
| Directive.Datepicker.DatepickerOptionsChanged | angular-bootstrap-datepicker.js:59-64 | A missing options value changes nothing. Any other value sends exactly one remove, then one create with the freshly computed options. The element's text is the same after the rebuild, and the invariant is kept. |
| Directive.Datepicker.Format | angular-bootstrap-datepicker.js:95-99 | The `$formatters` entry gives `formatIn` of the model value. |
| Directive.Datepicker.Parse | angular-bootstrap-datepicker.js:119-121 | The `$parsers` entry ignores its argument and gives `formatOut` of the element's current text. |
| Directive.WidgetAfterRebuilds | angular-bootstrap-datepicker.js:59-75 | Under the invariant, the element has a widget exactly when a rebuild has happened, and that widget is the last one created. |

## Left out

- `Date.prototype.toISOString` (line 112): the model yields the Date's time value, not its ISO 8601 text.
- Angular's `dateFilter` (line 88) is an opaque function parameter of `FormatIn`.
- The host time zone is a fixed LocalTZA offset, the parameter `tza`. Daylight saving time is not modelled.
- JavaScript Numbers are exact rationals. IEEE double rounding is not modelled, and neither is the overflow of MakeDay's intermediate results for huge arguments. The model can therefore be wrong when rounding a field to the nearest double changes its integer part, or the integer part of `month - 1`. This can happen with a field of more than about 15 significant digits: JavaScript reads a day of `0.99999999999999999` as 1, the model truncates it to 0.
- `ToNumber` does not treat U+180E as white space (ECMA-262 6th edition lists it through the Unicode Zs category of its time).
- `_.merge` (line 38) is modelled on flat option maps: a defined source value wins, and an `undefined` source value does not erase an existing key. The defaults hold only scalars, so a nested override object or array is copied by value, as lodash's deep merge leaves it. Aliasing between the options and the caller's object is not modelled.
- A truthy `datepickerOptions` binding that is not an object (a number or a string) is not modelled. The binding is either an options map or absent.
- The `$watch` deep-equality test and the digest loop are not modelled. `DatepickerOptionsChanged` is the listener, called with the new value, including the first call Angular makes on registration.
- The widget's internals are not modelled. The widget is the options it was created with, plus the history of commands sent to it. How the widget handles `remove` when it does not exist is not modelled.
- The `$formatters.unshift` and `$parsers.unshift` registration (lines 95, 119) is framework plumbing. `Format` and `Parse` are the registered functions.
