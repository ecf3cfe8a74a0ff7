/**
 * The option policy of the directive (`computeDatepickerOptions` in
 * angular-bootstrap-datepicker.js): the options the bootstrap-datepicker
 * widget is created with. They start from the directive's defaults (French,
 * close on pick, `dd/mm/yyyy`), take the caller's `datepickerOptions` object
 * over them with lodash's `_.merge`, and finally take the `dateFormat`
 * attribute as `format` unless it is empty, missing or the `ISOString`
 * sentinel, which the widget would not understand.
 */
module DatepickerOptions {
  import opened JsValues

  /** An options object, by its own enumerable properties. */
  type Options = map<string, JsValue>

  /** The `dateFormat` value that asks for timestamps in the model. */
  const IsoStringFormat: string := "ISOString"

  /** The widget's date format when the caller names none. */
  const DefaultFormat: string := "dd/mm/yyyy"

  /** The options the directive starts from. */
  function DefaultOptions(): (defaults: Options)
    ensures defaults.Keys == {"language", "autoclose", "format"}
  {
    map["language" := Str("fr"), "autoclose" := Bool(true), "format" := Str(DefaultFormat)]
  }

  /** `_.merge(dest, src)` on flat options: every property of `src` is copied
      over `dest`, except that an `undefined` value does not erase a property
      `dest` already has. Nested objects and arrays are copied by value, which
      is what lodash's deep merge gives when `dest` holds no object there. */
  function Merge(dest: Options, src: Options): (merged: Options)
    ensures merged.Keys == dest.Keys + src.Keys
  {
    map k | k in dest.Keys + src.Keys ::
      if k in src && (src[k] != Undefined || k !in dest) then src[k] else dest[k]
  }

  /** Whether the `dateFormat` attribute is copied into the options: it must
      be truthy (present and not empty) and not the `ISOString` sentinel. */
  predicate FormatApplies(dateFormat: Option<string>) {
    dateFormat.Some? && dateFormat.value != "" && dateFormat.value != IsoStringFormat
  }

  /** What each option ends up as, source by source: the `dateFormat`
      attribute for `format` when it applies, else the caller's override when
      it has a defined one (or one for a property the defaults lack), else
      the default. A missing or null `datepickerOptions` binding is None. */
  function OptionsOf(dateFormat: Option<string>, overrides: Option<Options>): Options {
    var given := if overrides.Some? then overrides.value else map[];
    map k | k in DefaultOptions().Keys + given.Keys ::
      if k == "format" && FormatApplies(dateFormat) then Str(dateFormat.value)
      else if k in given && (given[k] != Undefined || k !in DefaultOptions()) then given[k]
      else DefaultOptions()[k]
  }

  /** `computeDatepickerOptions`: builds the defaults, merges the overrides
      into them in place, then sets `format`. */
  method ComputeDatepickerOptions(dateFormat: Option<string>, overrides: Option<Options>)
    returns (options: Options)
    ensures options == OptionsOf(dateFormat, overrides)
  {
    options := DefaultOptions();
    if overrides.Some? {
      options := Merge(options, overrides.value);
    }
    if FormatApplies(dateFormat) {
      options := options["format" := Str(dateFormat.value)];
    }
  }

  // ---------------------------------------------------------------------------
  // Properties of the policy.

  /** Without overrides and without a usable `dateFormat` the options are
      exactly the defaults. */
  lemma DefaultsOnly(dateFormat: Option<string>)
    requires !FormatApplies(dateFormat)
    ensures OptionsOf(dateFormat, None) == DefaultOptions()
    ensures OptionsOf(dateFormat, None)
         == map["language" := Str("fr"), "autoclose" := Bool(true), "format" := Str("dd/mm/yyyy")]
  {
  }

  /** A usable `dateFormat` always becomes `format`, over the default and
      over any override. */
  lemma DateFormatWins(dateFormat: Option<string>, overrides: Option<Options>)
    requires FormatApplies(dateFormat)
    ensures "format" in OptionsOf(dateFormat, overrides)
    ensures OptionsOf(dateFormat, overrides)["format"] == Str(dateFormat.value)
  {
  }

  /** An `ISOString`, empty or missing `dateFormat` is never copied: `format`
      is the override's when it has a defined one, else the default. */
  lemma FormatWithoutDateFormat(dateFormat: Option<string>, overrides: Option<Options>)
    requires dateFormat == None || dateFormat == Some("") || dateFormat == Some(IsoStringFormat)
    ensures var given := if overrides.Some? then overrides.value else map[];
            OptionsOf(dateFormat, overrides)["format"]
              == if "format" in given && given["format"] != Undefined then given["format"]
                 else Str(DefaultFormat)
  {
  }

  /** The options hold the default properties and the overridden ones, no
      more. */
  lemma OptionKeys(dateFormat: Option<string>, overrides: Option<Options>)
    ensures var given := if overrides.Some? then overrides.value else map[];
            OptionsOf(dateFormat, overrides).Keys == DefaultOptions().Keys + given.Keys
  {
  }

  /** An override other than `format` wins over the default, unless it is
      `undefined` over a default property. */
  lemma OverridesWin(dateFormat: Option<string>, overrides: Options, k: string)
    requires k in overrides && k != "format"
    requires overrides[k] != Undefined || k !in DefaultOptions()
    ensures OptionsOf(dateFormat, Some(overrides))[k] == overrides[k]
  {
  }

  /** A default property that is not overridden (or overridden with
      `undefined`) keeps its default value, `format` aside. */
  lemma DefaultsKept(dateFormat: Option<string>, overrides: Option<Options>, k: string)
    requires k in DefaultOptions() && k != "format"
    requires overrides.Some? ==> k !in overrides.value || overrides.value[k] == Undefined
    ensures OptionsOf(dateFormat, overrides)[k] == DefaultOptions()[k]
  {
  }

  /** The policy is the merge followed by the format rule, whatever the
      overrides: OptionsOf agrees with lodash's merge property by property. */
  lemma OptionsOfIsMerge(dateFormat: Option<string>, overrides: Options)
    ensures var merged := Merge(DefaultOptions(), overrides);
            OptionsOf(dateFormat, Some(overrides))
              == if FormatApplies(dateFormat) then merged["format" := Str(dateFormat.value)] else merged
  {
  }
}
