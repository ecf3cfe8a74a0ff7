/**
 * The directive's link function (angular-bootstrap-datepicker.js): the
 * element's text, the bootstrap-datepicker widget on it and the commands sent
 * to that widget, kept in step with the `datepickerOptions` binding by the
 * deep watch handler and `initialize`; and the `$formatters` / `$parsers`
 * entries that run the value translator.
 *
 * The widget is opaque: it is represented by the options it was created with
 * and by the history of commands the directive sent to it.
 */
module Directive {
  import opened JsValues
  import opened DatepickerOptions
  import opened ValueTranslator

  /** A command sent to the widget through `element.datepicker(...)`. */
  datatype WidgetCall = Remove | Create(options: Options)

  /** The widget that a history of commands leaves on the element: the one
      the last `Create` made, unless a `Remove` came after it. */
  function WidgetOf(calls: seq<WidgetCall>): Option<Options> {
    if calls == [] then None
    else match calls[|calls| - 1]
      case Remove => None
      case Create(o) => Some(o)
  }

  /** Every `Create` the directive sends comes right after a `Remove`: the
      history is a sequence of (remove, create) rebuilds. */
  predicate Rebuilds(calls: seq<WidgetCall>) {
    |calls| % 2 == 0 && forall i :: 0 <= i < |calls| ==> (calls[i].Remove? <==> i % 2 == 0)
  }

  class Datepicker {
    /** The `dateFormat` attribute (`@` binding); None when it is absent. */
    var dateFormat: Option<string>
    /** The `datepickerOptions` binding (`=`); None when it is undefined or null. */
    var datepickerOptions: Option<Options>
    /** The element's value, `element.val()`, which the widget uses as its store. */
    var text: string
    /** The widget on the element and the options it was created with. */
    var widget: Option<Options>
    /** The commands sent to the widget, oldest first. */
    var calls: seq<WidgetCall>
    /** The host's local time zone adjustment, in milliseconds. */
    const tza: int
    /** Angular's `dateFilter`, an opaque formatter. */
    const dateFilter: (JsValue, string) -> JsValue

    /** The widget is the one the commands sent so far leave on the element,
        and those commands are whole rebuilds. */
    predicate Valid()
      reads this
    {
      widget == WidgetOf(calls) && Rebuilds(calls)
    }

    /** The link function before the first digest: no widget yet. */
    constructor (dateFormat: Option<string>, datepickerOptions: Option<Options>, text: string,
                 tza: int, dateFilter: (JsValue, string) -> JsValue)
      ensures Valid()
      ensures this.dateFormat == dateFormat && this.datepickerOptions == datepickerOptions
      ensures this.text == text && widget == None && calls == []
      ensures this.tza == tza && this.dateFilter == dateFilter
    {
      this.dateFormat := dateFormat;
      this.datepickerOptions := datepickerOptions;
      this.text := text;
      this.tza := tza;
      this.dateFilter := dateFilter;
      widget := None;
      calls := [];
    }

    /** `element.datepicker('remove')`: the widget is destroyed. */
    method SendRemove()
      modifies this
      ensures calls == old(calls) + [Remove] && widget == None
      ensures text == old(text) && dateFormat == old(dateFormat)
      ensures datepickerOptions == old(datepickerOptions)
    {
      calls := calls + [Remove];
      widget := None;
    }

    /** `initialize(datepickerValue)`: stores the value in the element, then
        creates the widget with the options the policy computes. */
    method Initialize(datepickerValue: string)
      modifies this
      ensures text == datepickerValue
      ensures widget == Some(OptionsOf(dateFormat, datepickerOptions))
      ensures calls == old(calls) + [Create(OptionsOf(dateFormat, datepickerOptions))]
      ensures dateFormat == old(dateFormat) && datepickerOptions == old(datepickerOptions)
    {
      text := datepickerValue;
      var options := ComputeDatepickerOptions(dateFormat, datepickerOptions);
      calls := calls + [Create(options)];
      widget := Some(options);
    }

    /** The deep watch on `datepickerOptions`, called with the binding's new
        value: a missing value changes nothing; any object rebuilds the
        widget with freshly computed options, keeping the element's text. */
    method DatepickerOptionsChanged(current: Option<Options>)
      requires Valid()
      modifies this
      ensures Valid()
      ensures datepickerOptions == current && dateFormat == old(dateFormat) && text == old(text)
      ensures current == None ==> widget == old(widget) && calls == old(calls)
      ensures current != None ==>
                widget == Some(OptionsOf(dateFormat, current))
                && calls == old(calls) + [Remove, Create(OptionsOf(dateFormat, current))]
    {
      datepickerOptions := current;
      if current == None {
        return;
      }
      SendRemove();
      Initialize(text);
      assert calls == old(calls) + [Remove, Create(OptionsOf(dateFormat, current))];
    }

    /** The `$formatters` entry: the model value as the element's text. */
    method Format(modelValue: JsValue) returns (display: JsValue)
      ensures display == FormatIn(modelValue, dateFormat, dateFilter)
    {
      display := FormatIn(modelValue, dateFormat, dateFilter);
    }

    /** The `$parsers` entry: it ignores the view value Angular hands it and
        reads the element's current text. */
    method Parse(viewValue: JsValue) returns (modelValue: ModelValue)
      ensures modelValue == FormatOut(text, dateFormat, tza)
    {
      modelValue := FormatOut(text, dateFormat, tza);
    }
  }

  /** Under the invariant, the element carries a widget exactly when a
      rebuild has happened, and then it carries the last one created. */
  lemma WidgetAfterRebuilds(calls: seq<WidgetCall>)
    requires Rebuilds(calls)
    ensures WidgetOf(calls).Some? <==> calls != []
    ensures calls != [] ==> calls[|calls| - 1].Create? && WidgetOf(calls) == Some(calls[|calls| - 1].options)
  {
    if calls != [] {
      assert (|calls| - 1) % 2 == 1;
    }
  }
}
