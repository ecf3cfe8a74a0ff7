/**
 * The JavaScript values the directive reads and produces: the option values
 * of the datepicker, the `ngModel` value, JavaScript numbers, the truthiness
 * test that every `if (x)` of the directive performs, and
 * `String.prototype.split` with a one-character separator.
 */
module JsValues {

  datatype Option<+T> = None | Some(value: T)

  /** A JavaScript Number: NaN, one of the two infinities, or a finite value.
      Finite values are exact rationals; the rounding of IEEE doubles is not
      part of this model. */
  datatype JsNumber = NaN | Infinity(negative: bool) | Finite(value: real)

  /** The JavaScript values that can reach the directive: option values, the
      model value and the bound attributes. Functions are opaque references. */
  datatype JsValue =
    | Undefined
    | Null
    | Bool(b: bool)
    | Num(n: JsNumber)
    | Str(s: string)
    | Arr(items: seq<JsValue>)
    | Obj(fields: map<string, JsValue>)
    | Fun(id: nat)

  /** ToBoolean (section 7.1.2 of ECMA-262 6th edition): the falsy values are
      undefined, null, false, +0, -0, NaN and the empty string. */
  predicate Truthy(v: JsValue) {
    match v
    case Undefined => false
    case Null => false
    case Bool(b) => b
    case Num(n) => !n.NaN? && n != Finite(0.0)
    case Str(s) => s != ""
    case _ => true
  }

  /** `a - b` for two Numbers that are not both infinite. */
  function Subtract(a: JsNumber, b: real): (r: JsNumber)
    ensures a.NaN? ==> r.NaN?
    ensures a.Infinity? ==> r == a
    ensures a.Finite? ==> r.Finite? && r.value + b == a.value
  {
    match a
    case Finite(x) => Finite(x - b)
    case _ => a
  }

  /** ToInteger (section 7.1.4): the finite value truncated toward zero. */
  function ToInteger(x: real): (r: int)
    ensures x >= 0.0 ==> r as real <= x < r as real + 1.0
    ensures x < 0.0 ==> r as real - 1.0 < x <= r as real
  {
    if x >= 0.0 then x.Floor else -((-x).Floor)
  }

  /** `s.split(sep)` for a one-character separator: the maximal pieces of `s`
      between occurrences of `sep`, in order, always at least one. */
  function Split(s: string, sep: char): (parts: seq<string>)
    ensures |parts| >= 1
    ensures forall i :: 0 <= i < |parts| ==> sep !in parts[i]
  {
    if s == [] then [""]
    else
      var rest := Split(s[1..], sep);
      if s[0] == sep then [""] + rest
      else [[s[0]] + rest[0]] + rest[1..]
  }

  /** `parts.join(sep)`. */
  function Join(parts: seq<string>, sep: char): string
    requires |parts| >= 1
  {
    if |parts| == 1 then parts[0] else parts[0] + [sep] + Join(parts[1..], sep)
  }

  /** Splitting then joining gives back the text. */
  lemma {:induction false} JoinSplit(s: string, sep: char)
    ensures Join(Split(s, sep), sep) == s
  {
    if s != [] {
      JoinSplit(s[1..], sep);
      var rest := Split(s[1..], sep);
      if s[0] != sep {
        if |rest| > 1 {
          assert [s[0]] + rest[0] + [sep] + Join(rest[1..], sep) == [s[0]] + Join(rest, sep);
        }
      }
    }
  }

  /** Splitting text that holds no separator gives the text as the only piece. */
  lemma {:induction false} SplitNoSeparator(s: string, sep: char)
    requires sep !in s
    ensures Split(s, sep) == [s]
  {
    if s != [] {
      SplitNoSeparator(s[1..], sep);
      assert s == [s[0]] + s[1..];
    }
  }

  /** A separator splits the text into the pieces before it and the pieces after it. */
  lemma {:induction false} SplitAppend(a: string, sep: char, b: string)
    ensures Split(a + [sep] + b, sep) == Split(a, sep) + Split(b, sep)
  {
    if a == [] {
      assert a + [sep] + b == [sep] + b;
      SplitCons(sep, b, sep);
    } else {
      var t := a[1..] + [sep] + b;
      var front := Split(a[1..], sep);
      calc {
        Split(a + [sep] + b, sep);
        { assert a + [sep] + b == [a[0]] + t; }
        Split([a[0]] + t, sep);
        { SplitCons(a[0], t, sep); SplitAppend(a[1..], sep, b); }
        if a[0] == sep then [""] + (front + Split(b, sep))
        else [[a[0]] + (front + Split(b, sep))[0]] + (front + Split(b, sep))[1..];
        { assert (front + Split(b, sep))[1..] == front[1..] + Split(b, sep); }
        (if a[0] == sep then [""] + front else [[a[0]] + front[0]] + front[1..]) + Split(b, sep);
        { SplitCons(a[0], a[1..], sep); assert a == [a[0]] + a[1..]; }
        Split(a, sep) + Split(b, sep);
      }
    }
  }

  /** Splitting a text by its first character. */
  lemma SplitCons(c: char, t: string, sep: char)
    ensures Split([c] + t, sep)
         == if c == sep then [""] + Split(t, sep) else [[c] + Split(t, sep)[0]] + Split(t, sep)[1..]
  {
    assert ([c] + t)[0] == c && ([c] + t)[1..] == t;
  }

  /** Joining pieces that hold no separator and splitting again gives the pieces back. */
  lemma {:induction false} SplitJoin(parts: seq<string>, sep: char)
    requires |parts| >= 1
    requires forall i :: 0 <= i < |parts| ==> sep !in parts[i]
    ensures Split(Join(parts, sep), sep) == parts
  {
    if |parts| == 1 {
      SplitNoSeparator(parts[0], sep);
    } else {
      SplitJoin(parts[1..], sep);
      SplitAppend(parts[0], sep, Join(parts[1..], sep));
      SplitNoSeparator(parts[0], sep);
      assert parts == [parts[0]] + parts[1..];
    }
  }
}
