/**
 * ToNumber applied to a String (section 7.1.3.1 of ECMA-262 6th edition):
 * the conversion the Date constructor and the `-` operator apply to each
 * `/`-separated field of the datepicker text.
 *
 * The text, with white space removed at both ends, is read as a
 * StringNumericLiteral: empty (the value 0), a binary, octal or hexadecimal
 * integer literal (`0b…`, `0o…`, `0x…`), or a signed decimal literal
 * (`Infinity`, or digits with an optional fraction and exponent). Anything
 * else is NaN. Values are exact; the rounding to the nearest double is not
 * modelled.
 */
module StringToNumber {
  import opened JsValues

  /** StrWhiteSpaceChar: the WhiteSpace code points (section 11.2: TAB, VT, FF,
      SP, NBSP, ZWNBSP and the other Zs space separators) and the
      LineTerminator code points (section 11.3: LF, CR, LS, PS). */
  predicate IsStrWhiteSpace(c: char) {
    || c == '\t' || c == '\n' || c == '\U{000B}' || c == '\U{000C}' || c == '\r'
    || c == ' ' || c == '\U{00A0}' || c == '\U{1680}'
    || ('\U{2000}' <= c <= '\U{200A}')
    || c == '\U{2028}' || c == '\U{2029}' || c == '\U{202F}' || c == '\U{205F}'
    || c == '\U{3000}' || c == '\U{FEFF}'
  }

  predicate AllWhiteSpace(s: string) {
    forall i :: 0 <= i < |s| ==> IsStrWhiteSpace(s[i])
  }

  /** `s` without its leading white space. */
  function TrimStart(s: string): (t: string)
    ensures |t| <= |s|
    ensures t == [] || !IsStrWhiteSpace(t[0])
  {
    if s != [] && IsStrWhiteSpace(s[0]) then TrimStart(s[1..]) else s
  }

  /** `s` without its trailing white space. */
  function TrimEnd(s: string): (t: string)
    ensures |t| <= |s|
    ensures t == [] || !IsStrWhiteSpace(t[|t| - 1])
  {
    if s != [] && IsStrWhiteSpace(s[|s| - 1]) then TrimEnd(s[..|s| - 1]) else s
  }

  function Trim(s: string): string {
    TrimEnd(TrimStart(s))
  }

  predicate IsDecimalDigit(c: char) {
    '0' <= c <= '9'
  }

  predicate AllDecimalDigits(s: string) {
    forall i :: 0 <= i < |s| ==> IsDecimalDigit(s[i])
  }

  /** The value of a digit character of radix up to 16, or 16 for any other character. */
  function DigitValue(c: char): (d: nat)
    ensures d <= 16
    ensures IsDecimalDigit(c) <==> d < 10
  {
    if '0' <= c <= '9' then (c - '0') as nat
    else if 'a' <= c <= 'f' then (c - 'a') as nat + 10
    else if 'A' <= c <= 'F' then (c - 'A') as nat + 10
    else 16
  }

  predicate AllDigitsOfRadix(s: string, radix: nat) {
    forall i :: 0 <= i < |s| ==> DigitValue(s[i]) < radix
  }

  /** The value of a string of digits in the given radix, most significant first. */
  function DigitsValue(ds: string, radix: nat): nat
    requires AllDigitsOfRadix(ds, radix)
  {
    if ds == [] then 0
    else DigitsValue(ds[..|ds| - 1], radix) * radix + DigitValue(ds[|ds| - 1])
  }

  function Power(base: nat, e: nat): (p: nat)
    ensures base > 0 ==> p > 0
  {
    if e == 0 then 1 else base * Power(base, e - 1)
  }

  /** 10 raised to an integer power, exactly. */
  function Pow10(e: int): (p: real)
    ensures p > 0.0
  {
    if e >= 0 then Power(10, e) as real else 1.0 / (Power(10, -e) as real)
  }

  /** The length of the longest prefix of `s` made of decimal digits. */
  function LeadingDigits(s: string): (n: nat)
    ensures n <= |s| && AllDecimalDigits(s[..n])
    ensures n < |s| ==> !IsDecimalDigit(s[n])
  {
    if s != [] && IsDecimalDigit(s[0]) then
      var n := 1 + LeadingDigits(s[1..]);
      assert forall i :: 1 <= i < n ==> s[..n][i] == s[1..][..n - 1][i - 1];
      n
    else 0
  }

  /** A SignedInteger filling all of `s`: an optional sign and at least one digit. */
  function SignedInteger(s: string): Option<int> {
    if s != [] && (s[0] == '+' || s[0] == '-') then
      var ds := s[1..];
      if ds != [] && AllDecimalDigits(ds) then
        Some(if s[0] == '-' then -(DigitsValue(ds, 10) as int) else DigitsValue(ds, 10))
      else None
    else if s != [] && AllDecimalDigits(s) then Some(DigitsValue(s, 10))
    else None
  }

  /** An optional ExponentPart filling all of `s`: its power of ten. */
  function Exponent(s: string): Option<int> {
    if s == [] then Some(0)
    else if s[0] == 'e' || s[0] == 'E' then SignedInteger(s[1..])
    else None
  }

  /** StrUnsignedDecimalLiteral: `Infinity`, or a mantissa with at least one
      digit, an optional `.` and fraction, and an optional exponent. */
  function UnsignedDecimal(t: string): JsNumber {
    if t == "Infinity" then Infinity(false)
    else
      var i := LeadingDigits(t);
      DecimalMantissa(t[..i], t[i..])
  }

  /** The rest of a decimal literal after its integer digits `whole`: an
      optional `.` and fraction, then an optional exponent. */
  function DecimalMantissa(whole: string, rest: string): JsNumber
    requires AllDecimalDigits(whole)
  {
    var hasDot := rest != [] && rest[0] == '.';
    var f := if hasDot then LeadingDigits(rest[1..]) else 0;
    var fraction := if hasDot then rest[1..][..f] else "";
    var tail := if hasDot then rest[1..][f..] else rest;
    if whole == [] && fraction == "" then NaN
    else
      DigitsConcat(whole, fraction);
      match Exponent(tail)
      case None => NaN
      case Some(e) => Finite(DigitsValue(whole + fraction, 10) as real * Pow10(e - |fraction|))
  }

  lemma DigitsConcat(a: string, b: string)
    requires AllDecimalDigits(a) && AllDecimalDigits(b)
    ensures AllDigitsOfRadix(a + b, 10)
  {
    assert forall k :: 0 <= k < |a + b| ==> IsDecimalDigit((a + b)[k]) by {
      forall k | 0 <= k < |a + b| ensures IsDecimalDigit((a + b)[k]) {
        if k < |a| { assert (a + b)[k] == a[k]; } else { assert (a + b)[k] == b[k - |a|]; }
      }
    }
  }

  function Negate(n: JsNumber): JsNumber {
    match n
    case NaN => NaN
    case Infinity(neg) => Infinity(!neg)
    case Finite(x) => Finite(-x)
  }

  /** StrDecimalLiteral: an optional sign before an unsigned decimal literal. */
  function SignedDecimal(t: string): JsNumber {
    if t != [] && t[0] == '+' then UnsignedDecimal(t[1..])
    else if t != [] && t[0] == '-' then Negate(UnsignedDecimal(t[1..]))
    else UnsignedDecimal(t)
  }

  /** A binary, octal or hexadecimal integer literal's digits (after the prefix). */
  function RadixInteger(ds: string, radix: nat): JsNumber {
    if ds != [] && AllDigitsOfRadix(ds, radix) then Finite(DigitsValue(ds, radix) as real) else NaN
  }

  function RadixOf(c: char): nat {
    if c == 'x' || c == 'X' then 16
    else if c == 'o' || c == 'O' then 8
    else if c == 'b' || c == 'B' then 2
    else 0
  }

  /** ToNumber of a String. */
  function ToNumber(s: string): JsNumber {
    var t := Trim(s);
    if t == [] then Finite(0.0)
    else if |t| >= 2 && t[0] == '0' && RadixOf(t[1]) != 0 then RadixInteger(t[2..], RadixOf(t[1]))
    else SignedDecimal(t)
  }

  // ---------------------------------------------------------------------------
  // Decimal rendering of natural numbers, the inverse direction.

  function DigitChar(d: nat): (c: char)
    requires d < 10
    ensures IsDecimalDigit(c) && DigitValue(c) == d
  {
    '0' + d as char
  }

  /** The decimal digits of `n`, without leading zeros. */
  function Decimal(n: nat): (s: string)
    ensures |s| >= 1 && AllDecimalDigits(s)
  {
    if n < 10 then [DigitChar(n)] else Decimal(n / 10) + [DigitChar(n % 10)]
  }

  /** The decimal digits of `n`, padded on the left with zeros to at least `width` characters. */
  function PaddedDecimal(n: nat, width: nat): (s: string)
    ensures |s| >= 1 && AllDecimalDigits(s)
  {
    var digits := Decimal(n);
    if |digits| >= width then digits else Zeros(width - |digits|) + digits
  }

  function Zeros(k: nat): (s: string)
    ensures |s| == k && AllDecimalDigits(s)
  {
    if k == 0 then "" else "0" + Zeros(k - 1)
  }

  /** Reading back the decimal rendering of `n` gives `n`. */
  lemma {:induction false} DecimalValue(n: nat)
    ensures DigitsValue(Decimal(n), 10) == n
  {
    if n >= 10 {
      DecimalValue(n / 10);
      var s := Decimal(n);
      assert s[..|s| - 1] == Decimal(n / 10);
    }
  }

  /** Leading zeros do not change the value of a digit string. */
  lemma {:induction false} LeadingZerosValue(k: nat, ds: string)
    requires AllDecimalDigits(ds)
    ensures AllDigitsOfRadix(Zeros(k) + ds, 10)
    ensures DigitsValue(Zeros(k) + ds, 10) == DigitsValue(ds, 10)
  {
    var s := Zeros(k) + ds;
    assert forall i :: 0 <= i < |s| ==> IsDecimalDigit(s[i]);
    if ds == [] {
      assert s == Zeros(k);
      ZerosValue(k);
    } else {
      LeadingZerosValue(k, ds[..|ds| - 1]);
      assert s[..|s| - 1] == Zeros(k) + ds[..|ds| - 1];
    }
  }

  lemma {:induction false} ZerosValue(k: nat)
    ensures DigitsValue(Zeros(k), 10) == 0
  {
    if k > 0 {
      var s := Zeros(k);
      ZerosValue(k - 1);
      assert s[..k - 1] == Zeros(k - 1) by {
        if k > 1 {
          ZerosPrefix(k - 1);
        }
      }
    }
  }

  lemma {:induction false} ZerosPrefix(k: nat)
    requires k >= 1
    ensures Zeros(k + 1)[..k] == Zeros(k)
  {
    if k > 1 {
      ZerosPrefix(k - 1);
    }
  }

  lemma PaddedDecimalValue(n: nat, width: nat)
    ensures DigitsValue(PaddedDecimal(n, width), 10) == n
  {
    var digits := Decimal(n);
    var k := if |digits| >= width then 0 else width - |digits|;
    assert PaddedDecimal(n, width) == Zeros(k) + digits;
    LeadingZerosValue(k, digits);
    DecimalValue(n);
  }

  // ---------------------------------------------------------------------------
  // What ToNumber gives for the texts the datepicker can hold.

  lemma TrimDigits(s: string)
    requires AllDecimalDigits(s)
    ensures Trim(s) == s
  {
    if s != [] {
      assert !IsStrWhiteSpace(s[0]);
      assert TrimStart(s) == s;
      assert !IsStrWhiteSpace(s[|s| - 1]);
    }
  }

  /** A non-empty string of decimal digits converts to its decimal value,
      leading zeros included. */
  lemma ToNumberOfDigits(ds: string)
    requires ds != [] && AllDecimalDigits(ds)
    ensures ToNumber(ds) == Finite(DigitsValue(ds, 10) as real)
  {
    TrimDigits(ds);
    assert |ds| >= 2 ==> RadixOf(ds[1]) == 0;
    assert ToNumber(ds) == SignedDecimal(ds);
    UnsignedDecimalOfDigits(ds);
  }

  lemma {:induction false} LeadingDigitsOfDigits(ds: string)
    requires AllDecimalDigits(ds)
    ensures LeadingDigits(ds) == |ds|
  {
    if ds != [] {
      LeadingDigitsOfDigits(ds[1..]);
    }
  }

  lemma UnsignedDecimalOfDigits(ds: string)
    requires ds != [] && AllDecimalDigits(ds)
    ensures UnsignedDecimal(ds) == Finite(DigitsValue(ds, 10) as real)
  {
    assert ds != "Infinity" by { assert !IsDecimalDigit('I'); }
    LeadingDigitsOfDigits(ds);
    assert ds[..|ds|] == ds && ds[|ds|..] == [];
    MantissaOfDigits(ds);
  }

  lemma MantissaOfDigits(ds: string)
    requires ds != [] && AllDecimalDigits(ds)
    ensures DecimalMantissa(ds, []) == Finite(DigitsValue(ds, 10) as real)
  {
    assert ds + "" == ds;
    assert Exponent([]) == Some(0) && Pow10(0) == 1.0;
  }

  /** Reading back a zero-padded decimal rendering gives the number: the day,
      month and year fields of the datepicker's own text convert exactly. */
  lemma ToNumberOfPaddedDecimal(n: nat, width: nat)
    ensures ToNumber(PaddedDecimal(n, width)) == Finite(n as real)
  {
    PaddedDecimalValue(n, width);
    ToNumberOfDigits(PaddedDecimal(n, width));
  }

  /** Empty text, or text made only of white space, converts to 0. */
  lemma ToNumberOfBlank(s: string)
    requires AllWhiteSpace(s)
    ensures ToNumber(s) == Finite(0.0)
  {
    if s != [] {
      BlankTrimsToEmpty(s);
    }
  }

  lemma {:induction false} BlankTrimsToEmpty(s: string)
    requires AllWhiteSpace(s)
    ensures TrimStart(s) == []
  {
    if s != [] {
      BlankTrimsToEmpty(s[1..]);
    }
  }

  /** Text whose first non-blank character cannot start a numeric literal (a
      letter other than `I`, a punctuation mark other than `+`, `-` or `.`)
      converts to NaN. */
  lemma ToNumberOfNonNumeric(s: string)
    requires Trim(s) != []
    requires var c := Trim(s)[0]; !IsDecimalDigit(c) && c != '+' && c != '-' && c != '.' && c != 'I'
    ensures ToNumber(s) == NaN
  {
    var t := Trim(s);
    assert LeadingDigits(t) == 0;
  }
}
