/**
 * The PHP values the core handles: null, booleans, integers, strings and
 * string-keyed arrays, with the loose conversions the handlers apply to them
 * (`empty()`, string conversion, `strlen()`, the `(int)` cast).
 */
module Values {
  import opened Wrappers
  import opened Strings

  datatype Value =
    | Null
    | Bool(b: bool)
    | Int(i: int)
    | Str(s: string)
    | Arr(entries: seq<(string, Value)>)

  /** PHP's `empty()` on this value domain. */
  predicate IsEmpty(v: Value) {
    match v
    case Null => true
    case Bool(b) => !b
    case Int(i) => i == 0
    case Str(s) => s == "" || s == "0"
    case Arr(e) => |e| == 0
  }

  /** Exactly six values are empty; every other value is not. */
  lemma EmptyValues(v: Value)
    ensures IsEmpty(v) <==> v in {Null, Bool(false), Int(0), Str(""), Str("0"), Arr([])}
  {
  }

  // ---------------------------------------------------------------------
  // decimal notation

  predicate IsDigit(c: char) {
    '0' <= c <= '9'
  }

  predicate AllDigits(s: string) {
    forall i :: 0 <= i < |s| ==> IsDigit(s[i])
  }

  function DigitChar(d: nat): (c: char)
    requires d < 10
    ensures IsDigit(c)
  {
    ('0' as int + d) as char
  }

  function DigitValue(c: char): (d: nat)
    requires IsDigit(c)
    ensures d < 10 && DigitChar(d) == c
  {
    c as int - '0' as int
  }

  /** The decimal digits of `n`, most significant first, without leading zeros. */
  function Digits(n: nat): (s: string)
    ensures |s| >= 1 && AllDigits(s)
    ensures |s| > 1 ==> s[0] != '0'
    decreases n
  {
    if n < 10 then [DigitChar(n)] else Digits(n / 10) + [DigitChar(n % 10)]
  }

  /** The number an all-digit string denotes. */
  function DigitsValue(s: string): nat
    requires AllDigits(s)
    decreases |s|
  {
    if s == [] then 0 else DigitsValue(s[..|s| - 1]) * 10 + DigitValue(s[|s| - 1])
  }

  lemma {:induction false} DigitsValueOfDigits(n: nat)
    ensures DigitsValue(Digits(n)) == n
    decreases n
  {
    if n >= 10 {
      var s := Digits(n);
      assert s[..|s| - 1] == Digits(n / 10);
      DigitsValueOfDigits(n / 10);
    }
  }

  /** PHP's decimal string for an integer, as `(string)` and string interpolation produce it. */
  function DecimalString(i: int): (s: string)
    ensures |s| >= 1
  {
    if i < 0 then "-" + Digits(-i) else Digits(i)
  }

  /** PHP's string conversion (`(string)`, interpolation); an array becomes "Array". */
  function ToPhpString(v: Value): string {
    match v
    case Null => ""
    case Bool(b) => if b then "1" else ""
    case Int(i) => DecimalString(i)
    case Str(s) => s
    case Arr(_) => "Array"
  }

  /** `strlen()` outside strict mode: the length of the string conversion; None where PHP throws a TypeError (arrays). */
  function StrLen(v: Value): (n: Option<nat>)
    ensures n.None? <==> v.Arr?
    ensures v.Str? ==> n == Some(|v.s|)
    ensures v.Null? || v == Bool(false) ==> n == Some(0)
    ensures v == Bool(true) ==> n == Some(1)
    ensures v.Int? ==> n == Some(|DecimalString(v.i)|)
  {
    if v.Arr? then None else Some(|ToPhpString(v)|)
  }

  // ---------------------------------------------------------------------
  // the (int) cast of a string

  predicate IsWhitespace(c: char) {
    c == ' ' || c == '\t' || c == '\n' || c == '\r' || c == '\U{B}' || c == '\U{C}'
  }

  function TrimLeft(s: string): (t: string)
    ensures |t| <= |s| && t == s[|s| - |t|..]
    ensures t != [] ==> !IsWhitespace(t[0])
    decreases |s|
  {
    if s != [] && IsWhitespace(s[0]) then TrimLeft(s[1..]) else s
  }

  /** The longest run of digits at the front of `s`. */
  function LeadingDigits(s: string): (d: string)
    ensures AllDigits(d) && IsPrefix(d, s)
    decreases |s|
  {
    if s != [] && IsDigit(s[0]) then [s[0]] + LeadingDigits(s[1..]) else []
  }

  lemma {:induction false} LeadingDigitsOfDigits(s: string)
    requires AllDigits(s)
    ensures LeadingDigits(s) == s
    decreases |s|
  {
    if s != [] {
      LeadingDigitsOfDigits(s[1..]);
      assert s == [s[0]] + s[1..];
    }
  }

  /**
   * `(int)` of a string: leading whitespace is skipped, then an optional sign
   * and the leading digits are read; a string with no leading digits gives 0.
   */
  function StrToInt(s: string): int {
    var t := TrimLeft(s);
    if t != [] && t[0] == '-' then 0 - DigitsValue(LeadingDigits(t[1..])) as int
    else if t != [] && t[0] == '+' then DigitsValue(LeadingDigits(t[1..]))
    else DigitsValue(LeadingDigits(t))
  }

  /** Reading back the decimal string of an integer gives that integer. */
  lemma {:induction false} DecimalRoundTrip(i: int)
    ensures StrToInt(DecimalString(i)) == i
  {
    var n: nat := if i < 0 then -i else i;
    var d := Digits(n);
    LeadingDigitsOfDigits(d);
    DigitsValueOfDigits(n);
    var s := DecimalString(i);
    if i < 0 {
      assert s == "-" + d;
      NoLeadingSpace(s);
      assert s[1..] == d;
    } else {
      assert s == d;
      assert IsDigit(s[0]);
      NoLeadingSpace(s);
    }
  }

  lemma NoLeadingSpace(s: string)
    requires s != [] && !IsWhitespace(s[0])
    ensures TrimLeft(s) == s
  {
  }
}
