/**
 The few PHP runtime behaviours the client relies on: byte strings, scalar
 values with their truthiness and string conversion, `strtolower` and
 `explode` with a limit of two.
 */
module Php {
  import opened Wrappers

  /** A PHP string is a sequence of bytes; a byte is a character below 256. */
  type Byte = c: char | c as int < 256 witness 'a'
  type Bytes = seq<Byte>

  /** The scalar values a caller may put in an array passed to the client. */
  datatype Scalar = Null | Bool(b: bool) | Int(i: int) | Str(s: Bytes)

  /** `isset($a[$k])` on a present key: false only for null. */
  predicate IsSet(v: Scalar) {
    !v.Null?
  }

  /** `if ($v)`: PHP's loose truthiness. */
  predicate Truthy(v: Scalar) {
    match v
    case Null => false
    case Bool(b) => b
    case Int(i) => i != 0
    case Str(s) => s != "" && s != "0"
  }

  /** `empty($s)` for a string. */
  predicate EmptyString(s: Bytes) {
    s == "" || s == "0"
  }

  predicate IsDigit(c: Byte) {
    '0' <= c <= '9'
  }

  predicate AllDigits(s: Bytes) {
    forall i :: 0 <= i < |s| ==> IsDigit(s[i])
  }

  function DigitValue(c: Byte): nat
    requires IsDigit(c)
  {
    c as int - '0' as int
  }

  function Digit(d: nat): (c: Byte)
    requires d < 10
    ensures IsDigit(c) && DigitValue(c) == d
  {
    ('0' as int + d) as char
  }

  /** The decimal text PHP writes for a non-negative integer. */
  function NatToDecimal(n: nat): (r: Bytes)
    ensures |r| >= 1
    ensures AllDigits(r)
    ensures r[0] == '0' ==> n == 0
    decreases n
  {
    if n < 10 then [Digit(n)] else NatToDecimal(n / 10) + [Digit(n % 10)]
  }

  /** The value of a string of decimal digits. */
  function DecimalValue(s: Bytes): nat
    requires AllDigits(s)
  {
    if |s| == 0 then 0
    else DecimalValue(s[..|s| - 1]) * 10 + DigitValue(s[|s| - 1])
  }

  lemma {:induction false} DecimalRoundTrip(n: nat)
    ensures DecimalValue(NatToDecimal(n)) == n
    decreases n
  {
    if n >= 10 {
      var r := NatToDecimal(n);
      assert r[..|r| - 1] == NatToDecimal(n / 10);
      DecimalRoundTrip(n / 10);
    }
  }

  /** The text PHP writes for an integer: an optional minus sign, then decimal digits. */
  function IntToString(i: int): (r: Bytes)
    ensures i >= 0 ==> r == NatToDecimal(i)
    ensures i < 0 ==> r == "-" + NatToDecimal(-i)
  {
    if i < 0 then "-" + NatToDecimal(-i) else NatToDecimal(i)
  }

  /** Reads back the text written by IntToString. */
  function ParseInt(s: Bytes): Option<int> {
    if |s| > 1 && s[0] == '-' && AllDigits(s[1..]) then
      var magnitude: int := DecimalValue(s[1..]);
      Some(-magnitude)
    else if |s| > 0 && AllDigits(s) then
      Some(DecimalValue(s))
    else
      None
  }

  lemma IntToStringRoundTrip(i: int)
    ensures ParseInt(IntToString(i)) == Some(i)
  {
    var r := IntToString(i);
    if i < 0 {
      var d := NatToDecimal(-i);
      assert r[0] == '-' && r[1..] == d;
      DecimalRoundTrip(-i);
    } else {
      assert IsDigit(r[0]);
      DecimalRoundTrip(i);
    }
  }

  /** String conversion, as done by `.` concatenation and `htmlspecialchars`. */
  function ToStr(v: Scalar): Bytes {
    match v
    case Null => ""
    case Bool(b) => if b then "1" else ""
    case Int(i) => IntToString(i)
    case Str(s) => s
  }

  /**
   An integer's string form reads back as the integer, and the string form is
   empty exactly for null, false and the empty string.
   */
  lemma ToStrFaithful(v: Scalar)
    ensures v.Int? ==> ParseInt(ToStr(v)) == Some(v.i)
    ensures ToStr(v) == [] <==> v == Null || v == Bool(false) || v == Str([])
  {
    if v.Int? {
      IntToStringRoundTrip(v.i);
    }
  }

  /** A scalar is truthy exactly when its string form is not `empty`. */
  lemma TruthyIffStringNotEmpty(v: Scalar)
    ensures Truthy(v) <==> !EmptyString(ToStr(v))
  {
    if v.Int? {
      var r := IntToString(v.i);
      if r == "0" {
        IntToStringRoundTrip(v.i);
        assert DecimalValue("0") == 0;
      }
      if v.i == 0 {
        assert NatToDecimal(0) == "0";
      }
    }
  }

  predicate IsUpper(c: Byte) {
    'A' <= c <= 'Z'
  }

  /** `strtolower` on one byte, ASCII letters only. */
  function LowerByte(c: Byte): (r: Byte)
    ensures !IsUpper(r)
    ensures IsUpper(c) ==> r as int == c as int + 32
    ensures !IsUpper(c) ==> r == c
  {
    if IsUpper(c) then (c as int + 32) as char else c
  }

  predicate LowerCase(s: Bytes) {
    forall i :: 0 <= i < |s| ==> !IsUpper(s[i])
  }

  /** `strtolower`. */
  function Lower(s: Bytes): (r: Bytes)
    ensures |r| == |s|
    ensures forall i :: 0 <= i < |s| ==> r[i] == LowerByte(s[i])
  {
    if |s| == 0 then [] else [LowerByte(s[0])] + Lower(s[1..])
  }

  /** Lower-casing text that has no upper-case letter changes nothing. */
  lemma LowerOfLowerCase(s: Bytes)
    requires LowerCase(s)
    ensures Lower(s) == s
  {
  }

  lemma {:induction false} LowerAppend(a: Bytes, b: Bytes)
    ensures Lower(a + b) == Lower(a) + Lower(b)
  {
  }

  /**
   `explode(sep, s, 2)`: the text before the first `sep` and, when `sep`
   occurs, the text after it.
   */
  function Explode2(s: Bytes, sep: Byte): (r: (Bytes, Option<Bytes>))
    ensures sep !in r.0
    ensures r.1.None? <==> sep !in s
    ensures r.1.None? ==> r.0 == s
    ensures r.1.Some? ==> s == r.0 + [sep] + r.1.value
  {
    if |s| == 0 then ([], None)
    else if s[0] == sep then ([], Some(s[1..]))
    else
      var rest := Explode2(s[1..], sep);
      ([s[0]] + rest.0, rest.1)
  }

  /** The split happens at the first separator, whatever follows it. */
  lemma {:induction false} Explode2AtFirst(a: Bytes, sep: Byte, b: Bytes)
    requires sep !in a
    ensures Explode2(a + [sep] + b, sep) == (a, Some(b))
  {
    var s := a + [sep] + b;
    if |a| == 0 {
      assert s[1..] == b;
    } else {
      assert s[0] == a[0];
      assert s[1..] == a[1..] + [sep] + b;
      Explode2AtFirst(a[1..], sep, b);
      assert [a[0]] + a[1..] == a;
    }
  }
}
