/**
 PHP's `urlencode` and `urldecode`: letters, digits and `-_.` are kept, a
 space becomes `+`, every other byte becomes `%` and two upper-case
 hexadecimal digits.
 */
module Url {
  import opened Wrappers
  import opened Php

  predicate Unreserved(c: Byte) {
    'a' <= c <= 'z' || 'A' <= c <= 'Z' || '0' <= c <= '9' || c == '-' || c == '_' || c == '.'
  }

  /** The bytes `urlencode` can produce. None of them separates form fields. */
  predicate Encoded(c: Byte) {
    Unreserved(c) || c == '+' || c == '%'
  }

  function HexDigit(d: nat): (c: Byte)
    requires d < 16
    ensures HexValue(c) == Some(d)
  {
    if d < 10 then ('0' as int + d) as char else ('A' as int + d - 10) as char
  }

  /** The value of one hexadecimal digit, either case. */
  function HexValue(c: Byte): (r: Option<nat>)
    ensures r.Some? ==> r.value < 16
  {
    if '0' <= c <= '9' then Some(c as int - '0' as int)
    else if 'A' <= c <= 'F' then Some(c as int - 'A' as int + 10)
    else if 'a' <= c <= 'f' then Some(c as int - 'a' as int + 10)
    else None
  }

  function EncodeByte(c: Byte): (r: Bytes)
    ensures forall i :: 0 <= i < |r| ==> Encoded(r[i])
    ensures |r| >= 1 && (Unreserved(c) <==> r == [c])
  {
    if Unreserved(c) then [c]
    else if c == ' ' then "+"
    else ['%', HexDigit(c as int / 16), HexDigit(c as int % 16)]
  }

  /** `urlencode($s)`. */
  function Encode(s: Bytes): (r: Bytes)
    ensures forall i :: 0 <= i < |r| ==> Encoded(r[i])
    ensures |r| >= |s|
  {
    if |s| == 0 then [] else EncodeByte(s[0]) + Encode(s[1..])
  }

  /** `urldecode($s)`: `+` is a space, `%` with two hexadecimal digits is a byte, anything else stays. */
  function Decode(s: Bytes): (r: Bytes)
    ensures |r| <= |s|
    decreases |s|
  {
    if |s| == 0 then []
    else if s[0] == '+' then " " + Decode(s[1..])
    else if s[0] == '%' && |s| >= 3 && HexValue(s[1]).Some? && HexValue(s[2]).Some? then
      [(HexValue(s[1]).value * 16 + HexValue(s[2]).value) as char] + Decode(s[3..])
    else [s[0]] + Decode(s[1..])
  }

  lemma DecodeEncodedByte(c: Byte, t: Bytes)
    ensures Decode(EncodeByte(c) + t) == [c] + Decode(t)
  {
    var e := EncodeByte(c);
    var s := e + t;
    assert s[|e|..] == t;
    if !Unreserved(c) && c != ' ' {
      var hi, lo := c as int / 16, c as int % 16;
      assert s[1] == HexDigit(hi) && s[2] == HexDigit(lo);
      assert (hi * 16 + lo) as char == c;
    }
  }

  /** `urldecode(urlencode($s)) == $s`. */
  lemma {:induction false} RoundTrip(s: Bytes)
    ensures Decode(Encode(s)) == s
  {
    if |s| > 0 {
      DecodeEncodedByte(s[0], Encode(s[1..]));
      RoundTrip(s[1..]);
      assert [s[0]] + s[1..] == s;
    }
  }

  /** Decoding a doubly encoded payload twice gives it back exactly. */
  lemma DoubleRoundTrip(s: Bytes)
    ensures Decode(Decode(Encode(Encode(s)))) == s
  {
    RoundTrip(Encode(s));
    RoundTrip(s);
  }

  /** Encoded text never contains the form separators `&` and `=`. */
  lemma EncodedHasNoSeparators(s: Bytes)
    ensures '&' !in Encode(s) && '=' !in Encode(s)
  {
    var r := Encode(s);
    assert forall i :: 0 <= i < |r| ==> Encoded(r[i]);
  }

  /** `%` followed by two hexadecimal digits at position `i`: three bytes `urldecode` turns into one. */
  predicate PercentEscape(s: Bytes, i: nat)
    requires i < |s|
  {
    s[i] == '%' && i + 2 < |s| && HexValue(s[i + 1]).Some? && HexValue(s[i + 2]).Some?
  }

  /** Text `urldecode` has nothing to change in: no `+`, and no `%` before two hexadecimal digits. */
  predicate Inert(s: Bytes) {
    forall i :: 0 <= i < |s| ==> s[i] != '+' && !PercentEscape(s, i)
  }

  /** `urldecode` gives text back unchanged exactly when there is nothing in it to decode. */
  lemma {:induction false} DecodeIdentityIff(s: Bytes)
    ensures Decode(s) == s <==> Inert(s)
  {
    if |s| > 0 {
      if s[0] == '+' {
        assert Decode(s)[0] == ' ';
      } else if PercentEscape(s, 0) {
        assert |Decode(s)| < |s|;
      } else {
        DecodeIdentityIff(s[1..]);
        assert s == [s[0]] + s[1..];
        assert Decode(s) == [s[0]] + Decode(s[1..]);
        forall i | 1 <= i < |s|
          ensures s[i] == s[1..][i - 1] && (PercentEscape(s, i) <==> PercentEscape(s[1..], i - 1))
        {
        }
      }
    }
  }

  /** Text without `+` and `%` comes through `urldecode` unchanged. */
  lemma PlainDecodes(s: Bytes)
    requires '+' !in s && '%' !in s
    ensures Decode(s) == s
  {
    DecodeIdentityIff(s);
  }
}
