/**
 PHP's `htmlspecialchars` with its default arguments, and the matching
 `htmlspecialchars_decode`, which recovers the original text.
 */
module Html {
  import opened Php
  import opened Scan

  /**
   Which quotes are escaped: `ENT_COMPAT` (the default before PHP 8.1)
   leaves `'` alone, `ENT_QUOTES` (the default since PHP 8.1) writes it as
   `&#039;`.
   */
  datatype QuoteStyle = EntCompat | EntQuotes

  /** The bytes `htmlspecialchars` replaces by an entity. */
  predicate Special(c: Byte, q: QuoteStyle) {
    c == '&' || c == '"' || c == '<' || c == '>' || (c == '\'' && q == EntQuotes)
  }

  predicate NoSpecials(s: Bytes, q: QuoteStyle) {
    forall i :: 0 <= i < |s| ==> !Special(s[i], q)
  }

  function EntityFor(c: Byte, q: QuoteStyle): (r: Bytes)
    ensures Special(c, q) ==> |r| >= 4 && r[0] == '&'
    ensures !Special(c, q) ==> r == [c]
  {
    if c == '&' then "&amp;"
    else if c == '"' then "&quot;"
    else if c == '<' then "&lt;"
    else if c == '>' then "&gt;"
    else if c == '\'' && q == EntQuotes then "&#039;"
    else [c]
  }

  /** `htmlspecialchars($s)`. */
  function Escape(s: Bytes, q: QuoteStyle): (r: Bytes)
    ensures forall i :: 0 <= i < |r| ==> r[i] == '&' || !Special(r[i], q)
    ensures |r| >= |s|
    ensures |r| == |s| <==> NoSpecials(s, q)
    ensures NoSpecials(s, q) ==> r == s
  {
    if |s| == 0 then []
    else
      var rest := Escape(s[1..], q);
      assert NoSpecials(s, q) <==> !Special(s[0], q) && NoSpecials(s[1..], q) by {
        if !Special(s[0], q) && NoSpecials(s[1..], q) {
          assert forall i :: 1 <= i < |s| ==> s[i] == s[1..][i - 1];
        }
      }
      assert NoSpecials(s, q) ==> s == [s[0]] + s[1..];
      EntityFor(s[0], q) + rest
  }

  /** `htmlspecialchars_decode($s)` with the same quote style. */
  function Decode(s: Bytes, q: QuoteStyle): Bytes
    decreases |s|
  {
    if |s| == 0 then []
    else if StartsWith(s, "&amp;") then "&" + Decode(s[5..], q)
    else if StartsWith(s, "&quot;") then "\"" + Decode(s[6..], q)
    else if StartsWith(s, "&lt;") then "<" + Decode(s[4..], q)
    else if StartsWith(s, "&gt;") then ">" + Decode(s[4..], q)
    else if q == EntQuotes && StartsWith(s, "&#039;") then "'" + Decode(s[6..], q)
    else [s[0]] + Decode(s[1..], q)
  }

  /** Decoding an escaped byte gives the byte back and leaves what follows to be decoded. */
  lemma DecodeEntity(c: Byte, q: QuoteStyle, t: Bytes)
    ensures Decode(EntityFor(c, q) + t, q) == [c] + Decode(t, q)
  {
    var e := EntityFor(c, q);
    var s := e + t;
    assert s[|e|..] == t;
    StartsWithAppend(e, t);
    if c == '&' {
    } else if c == '"' {
      DiffersAt(s, "&amp;", 1);
    } else if c == '<' {
      DiffersAt(s, "&amp;", 1);
      DiffersAt(s, "&quot;", 1);
    } else if c == '>' {
      DiffersAt(s, "&amp;", 1);
      DiffersAt(s, "&quot;", 1);
      DiffersAt(s, "&lt;", 1);
    } else if c == '\'' && q == EntQuotes {
      DiffersAt(s, "&amp;", 1);
      DiffersAt(s, "&quot;", 1);
      DiffersAt(s, "&lt;", 1);
      DiffersAt(s, "&gt;", 1);
    } else {
      DiffersAt(s, "&amp;", 0);
      DiffersAt(s, "&quot;", 0);
      DiffersAt(s, "&lt;", 0);
      DiffersAt(s, "&gt;", 0);
      DiffersAt(s, "&#039;", 0);
    }
  }

  /** Escaped text decodes to exactly the original text. */
  lemma {:induction false} EscapeRoundTrip(s: Bytes, q: QuoteStyle)
    ensures Decode(Escape(s, q), q) == s
  {
    if |s| > 0 {
      DecodeEntity(s[0], q, Escape(s[1..], q));
      EscapeRoundTrip(s[1..], q);
      assert [s[0]] + s[1..] == s;
    }
  }

  /** Escaping leaves a string unchanged exactly when it holds no special byte. */
  lemma EscapeIsIdentityIff(s: Bytes, q: QuoteStyle)
    ensures Escape(s, q) == s <==> NoSpecials(s, q)
  {
  }
}
