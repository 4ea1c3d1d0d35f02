/**
 The entity decoding of character data. The predefined entities and the
 character reference `&#039;` that `htmlspecialchars` writes stand for one
 byte each; a `<` cannot appear in text, and an `&` must start a reference.
 Line-end and attribute-value normalisation and character checks are not
 part of this decoding.
 */
module Xml {
  import opened Wrappers
  import opened Php
  import opened Scan
  import Html

  /** Text holding neither of the bytes that mean markup in character data. */
  predicate Unmarked(s: Bytes) {
    '<' !in s && '&' !in s
  }

  /** Text that can also stand between the double quotes of an attribute. */
  predicate AttributeSafe(s: Bytes) {
    '"' !in s && Unmarked(s)
  }

  /** The references a reader replaces, as `htmlspecialchars` writes them. */
  const AmpRef: Bytes := "&amp;"
  const LtRef: Bytes := "&lt;"
  const GtRef: Bytes := "&gt;"
  const QuotRef: Bytes := "&quot;"
  const AposRef: Bytes := "&apos;"
  const NumericAposRef: Bytes := "&#039;"

  /** The reference at the front of `s`: the byte it stands for and its length. */
  function Reference(s: Bytes): (r: Option<(Byte, nat)>)
    ensures r.Some? ==> 4 <= r.value.1 <= |s| && s[0] == '&' && '<' !in s[..r.value.1]
  {
    if StartsWith(s, AmpRef) then Some(('&', 5))
    else if StartsWith(s, LtRef) then Some(('<', 4))
    else if StartsWith(s, GtRef) then Some(('>', 4))
    else if StartsWith(s, QuotRef) then Some(('"', 6))
    else if StartsWith(s, AposRef) then Some(('\'', 6))
    else if StartsWith(s, NumericAposRef) then Some(('\'', 6))
    else None
  }

  /**
   The text `s` stands for, every reference replaced by its byte; `None` when
   `s` holds a `<` or an `&` that starts no reference.
   */
  function Text(s: Bytes): (r: Option<Bytes>)
    ensures r.Some? ==> '<' !in s && |r.value| <= |s|
    decreases |s|
  {
    if |s| == 0 then Some([])
    else if s[0] == '<' then None
    else if s[0] == '&' then
      var ref :- Reference(s);
      var rest :- Text(s[ref.1..]);
      NotInParts(s, ref.1, '<');
      Some([ref.0] + rest)
    else
      var rest :- Text(s[1..]);
      Some([s[0]] + rest)
  }

  /** Every reference is longer than the byte it stands for, so text holding one reads shorter. */
  lemma {:induction false} TextShortens(s: Bytes)
    requires Text(s).Some? && '&' in s
    ensures |Text(s).value| < |s|
  {
    if s[0] != '&' {
      var k :| 0 <= k < |s| && s[k] == '&';
      assert s[1..][k - 1] == '&';
      TextShortens(s[1..]);
    }
  }

  /** Reading one escaped byte yields the byte and leaves the rest to be read. */
  lemma TextEntity(c: Byte, q: Html.QuoteStyle, t: Bytes, u: Bytes)
    requires Text(t) == Some(u)
    ensures Text(Html.EntityFor(c, q) + t) == Some([c] + u)
  {
    var e := Html.EntityFor(c, q);
    var s := e + t;
    assert s[|e|..] == t;
    StartsWithAppend(e, t);
    if c == '&' {
    } else if c == '<' {
      DiffersAt(s, AmpRef, 1);
    } else if c == '>' {
      DiffersAt(s, AmpRef, 1);
      DiffersAt(s, LtRef, 1);
    } else if c == '"' {
      DiffersAt(s, AmpRef, 1);
      DiffersAt(s, LtRef, 1);
      DiffersAt(s, GtRef, 1);
    } else if c == '\'' && q == Html.EntQuotes {
      DiffersAt(s, AmpRef, 1);
      DiffersAt(s, LtRef, 1);
      DiffersAt(s, GtRef, 1);
      DiffersAt(s, QuotRef, 1);
      DiffersAt(s, AposRef, 2);
    } else {
      assert s[1..] == t;
    }
  }

  /** Whatever `htmlspecialchars` wrote is read back as the original text, under either quote style. */
  lemma {:induction false} EscapedText(s: Bytes, q: Html.QuoteStyle)
    ensures Text(Html.Escape(s, q)) == Some(s)
  {
    if |s| > 0 {
      EscapedText(s[1..], q);
      TextEntity(s[0], q, Html.Escape(s[1..], q), s[1..]);
      assert [s[0]] + s[1..] == s;
    }
  }

  /** Text is read as itself exactly when it holds no `<` and no `&`. */
  lemma {:induction false} TextIdentityIff(s: Bytes)
    ensures Text(s) == Some(s) <==> Unmarked(s)
  {
    if Text(s).Some? && '&' in s {
      TextShortens(s);
    }
    if |s| > 0 && s[0] != '<' && s[0] != '&' {
      TextIdentityIff(s[1..]);
      assert s == [s[0]] + s[1..];
      assert Unmarked(s) <==> Unmarked(s[1..]) by {
        assert forall k :: 1 <= k < |s| ==> s[k] == s[1..][k - 1];
      }
    }
  }
}
