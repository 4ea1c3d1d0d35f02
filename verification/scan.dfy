/**
 Reading byte strings from the front: literal prefixes, text up to a
 delimiter, and the segments of a `&`-separated form body. These are the
 tools the readers of the generated payloads are built from.
 */
module Scan {
  import opened Wrappers
  import opened Php

  predicate StartsWith(s: Bytes, prefix: Bytes) {
    |prefix| <= |s| && s[..|prefix|] == prefix
  }

  predicate EndsWith(s: Bytes, suffix: Bytes) {
    |suffix| <= |s| && s[|s| - |suffix|..] == suffix
  }

  /** Concatenation is associative; stated once so proofs need not rediscover it among long terms. */
  lemma AppendAssoc(a: Bytes, b: Bytes, c: Bytes)
    ensures (a + b) + c == a + (b + c)
  {
  }

  /** Five pieces followed by `rest`, regrouped to the right. */
  lemma Assoc5(a: Bytes, b: Bytes, c: Bytes, d: Bytes, e: Bytes, rest: Bytes)
    ensures a + b + c + d + e + rest == a + (b + (c + (d + (e + rest))))
  {
    AppendAssoc(a + b + c + d, e, rest);
    AppendAssoc(a + b + c, d, e + rest);
    AppendAssoc(a + b, c, d + (e + rest));
    AppendAssoc(a, b, c + (d + (e + rest)));
  }

  /** Two strings that differ at a position inside both cannot be prefix of one another. */
  lemma DiffersAt(s: Bytes, prefix: Bytes, k: nat)
    requires k < |s| && k < |prefix| && s[k] != prefix[k]
    ensures !StartsWith(s, prefix)
  {
    if |prefix| <= |s| {
      assert s[..|prefix|][k] == s[k] != prefix[k];
    }
  }

  /** A byte in neither part of a string is not in the string. */
  lemma NotInParts(s: Bytes, k: nat, c: Byte)
    requires k <= |s| && c !in s[..k] && c !in s[k..]
    ensures c !in s
  {
    assert s == s[..k] + s[k..];
  }

  lemma StartsWithAppend(prefix: Bytes, rest: Bytes)
    ensures StartsWith(prefix + rest, prefix)
  {
    assert (prefix + rest)[..|prefix|] == prefix;
  }

  /** Consumes the literal `lit` at the front of `s`. */
  function Expect(lit: Bytes, s: Bytes): (r: Option<Bytes>)
    ensures r.Some? <==> StartsWith(s, lit)
    ensures r.Some? ==> s == lit + r.value
  {
    if StartsWith(s, lit) then
      assert s == s[..|lit|] + s[|lit|..];
      Some(s[|lit|..])
    else None
  }

  lemma ExpectLiteral(lit: Bytes, rest: Bytes)
    ensures Expect(lit, lit + rest) == Some(rest)
  {
    PrefixDrop(lit, rest);
  }

  /** What follows a prefix is what was appended to it. */
  lemma PrefixDrop(prefix: Bytes, rest: Bytes)
    ensures StartsWith(prefix + rest, prefix) && (prefix + rest)[|prefix|..] == rest
  {
    StartsWithAppend(prefix, rest);
    assert (prefix + rest)[|prefix|..] == rest;
  }

  lemma ExpectWhole(lit: Bytes)
    ensures Expect(lit, lit) == Some([])
  {
    ExpectLiteral(lit, []);
    assert lit + [] == lit;
  }

  /**
   The text before the first `stop` and the text after it; `None` when
   `stop` does not occur.
   */
  function ReadUntil(s: Bytes, stop: Byte): (r: Option<(Bytes, Bytes)>)
    ensures r.Some? <==> stop in s
    ensures r.Some? ==> stop !in r.value.0 && s == r.value.0 + [stop] + r.value.1
  {
    if |s| == 0 then None
    else if s[0] == stop then
      assert s == [] + [stop] + s[1..];
      Some(([], s[1..]))
    else
      assert s == [s[0]] + s[1..];
      match ReadUntil(s[1..], stop)
      case None => None
      case Some(p) => Some(([s[0]] + p.0, p.1))
  }

  lemma {:induction false} ReadUntilFirst(text: Bytes, stop: Byte, rest: Bytes)
    requires stop !in text
    ensures ReadUntil(text + [stop] + rest, stop) == Some((text, rest))
  {
    var s := text + [stop] + rest;
    if |text| == 0 {
      assert s[1..] == rest;
    } else {
      assert s[0] == text[0];
      assert s[1..] == text[1..] + [stop] + rest;
      ReadUntilFirst(text[1..], stop, rest);
      assert [text[0]] + text[1..] == text;
    }
  }

  /**
   The text after the last `sep` (all of `s` when there is none): the last
   field of a `&`-separated form body.
   */
  function LastSegment(s: Bytes, sep: Byte): (r: Bytes)
    ensures sep !in r
    ensures EndsWith(s, r)
    ensures |r| < |s| ==> s[|s| - |r| - 1] == sep
    decreases |s|
  {
    if |s| == 0 then []
    else if s[|s| - 1] == sep then []
    else
      var r := LastSegment(s[..|s| - 1], sep);
      r + [s[|s| - 1]]
  }

  lemma {:induction false} LastSegmentAfter(head: Bytes, sep: Byte, tail: Bytes)
    requires sep !in tail
    ensures LastSegment(head + [sep] + tail, sep) == tail
    decreases |tail|
  {
    var s := head + [sep] + tail;
    if |tail| > 0 {
      assert s[..|s| - 1] == head + [sep] + tail[..|tail| - 1];
      LastSegmentAfter(head, sep, tail[..|tail| - 1]);
      assert tail[..|tail| - 1] + [tail[|tail| - 1]] == tail;
    }
  }

  /** `explode(sep, s)` without a limit: the pieces between separators. */
  function Split(s: Bytes, sep: Byte): (r: seq<Bytes>)
    ensures |r| >= 1
    ensures forall i :: 0 <= i < |r| ==> sep !in r[i]
    decreases |s|
  {
    var p := Explode2(s, sep);
    if p.1.None? then [s] else [p.0] + Split(p.1.value, sep)
  }

  /** Splitting a join of separator-free pieces gives the pieces back. */
  lemma {:induction false} SplitJoin(pieces: seq<Bytes>, sep: Byte)
    requires |pieces| >= 1
    requires forall i :: 0 <= i < |pieces| ==> sep !in pieces[i]
    ensures Split(Join(pieces, sep), sep) == pieces
    decreases |pieces|
  {
    if |pieces| > 1 {
      Explode2AtFirst(pieces[0], sep, Join(pieces[1..], sep));
      SplitJoin(pieces[1..], sep);
    }
  }

  /** `implode(sep, pieces)`. */
  function Join(pieces: seq<Bytes>, sep: Byte): Bytes
    requires |pieces| >= 1
    decreases |pieces|
  {
    if |pieces| == 1 then pieces[0] else pieces[0] + [sep] + Join(pieces[1..], sep)
  }

  /** The pieces written one after the other. */
  function Concat(parts: seq<Bytes>): Bytes {
    if |parts| == 0 then [] else parts[0] + Concat(parts[1..])
  }

  lemma {:induction false} ConcatAppend(a: seq<Bytes>, b: seq<Bytes>)
    ensures Concat(a + b) == Concat(a) + Concat(b)
  {
    if |a| == 0 {
      assert a + b == b;
    } else {
      assert (a + b)[1..] == a[1..] + b;
      ConcatAppend(a[1..], b);
    }
  }

  /** One more piece appends exactly that piece. */
  lemma ConcatSnoc(parts: seq<Bytes>, j: nat)
    requires j < |parts|
    ensures Concat(parts[..j + 1]) == Concat(parts[..j]) + parts[j]
  {
    assert parts[..j + 1] == parts[..j] + [parts[j]];
    ConcatAppend(parts[..j], [parts[j]]);
  }

  /** The text before the first `stop`, which must be followed by the literal `after`; and what follows. */
  function Delimited(s: Bytes, stop: Byte, after: Bytes): (r: Option<(Bytes, Bytes)>)
    ensures r.Some? ==> stop !in r.value.0 && s == r.value.0 + [stop] + after + r.value.1
  {
    var p :- ReadUntil(s, stop);
    var rest :- Expect(after, p.1);
    Some((p.0, rest))
  }

  lemma DelimitedRoundTrip(text: Bytes, stop: Byte, after: Bytes, rest: Bytes)
    requires stop !in text
    ensures Delimited(text + [stop] + after + rest, stop, after) == Some((text, rest))
  {
    assert text + [stop] + after + rest == text + [stop] + (after + rest);
    ReadUntilFirst(text, stop, after + rest);
    ExpectLiteral(after, rest);
  }

  /** Of two suffixes of one string, one without `sep` and one with it, the one without is shorter. */
  lemma SuffixWithout(s: Bytes, r: Bytes, t: Bytes, sep: Byte)
    requires EndsWith(s, r) && EndsWith(s, t)
    requires sep !in r && sep in t
    ensures |r| < |t|
  {
  }

  lemma EndsWithExtend(a: Bytes, b: Bytes, suffix: Bytes)
    requires EndsWith(b, suffix)
    ensures EndsWith(a + b, suffix)
  {
    assert (a + b)[|a + b| - |suffix|..] == b[|b| - |suffix|..];
  }

  lemma DelimitedParts(text: Bytes, stop: Byte, after: Bytes, rest: Bytes)
    ensures text + ([stop] + (after + rest)) == text + [stop] + after + rest
  {
    AppendAssoc([stop], after, rest);
    AppendAssoc(text, [stop], after + rest);
    AppendAssoc(text + [stop], after, rest);
  }
}
