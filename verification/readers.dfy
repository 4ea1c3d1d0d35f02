/**
 Readers for the payloads the client writes: what a server parsing the
 XML recovers from it. Every piece of text, in an attribute or between
 tags, is cut at the byte that ends it and then read as XML character data
 (Xml.Text). They are the partners of the writers in Payloads: reading a
 written payload gives back the caller's entries, as text, exactly when
 the text the writer copies raw holds nothing that markup or a reference
 could claim.
 */
module Readers {
  import opened Wrappers
  import opened Php
  import opened Scan
  import Html
  import Xml
  import opened Payloads

  // ---- text ----

  /** What follows the closing quote of a field's name, of an opening tag on its own line, and of a sale's contact id. */
  const NameEnd: Bytes := ">"
  const TagEnd: Bytes := ">\n"
  const ProductAttr: Bytes := " product_id=\""

  /** What follows the `<` that ends a field's value and a contact id. */
  const FieldEnd: Bytes := "/field>\n"
  const IdEnd: Bytes := "/contact_id>\n"

  /** The text before `stop`, which must be followed by the literal `after`, decoded; and what follows. */
  function ReadText(s: Bytes, stop: Byte, after: Bytes): (r: Option<(Bytes, Bytes)>)
    ensures r.Some? ==> |r.value.1| < |s|
  {
    var p :- Delimited(s, stop, after);
    var t :- Xml.Text(p.0);
    Some((t, p.1))
  }

  /** Text ended by `stop` whose decoding is `u` is read as `u`. */
  lemma ReadTextRoundTrip(w: Bytes, u: Bytes, stop: Byte, after: Bytes, rest: Bytes)
    requires stop !in w && Xml.Text(w) == Some(u)
    ensures ReadText(w + ([stop] + (after + rest)), stop, after) == Some((u, rest))
  {
    DelimitedParts(w, stop, after, rest);
    DelimitedRoundTrip(w, stop, after, rest);
  }

  /** Raw text is read as itself when it holds neither `stop` nor markup. */
  lemma ReadPlainText(w: Bytes, stop: Byte, after: Bytes, rest: Bytes)
    requires stop !in w && Xml.Unmarked(w)
    ensures ReadText(w + ([stop] + (after + rest)), stop, after) == Some((w, rest))
  {
    Xml.TextIdentityIff(w);
    ReadTextRoundTrip(w, w, stop, after, rest);
  }

  /**
   Raw text holding `stop`, `<` or `&` is never read as itself: it is cut
   early, refused, or a reference in it is replaced.
   */
  lemma ReadTextLost(w: Bytes, stop: Byte, after: Bytes, rest: Bytes)
    requires !(stop !in w && Xml.Unmarked(w))
    ensures ReadText(w + ([stop] + (after + rest)), stop, after).None?
         || ReadText(w + ([stop] + (after + rest)), stop, after).value.0 != w
  {
    var s := w + ([stop] + (after + rest));
    if stop in w {
      var d := Delimited(s, stop, after);
      if d.Some? {
        var k :| 0 <= k < |w| && w[k] == stop;
        assert s[k] == stop;
        assert |d.value.0| < |w|;
      }
    } else {
      DelimitedParts(w, stop, after, rest);
      DelimitedRoundTrip(w, stop, after, rest);
      Xml.TextIdentityIff(w);
    }
  }

  /** A value whose text the reader recovers: escaped, or free of `<` and `&`. */
  predicate Legible(e: Escaping, v: Scalar) {
    e.Entities? || Xml.Unmarked(ToStr(v))
  }

  /** A value is legible exactly when what is written for it holds no `<` and reads as its text. */
  lemma RenderedText(e: Escaping, v: Scalar)
    ensures Legible(e, v) <==> '<' !in Render(e, v) && Xml.Text(Render(e, v)) == Some(ToStr(v))
  {
    match e
    case Verbatim =>
      Xml.TextIdentityIff(ToStr(v));
    case Entities(q) =>
      var r := Html.Escape(ToStr(v), q);
      assert forall i :: 0 <= i < |r| ==> r[i] != '<';
      Xml.EscapedText(ToStr(v), q);
  }

  /** The value of a field line or equation is read as its text when it is legible. */
  lemma ReadValue(e: Escaping, v: Scalar, after: Bytes, rest: Bytes)
    requires Legible(e, v)
    ensures ReadText(Render(e, v) + (['<'] + (after + rest)), '<', after) == Some((ToStr(v), rest))
  {
    RenderedText(e, v);
    ReadTextRoundTrip(Render(e, v), ToStr(v), '<', after, rest);
  }

  /** An illegible value is written raw, and its text is not what is read. */
  lemma ReadValueLost(e: Escaping, v: Scalar, after: Bytes, rest: Bytes)
    requires !Legible(e, v)
    ensures ReadText(Render(e, v) + (['<'] + (after + rest)), '<', after).None?
         || ReadText(Render(e, v) + (['<'] + (after + rest)), '<', after).value.0 != ToStr(v)
  {
    ReadTextLost(ToStr(v), '<', after, rest);
  }

  // ---- fields ----

  /** A field as the server sees it: its name and the text of its value. */
  function TextField(f: Field<Scalar>): Field<Bytes> {
    Field(f.name, ToStr(f.value))
  }

  function TextFields(fs: seq<Field<Scalar>>): (r: seq<Field<Bytes>>)
    ensures |r| == |fs|
    ensures forall i :: 0 <= i < |fs| ==> r[i] == TextField(fs[i])
  {
    if |fs| == 0 then [] else [TextField(fs[0])] + TextFields(fs[1..])
  }

  /** A name that can stand raw in its attribute, and a legible value. */
  predicate ReadableField(f: Field<Scalar>, e: Escaping) {
    Xml.AttributeSafe(f.name) && Legible(e, f.value)
  }

  predicate ReadableFields(fs: seq<Field<Scalar>>, e: Escaping) {
    forall i :: 0 <= i < |fs| ==> ReadableField(fs[i], e)
  }

  function ReadFieldLine(indent: Bytes, s: Bytes): (r: Option<(Field<Bytes>, Bytes)>)
    ensures r.Some? ==> |r.value.1| < |s|
  {
    var s1 :- Expect(FieldStart(indent), s);
    var name :- ReadText(s1, '"', NameEnd);
    var value :- ReadText(name.1, '<', FieldEnd);
    Some((Field(name.0, value.0), value.1))
  }

  /** `<field>` lines at the given indentation, as many as there are. */
  function ReadFieldLines(indent: Bytes, s: Bytes): (r: Option<(seq<Field<Bytes>>, Bytes)>)
    ensures r.Some? ==> |r.value.1| <= |s|
    decreases |s|
  {
    if !StartsWith(s, FieldStart(indent)) then Some(([], s))
    else
      var first :- ReadFieldLine(indent, s);
      var more :- ReadFieldLines(indent, first.1);
      Some(([first.0] + more.0, more.1))
  }

  /** The field line, cut where the reader cuts it. */
  lemma FieldLineParts(indent: Bytes, f: Field<Scalar>, e: Escaping, rest: Bytes)
    ensures FieldLine(indent, f, e) + rest
         == FieldStart(indent) + (f.name + (['"'] + (NameEnd + (Render(e, f.value) + (['<'] + (FieldEnd + rest))))))
  {
    var text := Render(e, f.value);
    var nameEnd: Bytes := AttrEnd;
    var lineEnd: Bytes := FieldClose;
    assert nameEnd == ['"'] + NameEnd;
    assert lineEnd == ['<'] + FieldEnd;
    Assoc5(FieldStart(indent), f.name, nameEnd, text, lineEnd, rest);
    AppendAssoc(['<'], FieldEnd, rest);
    AppendAssoc(['"'], NameEnd, text + (lineEnd + rest));
  }

  lemma ReadFieldLineRoundTrip(indent: Bytes, f: Field<Scalar>, e: Escaping, rest: Bytes)
    requires ReadableField(f, e)
    ensures ReadFieldLine(indent, FieldLine(indent, f, e) + rest) == Some((TextField(f), rest))
  {
    FieldLineParts(indent, f, e, rest);
    RenderedText(e, f.value);
    ReadFieldLineOf(indent, FieldLine(indent, f, e) + rest, f.name, Render(e, f.value), ToStr(f.value), rest);
  }

  /** A line with a raw-safe name and a value text that decodes to `u` is read as that name and `u`. */
  lemma ReadFieldLineOf(indent: Bytes, s: Bytes, name: Bytes, w: Bytes, u: Bytes, rest: Bytes)
    requires Xml.AttributeSafe(name) && '<' !in w && Xml.Text(w) == Some(u)
    requires s == FieldStart(indent) + (name + (['"'] + (NameEnd + (w + (['<'] + (FieldEnd + rest))))))
    ensures ReadFieldLine(indent, s) == Some((Field(name, u), rest))
  {
    var tail := w + (['<'] + (FieldEnd + rest));
    var s1 := name + (['"'] + (NameEnd + tail));
    ExpectLiteral(FieldStart(indent), s1);
    ReadPlainText(name, '"', NameEnd, tail);
    ReadTextRoundTrip(w, u, '<', FieldEnd, rest);
    ReadFieldLineSteps(indent, s, s1, name, tail, u, rest);
  }

  /** The three readings a field line is made of, in order. */
  lemma ReadFieldLineSteps(indent: Bytes, s: Bytes, s1: Bytes, name: Bytes, tail: Bytes, u: Bytes, rest: Bytes)
    requires Expect(FieldStart(indent), s) == Some(s1)
    requires ReadText(s1, '"', NameEnd) == Some((name, tail))
    requires ReadText(tail, '<', FieldEnd) == Some((u, rest))
    ensures ReadFieldLine(indent, s) == Some((Field(name, u), rest))
  {
  }

  /** A field line with a name or value the reader cannot recover is not read as that field. */
  lemma ReadFieldLineLost(indent: Bytes, f: Field<Scalar>, e: Escaping, rest: Bytes)
    requires !ReadableField(f, e)
    ensures ReadFieldLine(indent, FieldLine(indent, f, e) + rest).None?
         || ReadFieldLine(indent, FieldLine(indent, f, e) + rest).value.0 != TextField(f)
  {
    var tail := Render(e, f.value) + (['<'] + (FieldEnd + rest));
    var s1 := f.name + (['"'] + (NameEnd + tail));
    FieldLineParts(indent, f, e, rest);
    ExpectLiteral(FieldStart(indent), s1);
    if Xml.AttributeSafe(f.name) {
      ReadPlainText(f.name, '"', NameEnd, tail);
      ReadValueLost(e, f.value, FieldEnd, rest);
    } else {
      ReadTextLost(f.name, '"', NameEnd, tail);
    }
    ReadFieldLineMiss(indent, FieldLine(indent, f, e) + rest, s1, f.name, ToStr(f.value));
  }

  /** When the name or, after it, the value is not read as given, the line is not read as that field. */
  lemma ReadFieldLineMiss(indent: Bytes, s: Bytes, s1: Bytes, name: Bytes, text: Bytes)
    requires Expect(FieldStart(indent), s) == Some(s1)
    requires var n := ReadText(s1, '"', NameEnd);
             n.None? || n.value.0 != name || ReadText(n.value.1, '<', FieldEnd).None?
             || ReadText(n.value.1, '<', FieldEnd).value.0 != text
    ensures ReadFieldLine(indent, s).None? || ReadFieldLine(indent, s).value.0 != Field(name, text)
  {
  }

  lemma FieldLineStarts(indent: Bytes, f: Field<Scalar>, e: Escaping, rest: Bytes)
    ensures StartsWith(FieldLine(indent, f, e) + rest, FieldStart(indent))
  {
    var nameEnd: Bytes := AttrEnd;
    var lineEnd: Bytes := FieldClose;
    var text := Render(e, f.value);
    Assoc5(FieldStart(indent), f.name, nameEnd, text, lineEnd, rest);
    StartsWithAppend(FieldStart(indent), f.name + (nameEnd + (text + (lineEnd + rest))));
  }

  /** The field lines of the first entry and of the others. */
  lemma FieldLinesCons(indent: Bytes, fs: seq<Field<Scalar>>, e: Escaping, rest: Bytes)
    requires |fs| > 0
    ensures FieldLines(indent, fs, e) + rest == FieldLine(indent, fs[0], e) + (FieldLines(indent, fs[1..], e) + rest)
    ensures ReadableFields(fs, e) <==> ReadableField(fs[0], e) && ReadableFields(fs[1..], e)
  {
    var line, more := FieldLine(indent, fs[0], e), FieldLines(indent, fs[1..], e);
    assert FieldLines(indent, fs, e) == line + more;
    AppendAssoc(line, more, rest);
    assert forall i :: 0 <= i < |fs[1..]| ==> fs[1..][i] == fs[i + 1];
  }

  /**
   The field lines are read back as the fields' names and text values, in
   order, when what follows them does not look like another field line.
   */
  lemma {:induction false} ReadFieldLinesRoundTrip(indent: Bytes, fs: seq<Field<Scalar>>, e: Escaping, rest: Bytes)
    requires ReadableFields(fs, e)
    requires !StartsWith(rest, FieldStart(indent))
    ensures ReadFieldLines(indent, FieldLines(indent, fs, e) + rest) == Some((TextFields(fs), rest))
  {
    if |fs| == 0 {
      assert FieldLines(indent, fs, e) + rest == rest;
    } else {
      var tail := FieldLines(indent, fs[1..], e) + rest;
      FieldLinesCons(indent, fs, e, rest);
      FieldLineStarts(indent, fs[0], e, tail);
      ReadFieldLineRoundTrip(indent, fs[0], e, tail);
      ReadFieldLinesRoundTrip(indent, fs[1..], e, rest);
      ReadFieldLinesStep(indent, FieldLine(indent, fs[0], e) + tail, TextField(fs[0]), tail, TextFields(fs[1..]), rest);
    }
  }

  /** One field line read, then the rest. */
  lemma ReadFieldLinesStep(indent: Bytes, s: Bytes, f: Field<Bytes>, tail: Bytes, more: seq<Field<Bytes>>, rest: Bytes)
    requires StartsWith(s, FieldStart(indent))
    requires ReadFieldLine(indent, s) == Some((f, tail))
    requires ReadFieldLines(indent, tail) == Some((more, rest))
    ensures ReadFieldLines(indent, s) == Some(([f] + more, rest))
  {
  }

  /** Field lines with any entry the reader cannot recover are not read as the fields, whatever follows them. */
  lemma {:induction false} ReadFieldLinesLost(indent: Bytes, fs: seq<Field<Scalar>>, e: Escaping, rest: Bytes)
    requires !ReadableFields(fs, e)
    ensures ReadFieldLines(indent, FieldLines(indent, fs, e) + rest).None?
         || ReadFieldLines(indent, FieldLines(indent, fs, e) + rest).value.0 != TextFields(fs)
  {
    var tail := FieldLines(indent, fs[1..], e) + rest;
    var s := FieldLine(indent, fs[0], e) + tail;
    FieldLinesCons(indent, fs, e, rest);
    FieldLineStarts(indent, fs[0], e, tail);
    assert TextFields(fs) == [TextField(fs[0])] + TextFields(fs[1..]);
    if ReadableField(fs[0], e) {
      ReadFieldLineRoundTrip(indent, fs[0], e, tail);
      ReadFieldLinesLost(indent, fs[1..], e, rest);
      LostAfterFirst(ReadFieldLines(indent, tail), TextField(fs[0]), TextFields(fs[1..]));
    } else {
      ReadFieldLineLost(indent, fs[0], e, tail);
    }
  }

  /** A list read after a first entry that matches is the expected list only if the rest is. */
  lemma LostAfterFirst<T, R>(r: Option<(seq<T>, R)>, first: T, expected: seq<T>)
    requires r.None? || r.value.0 != expected
    ensures r.None? || [first] + r.value.0 != [first] + expected
  {
    if r.Some? {
      assert ([first] + r.value.0)[1..] == r.value.0;
      assert ([first] + expected)[1..] == expected;
    }
  }

  // ---- contacts ----

  function TextGroup(g: Group<Scalar>): Group<Bytes> {
    Group(g.tag, TextFields(g.fields))
  }

  function TextGroups(gs: seq<Group<Scalar>>): (r: seq<Group<Bytes>>)
    ensures |r| == |gs|
    ensures forall i :: 0 <= i < |gs| ==> r[i] == TextGroup(gs[i])
  {
    if |gs| == 0 then [] else [TextGroup(gs[0])] + TextGroups(gs[1..])
  }

  predicate ReadableGroup(g: Group<Scalar>, e: Escaping) {
    Xml.AttributeSafe(g.tag) && ReadableFields(g.fields, e)
  }

  predicate ReadableGroups(gs: seq<Group<Scalar>>, e: Escaping) {
    forall i :: 0 <= i < |gs| ==> ReadableGroup(gs[i], e)
  }

  function ReadGroup(s: Bytes): (r: Option<(Group<Bytes>, Bytes)>)
    ensures r.Some? ==> |r.value.1| < |s|
  {
    var s1 :- Expect(GroupStart, s);
    var tag :- ReadText(s1, '"', TagEnd);
    var fields :- ReadFieldLines(GroupFieldIndent, tag.1);
    var rest :- Expect(GroupClose, fields.1);
    Some((Group(tag.0, fields.0), rest))
  }

  function ReadGroups(s: Bytes): (r: Option<(seq<Group<Bytes>>, Bytes)>)
    ensures r.Some? ==> |r.value.1| <= |s|
    decreases |s|
  {
    if !StartsWith(s, GroupStart) then Some(([], s))
    else
      var first :- ReadGroup(s);
      var more :- ReadGroups(first.1);
      Some(([first.0] + more.0, more.1))
  }

  lemma GroupBlockParts(g: Group<Scalar>, e: Escaping, rest: Bytes)
    ensures GroupBlock(g, e) + rest
         == GroupStart + (g.tag + (['"'] + (TagEnd + (FieldLines(GroupFieldIndent, g.fields, e) + (GroupClose + rest)))))
  {
    var tagEnd: Bytes := AttrLineEnd;
    var lines := FieldLines(GroupFieldIndent, g.fields, e);
    assert tagEnd == ['"'] + TagEnd;
    Assoc5(GroupStart, g.tag, tagEnd, lines, GroupClose, rest);
    AppendAssoc(['"'], TagEnd, lines + (GroupClose + rest));
  }

  lemma ReadGroupRoundTrip(g: Group<Scalar>, e: Escaping, rest: Bytes)
    requires ReadableGroup(g, e)
    ensures ReadGroup(GroupBlock(g, e) + rest) == Some((TextGroup(g), rest))
  {
    var lines := FieldLines(GroupFieldIndent, g.fields, e);
    GroupBlockParts(g, e, rest);
    DiffersAt(GroupClose + rest, FieldStart(GroupFieldIndent), 1);
    ReadFieldLinesRoundTrip(GroupFieldIndent, g.fields, e, GroupClose + rest);
    ReadGroupOf(g.tag, lines + (GroupClose + rest), TextFields(g.fields), rest);
  }

  /** A group is read as its tag and the field lines between its opening and closing tags. */
  lemma ReadGroupOf(tag: Bytes, body: Bytes, fields: seq<Field<Bytes>>, rest: Bytes)
    requires Xml.AttributeSafe(tag)
    requires ReadFieldLines(GroupFieldIndent, body) == Some((fields, GroupClose + rest))
    ensures ReadGroup(GroupStart + (tag + (['"'] + (TagEnd + body)))) == Some((Group(tag, fields), rest))
  {
    ExpectLiteral(GroupStart, tag + (['"'] + (TagEnd + body)));
    ReadPlainText(tag, '"', TagEnd, body);
    ExpectLiteral(GroupClose, rest);
  }

  /** A block whose section name or fields the reader cannot recover is not read as that section. */
  lemma ReadGroupLost(g: Group<Scalar>, e: Escaping, rest: Bytes)
    requires !ReadableGroup(g, e)
    ensures ReadGroup(GroupBlock(g, e) + rest).None? || ReadGroup(GroupBlock(g, e) + rest).value.0 != TextGroup(g)
  {
    var body := FieldLines(GroupFieldIndent, g.fields, e) + (GroupClose + rest);
    var s1 := g.tag + (['"'] + (TagEnd + body));
    GroupBlockParts(g, e, rest);
    ExpectLiteral(GroupStart, s1);
    if Xml.AttributeSafe(g.tag) {
      ReadPlainText(g.tag, '"', TagEnd, body);
      ReadFieldLinesLost(GroupFieldIndent, g.fields, e, GroupClose + rest);
    } else {
      ReadTextLost(g.tag, '"', TagEnd, body);
    }
    ReadGroupMiss(GroupBlock(g, e) + rest, s1, g.tag, TextFields(g.fields));
  }

  /** When the tag or, after it, the field lines are not read as given, the block is not read as that group. */
  lemma ReadGroupMiss(s: Bytes, s1: Bytes, tag: Bytes, fields: seq<Field<Bytes>>)
    requires Expect(GroupStart, s) == Some(s1)
    requires var t := ReadText(s1, '"', TagEnd);
             t.None? || t.value.0 != tag || ReadFieldLines(GroupFieldIndent, t.value.1).None?
             || ReadFieldLines(GroupFieldIndent, t.value.1).value.0 != fields
    ensures ReadGroup(s).None? || ReadGroup(s).value.0 != Group(tag, fields)
  {
  }

  lemma GroupBlockStarts(g: Group<Scalar>, e: Escaping, rest: Bytes)
    ensures StartsWith(GroupBlock(g, e) + rest, GroupStart)
  {
    var tagEnd: Bytes := AttrLineEnd;
    var lines := FieldLines(GroupFieldIndent, g.fields, e);
    Assoc5(GroupStart, g.tag, tagEnd, lines, GroupClose, rest);
    StartsWithAppend(GroupStart, g.tag + (tagEnd + (lines + (GroupClose + rest))));
  }

  /** The blocks of the first section and of the others. */
  lemma GroupBlocksCons(gs: seq<Group<Scalar>>, e: Escaping, rest: Bytes)
    requires |gs| > 0
    ensures GroupBlocks(gs, e) + rest == GroupBlock(gs[0], e) + (GroupBlocks(gs[1..], e) + rest)
    ensures ReadableGroups(gs, e) <==> ReadableGroup(gs[0], e) && ReadableGroups(gs[1..], e)
  {
    var block, more := GroupBlock(gs[0], e), GroupBlocks(gs[1..], e);
    assert GroupBlocks(gs, e) == block + more;
    AppendAssoc(block, more, rest);
    assert forall i :: 0 <= i < |gs[1..]| ==> gs[1..][i] == gs[i + 1];
  }

  lemma {:induction false} ReadGroupsRoundTrip(gs: seq<Group<Scalar>>, e: Escaping, rest: Bytes)
    requires ReadableGroups(gs, e)
    requires !StartsWith(rest, GroupStart)
    ensures ReadGroups(GroupBlocks(gs, e) + rest) == Some((TextGroups(gs), rest))
  {
    if |gs| == 0 {
      assert GroupBlocks(gs, e) + rest == rest;
    } else {
      var tail := GroupBlocks(gs[1..], e) + rest;
      GroupBlocksCons(gs, e, rest);
      ReadGroupRoundTrip(gs[0], e, tail);
      GroupBlockStarts(gs[0], e, tail);
      ReadGroupsRoundTrip(gs[1..], e, rest);
      ReadGroupsStep(GroupBlock(gs[0], e) + tail, TextGroup(gs[0]), tail, TextGroups(gs[1..]), rest);
    }
  }

  lemma ReadGroupsStep(s: Bytes, g: Group<Bytes>, tail: Bytes, more: seq<Group<Bytes>>, rest: Bytes)
    requires StartsWith(s, GroupStart)
    requires ReadGroup(s) == Some((g, tail))
    requires ReadGroups(tail) == Some((more, rest))
    ensures ReadGroups(s) == Some(([g] + more, rest))
  {
  }

  /** Blocks with any section the reader cannot recover are not read as the sections, whatever follows them. */
  lemma {:induction false} ReadGroupsLost(gs: seq<Group<Scalar>>, e: Escaping, rest: Bytes)
    requires !ReadableGroups(gs, e)
    ensures ReadGroups(GroupBlocks(gs, e) + rest).None? || ReadGroups(GroupBlocks(gs, e) + rest).value.0 != TextGroups(gs)
  {
    var tail := GroupBlocks(gs[1..], e) + rest;
    GroupBlocksCons(gs, e, rest);
    GroupBlockStarts(gs[0], e, tail);
    assert TextGroups(gs) == [TextGroup(gs[0])] + TextGroups(gs[1..]);
    if ReadableGroup(gs[0], e) {
      ReadGroupRoundTrip(gs[0], e, tail);
      ReadGroupsLost(gs[1..], e, rest);
      LostAfterFirst(ReadGroups(tail), TextGroup(gs[0]), TextGroups(gs[1..]));
    } else {
      ReadGroupLost(gs[0], e, tail);
    }
  }

  /** A contact document as the server sees it: the id, if any, and the sections with text values. */
  datatype ContactDoc = ContactDoc(id: Option<Bytes>, groups: seq<Group<Bytes>>)

  function ReadContactOpen(s: Bytes): Option<(Option<Bytes>, Bytes)> {
    if StartsWith(s, BareContactOpen) then Some((None, s[|BareContactOpen|..]))
    else
      var s1 :- Expect(ContactIdStart, s);
      var id :- ReadText(s1, '"', TagEnd);
      Some((Some(id.0), id.1))
  }

  /** The whole document: opening tag, sections, closing tag and nothing after it. */
  function ReadContact(s: Bytes): Option<ContactDoc> {
    var head :- ReadContactOpen(s);
    var groups :- ReadGroups(head.1);
    var rest :- Expect(ContactClose, groups.1);
    if rest == [] then Some(ContactDoc(head.0, groups.0)) else None
  }

  /** No id, or one that can stand raw in its attribute. */
  predicate ReadableId(id: Option<Bytes>) {
    id.Some? ==> Xml.AttributeSafe(id.value)
  }

  /** The opening tag with an id, cut where the reader cuts it. */
  lemma ContactOpenParts(i: Bytes, rest: Bytes)
    ensures ContactOpen(Some(i)) + rest == ContactIdStart + (i + (['"'] + (TagEnd + rest)))
    ensures !StartsWith(ContactOpen(Some(i)) + rest, BareContactOpen)
  {
    var tagEnd: Bytes := AttrLineEnd;
    assert tagEnd == ['"'] + TagEnd;
    AppendAssoc(ContactIdStart + i, tagEnd, rest);
    AppendAssoc(ContactIdStart, i, tagEnd + rest);
    AppendAssoc(['"'], TagEnd, rest);
    DiffersAt(ContactOpen(Some(i)) + rest, BareContactOpen, 8);
  }

  lemma ReadContactOpenRoundTrip(id: Option<Bytes>, rest: Bytes)
    requires ReadableId(id)
    ensures ReadContactOpen(ContactOpen(id) + rest) == Some((id, rest))
  {
    match id
    case None =>
      ExpectLiteral(BareContactOpen, rest);
    case Some(i) =>
      ContactOpenParts(i, rest);
      ExpectLiteral(ContactIdStart, i + (['"'] + (TagEnd + rest)));
      ReadPlainText(i, '"', TagEnd, rest);
  }

  /** An opening tag whose id the reader cannot recover is not read with that id. */
  lemma ReadContactOpenLost(id: Option<Bytes>, rest: Bytes)
    requires !ReadableId(id)
    ensures ReadContactOpen(ContactOpen(id) + rest).None? || ReadContactOpen(ContactOpen(id) + rest).value.0 != id
  {
    var i := id.value;
    ContactOpenParts(i, rest);
    ExpectLiteral(ContactIdStart, i + (['"'] + (TagEnd + rest)));
    ReadTextLost(i, '"', TagEnd, rest);
  }

  /**
   The contact document of `addContact` and `updateContact` is read back as
   its id and its sections, each field's value as text, when the id, the
   section names and the field names can stand raw in their attributes and
   every value is legible.
   */
  lemma ContactRoundTrip(id: Option<Bytes>, gs: seq<Group<Scalar>>, e: Escaping)
    requires ReadableId(id) && ReadableGroups(gs, e)
    ensures ReadContact(ContactXml(id, gs, e)) == Some(ContactDoc(id, TextGroups(gs)))
  {
    var blocks := GroupBlocks(gs, e);
    AppendAssoc(ContactOpen(id), blocks, ContactClose);
    ReadContactOpenRoundTrip(id, blocks + ContactClose);
    DiffersAt(ContactClose, GroupStart, 0);
    ReadGroupsRoundTrip(gs, e, ContactClose);
    ExpectWhole(ContactClose);
  }

  /** With an id or a section the reader cannot recover, the contact document is not read back. */
  lemma ContactLost(id: Option<Bytes>, gs: seq<Group<Scalar>>, e: Escaping)
    requires !(ReadableId(id) && ReadableGroups(gs, e))
    ensures ReadContact(ContactXml(id, gs, e)) != Some(ContactDoc(id, TextGroups(gs)))
  {
    var blocks := GroupBlocks(gs, e);
    AppendAssoc(ContactOpen(id), blocks, ContactClose);
    ReadContactSteps(ContactXml(id, gs, e));
    if ReadableId(id) {
      ReadContactOpenRoundTrip(id, blocks + ContactClose);
      ReadGroupsLost(gs, e, ContactClose);
    } else {
      ReadContactOpenLost(id, blocks + ContactClose);
    }
  }

  /** A contact read is its opening tag read, then the sections after it. */
  lemma ReadContactSteps(s: Bytes)
    ensures ReadContact(s).Some? ==>
              && ReadContactOpen(s).Some?
              && ReadGroups(ReadContactOpen(s).value.1).Some?
              && ReadContact(s).value == ContactDoc(ReadContactOpen(s).value.0, ReadGroups(ReadContactOpen(s).value.1).value.0)
  {
  }

  /** A contact document is read back exactly when its id, names and values are all recoverable. */
  lemma ContactReadBack(id: Option<Bytes>, gs: seq<Group<Scalar>>, e: Escaping)
    ensures ReadContact(ContactXml(id, gs, e)) == Some(ContactDoc(id, TextGroups(gs)))
        <==> ReadableId(id) && ReadableGroups(gs, e)
  {
    if ReadableId(id) && ReadableGroups(gs, e) {
      ContactRoundTrip(id, gs, e);
    } else {
      ContactLost(id, gs, e);
    }
  }

  // ---- searches ----

  /** A search condition as the server sees it: the text of field, operator and value. */
  datatype Condition = Condition(field: Bytes, op: Bytes, value: Bytes)

  function ConditionOf(eq: Equation): Condition
    requires Complete(eq)
  {
    Condition(ToStr(eq.field.value), ToStr(eq.op.value), ToStr(eq.value.value))
  }

  /** The conditions a search carries: one per complete equation, in order. */
  function Conditions(eqs: seq<Equation>): seq<Condition> {
    if |eqs| == 0 then []
    else (if Complete(eqs[0]) then [ConditionOf(eqs[0])] else []) + Conditions(eqs[1..])
  }

  /** Field and operator free of `<` and `&` (they are never escaped) and a legible value. */
  predicate ReadableEquation(eq: Equation, e: Escaping) {
    Complete(eq) ==>
      Xml.Unmarked(ToStr(eq.field.value)) && Xml.Unmarked(ToStr(eq.op.value)) && Legible(e, eq.value.value)
  }

  predicate ReadableEquations(eqs: seq<Equation>, e: Escaping) {
    forall i :: 0 <= i < |eqs| ==> ReadableEquation(eqs[i], e)
  }

  /** The decoded text of one `<tag>…</tag>` line of an equation. */
  function ReadElement(tag: Bytes, s: Bytes): (r: Option<(Bytes, Bytes)>)
    ensures r.Some? ==> |r.value.1| < |s|
  {
    var s1 :- Expect(ElementOpen(tag), s);
    ReadText(s1, '<', "/" + tag + TagEnd)
  }

  /** The element line, cut where the reader cuts it. */
  lemma ElementParts(tag: Bytes, w: Bytes, rest: Bytes)
    ensures Element(tag, w) + rest == ElementOpen(tag) + (w + (['<'] + (("/" + tag + TagEnd) + rest)))
  {
    var after := "/" + tag + TagEnd;
    var close: Bytes := "</" + tag + TagEnd;
    assert close == ['<'] + after;
    assert Element(tag, w) == ElementOpen(tag) + w + close;
    AppendAssoc(ElementOpen(tag) + w, close, rest);
    AppendAssoc(ElementOpen(tag), w, close + rest);
    AppendAssoc(['<'], after, rest);
  }

  lemma ReadElementRoundTrip(tag: Bytes, w: Bytes, u: Bytes, rest: Bytes)
    requires '<' !in w && Xml.Text(w) == Some(u)
    ensures ReadElement(tag, Element(tag, w) + rest) == Some((u, rest))
  {
    ElementParts(tag, w, rest);
    ExpectLiteral(ElementOpen(tag), w + (['<'] + (("/" + tag + TagEnd) + rest)));
    ReadTextRoundTrip(w, u, '<', "/" + tag + TagEnd, rest);
  }

  /** Raw element text holding `<` or `&` is not read as itself. */
  lemma ReadElementLost(tag: Bytes, w: Bytes, rest: Bytes)
    requires !Xml.Unmarked(w)
    ensures ReadElement(tag, Element(tag, w) + rest).None? || ReadElement(tag, Element(tag, w) + rest).value.0 != w
  {
    ElementParts(tag, w, rest);
    ExpectLiteral(ElementOpen(tag), w + (['<'] + (("/" + tag + TagEnd) + rest)));
    ReadTextLost(w, '<', "/" + tag + TagEnd, rest);
  }

  function ReadEquation(s: Bytes): (r: Option<(Condition, Bytes)>)
    ensures r.Some? ==> |r.value.1| < |s|
  {
    var s1 :- Expect(EquationOpen, s);
    var texts :- ReadElements(s1, FieldTag, OpTag, ValueTag);
    var rest :- Expect(EquationClose, texts.1);
    Some((texts.0, rest))
  }

  /** Three element lines with the given tags, decoded. */
  function ReadElements(s: Bytes, fieldTag: Bytes, opTag: Bytes, valueTag: Bytes): (r: Option<(Condition, Bytes)>)
    ensures r.Some? ==> |r.value.1| < |s|
  {
    var field :- ReadElement(fieldTag, s);
    var op :- ReadElement(opTag, field.1);
    var value :- ReadElement(valueTag, op.1);
    Some((Condition(field.0, op.0, value.0), value.1))
  }

  function ReadEquations(s: Bytes): (r: Option<(seq<Condition>, Bytes)>)
    ensures r.Some? ==> |r.value.1| <= |s|
    decreases |s|
  {
    if !StartsWith(s, EquationOpen) then Some(([], s))
    else
      var first :- ReadEquation(s);
      var more :- ReadEquations(first.1);
      Some(([first.0] + more.0, more.1))
  }

  /** The whole search: opening tag, equations, closing tag and nothing after it. */
  function ReadSearch(s: Bytes): Option<seq<Condition>> {
    var s1 :- Expect(SearchOpen, s);
    var eqs :- ReadEquations(s1);
    var rest :- Expect(SearchClose, eqs.1);
    if rest == [] then Some(eqs.0) else None
  }

  /** The equation block, cut into its lines. */
  lemma EquationBlockParts(eq: Equation, e: Escaping, rest: Bytes)
    requires Complete(eq)
    ensures EquationBlock(eq, e) + rest
         == EquationOpen + (Element(FieldTag, ToStr(eq.field.value)) + (Element(OpTag, ToStr(eq.op.value))
              + (Element(ValueTag, Render(e, eq.value.value)) + (EquationClose + rest))))
    ensures StartsWith(EquationBlock(eq, e) + rest, EquationOpen)
  {
    var a, b, c := Element(FieldTag, ToStr(eq.field.value)), Element(OpTag, ToStr(eq.op.value)), Element(ValueTag, Render(e, eq.value.value));
    Assoc5(EquationOpen, a, b, c, EquationClose, rest);
    StartsWithAppend(EquationOpen, a + (b + (c + (EquationClose + rest))));
  }

  lemma ReadEquationRoundTrip(eq: Equation, e: Escaping, rest: Bytes)
    requires Complete(eq) && ReadableEquation(eq, e)
    ensures ReadEquation(EquationBlock(eq, e) + rest) == Some((ConditionOf(eq), rest))
  {
    var field, op, value := ToStr(eq.field.value), ToStr(eq.op.value), Render(e, eq.value.value);
    RenderedText(e, eq.value.value);
    var a, b, c := Element(FieldTag, field), Element(OpTag, op), Element(ValueTag, value);
    EquationBlockParts(eq, e, rest);
    ExpectLiteral(EquationOpen, a + (b + (c + (EquationClose + rest))));
    ReadElementsRoundTrip(FieldTag, OpTag, ValueTag, field, op, value, ToStr(eq.value.value), EquationClose + rest);
    ExpectLiteral(EquationClose, rest);
  }

  lemma ReadElementsRoundTrip(t1: Bytes, t2: Bytes, t3: Bytes, f: Bytes, o: Bytes, w: Bytes, u: Bytes, rest: Bytes)
    requires Xml.Unmarked(f) && Xml.Unmarked(o)
    requires '<' !in w && Xml.Text(w) == Some(u)
    ensures ReadElements(Element(t1, f) + (Element(t2, o) + (Element(t3, w) + rest)), t1, t2, t3)
         == Some((Condition(f, o, u), rest))
  {
    Xml.TextIdentityIff(f);
    Xml.TextIdentityIff(o);
    ReadElementRoundTrip(t1, f, f, Element(t2, o) + (Element(t3, w) + rest));
    ReadElementRoundTrip(t2, o, o, Element(t3, w) + rest);
    ReadElementRoundTrip(t3, w, u, rest);
  }

  /** A complete equation with a part the reader cannot recover is not read as its condition. */
  lemma ReadEquationLost(eq: Equation, e: Escaping, rest: Bytes)
    requires Complete(eq) && !ReadableEquation(eq, e)
    ensures ReadEquation(EquationBlock(eq, e) + rest).None? || ReadEquation(EquationBlock(eq, e) + rest).value.0 != ConditionOf(eq)
  {
    var a, b, c := Element(FieldTag, ToStr(eq.field.value)), Element(OpTag, ToStr(eq.op.value)), Element(ValueTag, Render(e, eq.value.value));
    EquationBlockParts(eq, e, rest);
    ExpectLiteral(EquationOpen, a + (b + (c + (EquationClose + rest))));
    ReadElementsLost(FieldTag, OpTag, ValueTag, ToStr(eq.field.value), ToStr(eq.op.value), e, eq.value.value, EquationClose + rest);
  }

  lemma ReadElementsLost(t1: Bytes, t2: Bytes, t3: Bytes, f: Bytes, o: Bytes, e: Escaping, v: Scalar, rest: Bytes)
    requires !(Xml.Unmarked(f) && Xml.Unmarked(o) && Legible(e, v))
    ensures ReadElements(Element(t1, f) + (Element(t2, o) + (Element(t3, Render(e, v)) + rest)), t1, t2, t3).None?
         || ReadElements(Element(t1, f) + (Element(t2, o) + (Element(t3, Render(e, v)) + rest)), t1, t2, t3).value.0
            != Condition(f, o, ToStr(v))
  {
    var third := Element(t3, Render(e, v)) + rest;
    var s := Element(t1, f) + (Element(t2, o) + third);
    ReadElementsSteps(s, t1, t2, t3);
    if !Xml.Unmarked(f) {
      ReadElementLost(t1, f, Element(t2, o) + third);
    } else {
      Xml.TextIdentityIff(f);
      ReadElementRoundTrip(t1, f, f, Element(t2, o) + third);
      if !Xml.Unmarked(o) {
        ReadElementLost(t2, o, third);
      } else {
        Xml.TextIdentityIff(o);
        ReadElementRoundTrip(t2, o, o, third);
        ReadElementLost(t3, ToStr(v), rest);
      }
    }
  }

  /** Three elements are read exactly when each is read from what the one before leaves, and give their texts. */
  lemma ReadElementsSteps(s: Bytes, t1: Bytes, t2: Bytes, t3: Bytes)
    ensures ReadElements(s, t1, t2, t3).Some? ==>
              && ReadElement(t1, s).Some?
              && ReadElement(t2, ReadElement(t1, s).value.1).Some?
              && ReadElement(t3, ReadElement(t2, ReadElement(t1, s).value.1).value.1).Some?
              && ReadElements(s, t1, t2, t3).value.0
                 == Condition(ReadElement(t1, s).value.0, ReadElement(t2, ReadElement(t1, s).value.1).value.0,
                              ReadElement(t3, ReadElement(t2, ReadElement(t1, s).value.1).value.1).value.0)
  {
  }

  lemma {:induction false} ReadEquationsRoundTrip(eqs: seq<Equation>, e: Escaping, rest: Bytes)
    requires ReadableEquations(eqs, e)
    requires !StartsWith(rest, EquationOpen)
    ensures ReadEquations(EquationBlocks(eqs, e) + rest) == Some((Conditions(eqs), rest))
  {
    if |eqs| == 0 {
      assert EquationBlocks(eqs, e) + rest == rest;
    } else {
      EquationBlocksCons(eqs, e, rest);
      ReadEquationsRoundTrip(eqs[1..], e, rest);
      if Complete(eqs[0]) {
        ReadCompleteEquationFirst(eqs, e, rest);
      } else {
        SkipIncompleteEquationFirst(eqs, e, rest);
      }
    }
  }

  lemma ReadCompleteEquationFirst(eqs: seq<Equation>, e: Escaping, rest: Bytes)
    requires |eqs| > 0 && Complete(eqs[0]) && ReadableEquation(eqs[0], e)
    requires ReadEquations(EquationBlocks(eqs[1..], e) + rest) == Some((Conditions(eqs[1..]), rest))
    ensures ReadEquations(EquationBlocks(eqs, e) + rest) == Some((Conditions(eqs), rest))
  {
    var tail := EquationBlocks(eqs[1..], e) + rest;
    EquationBlocksCons(eqs, e, rest);
    assert EquationPiece(eqs[0], e) == EquationBlock(eqs[0], e);
    EquationBlockParts(eqs[0], e, tail);
    ReadEquationRoundTrip(eqs[0], e, tail);
    ReadEquationsStep(EquationBlock(eqs[0], e) + tail, ConditionOf(eqs[0]), tail, Conditions(eqs[1..]), rest);
    assert Conditions(eqs) == [ConditionOf(eqs[0])] + Conditions(eqs[1..]);
  }

  lemma SkipIncompleteEquationFirst(eqs: seq<Equation>, e: Escaping, rest: Bytes)
    requires |eqs| > 0 && !Complete(eqs[0])
    ensures EquationBlocks(eqs, e) + rest == EquationBlocks(eqs[1..], e) + rest
    ensures Conditions(eqs) == Conditions(eqs[1..])
  {
    EquationBlocksCons(eqs, e, rest);
    assert EquationPiece(eqs[0], e) == [];
    assert Conditions(eqs) == [] + Conditions(eqs[1..]);
  }

  /** The blocks of the first equation and of the others. */
  lemma EquationBlocksCons(eqs: seq<Equation>, e: Escaping, rest: Bytes)
    requires |eqs| > 0
    ensures EquationBlocks(eqs, e) + rest == EquationPiece(eqs[0], e) + (EquationBlocks(eqs[1..], e) + rest)
    ensures ReadableEquations(eqs, e) <==> ReadableEquation(eqs[0], e) && ReadableEquations(eqs[1..], e)
  {
    var piece, more := EquationPiece(eqs[0], e), EquationBlocks(eqs[1..], e);
    assert EquationBlocks(eqs, e) == piece + more;
    AppendAssoc(piece, more, rest);
    assert forall i :: 0 <= i < |eqs[1..]| ==> eqs[1..][i] == eqs[i + 1];
  }

  lemma ReadEquationsStep(s: Bytes, c: Condition, tail: Bytes, more: seq<Condition>, rest: Bytes)
    requires StartsWith(s, EquationOpen)
    requires ReadEquation(s) == Some((c, tail))
    requires ReadEquations(tail) == Some((more, rest))
    ensures ReadEquations(s) == Some(([c] + more, rest))
  {
  }

  /** Equation blocks with any complete equation the reader cannot recover are not read as the conditions. */
  lemma {:induction false} ReadEquationsLost(eqs: seq<Equation>, e: Escaping, rest: Bytes)
    requires !ReadableEquations(eqs, e)
    ensures ReadEquations(EquationBlocks(eqs, e) + rest).None?
         || ReadEquations(EquationBlocks(eqs, e) + rest).value.0 != Conditions(eqs)
  {
    EquationBlocksCons(eqs, e, rest);
    if !Complete(eqs[0]) {
      SkipIncompleteEquationFirst(eqs, e, rest);
      ReadEquationsLost(eqs[1..], e, rest);
    } else if ReadableEquation(eqs[0], e) {
      ReadEquationsLost(eqs[1..], e, rest);
      LostAfterCompleteFirst(eqs, e, rest);
    } else {
      LostAtCompleteFirst(eqs, e, rest);
    }
  }

  /** A first equation read as its condition leaves the outcome to the others. */
  lemma LostAfterCompleteFirst(eqs: seq<Equation>, e: Escaping, rest: Bytes)
    requires |eqs| > 0 && Complete(eqs[0]) && ReadableEquation(eqs[0], e)
    requires ReadEquations(EquationBlocks(eqs[1..], e) + rest).None?
          || ReadEquations(EquationBlocks(eqs[1..], e) + rest).value.0 != Conditions(eqs[1..])
    ensures ReadEquations(EquationBlocks(eqs, e) + rest).None?
         || ReadEquations(EquationBlocks(eqs, e) + rest).value.0 != Conditions(eqs)
  {
    var tail := EquationBlocks(eqs[1..], e) + rest;
    EquationBlocksCons(eqs, e, rest);
    assert EquationPiece(eqs[0], e) == EquationBlock(eqs[0], e);
    assert Conditions(eqs) == [ConditionOf(eqs[0])] + Conditions(eqs[1..]);
    EquationBlockParts(eqs[0], e, tail);
    ReadEquationRoundTrip(eqs[0], e, tail);
    LostAfterFirst(ReadEquations(tail), ConditionOf(eqs[0]), Conditions(eqs[1..]));
  }

  /** A first complete equation the reader cannot recover spoils the list at its head. */
  lemma LostAtCompleteFirst(eqs: seq<Equation>, e: Escaping, rest: Bytes)
    requires |eqs| > 0 && Complete(eqs[0]) && !ReadableEquation(eqs[0], e)
    ensures ReadEquations(EquationBlocks(eqs, e) + rest).None?
         || ReadEquations(EquationBlocks(eqs, e) + rest).value.0 != Conditions(eqs)
  {
    var tail := EquationBlocks(eqs[1..], e) + rest;
    EquationBlocksCons(eqs, e, rest);
    assert EquationPiece(eqs[0], e) == EquationBlock(eqs[0], e);
    assert Conditions(eqs) == [ConditionOf(eqs[0])] + Conditions(eqs[1..]);
    EquationBlockParts(eqs[0], e, tail);
    ReadEquationLost(eqs[0], e, tail);
    var s := EquationBlock(eqs[0], e) + tail;
    var first := ReadEquation(s);
    if first.Some? {
      var more := ReadEquations(first.value.1);
      if more.Some? {
        ReadEquationsStep(s, first.value.0, first.value.1, more.value.0, more.value.1);
        assert ([first.value.0] + more.value.0)[0] == first.value.0;
      }
    }
  }

  /**
   A search is read back as its complete equations' text, in order, when
   fields and operators hold no `<` or `&` and every value is legible.
   */
  lemma SearchRoundTrip(eqs: seq<Equation>, e: Escaping)
    requires ReadableEquations(eqs, e)
    ensures ReadSearch(SearchXml(eqs, e)) == Some(Conditions(eqs))
  {
    var blocks := EquationBlocks(eqs, e);
    AppendAssoc(SearchOpen, blocks, SearchClose);
    ExpectLiteral(SearchOpen, blocks + SearchClose);
    DiffersAt(SearchClose, EquationOpen, 0);
    ReadEquationsRoundTrip(eqs, e, SearchClose);
    ExpectWhole(SearchClose);
  }

  /** A search with any complete equation the reader cannot recover is not read back. */
  lemma SearchLost(eqs: seq<Equation>, e: Escaping)
    requires !ReadableEquations(eqs, e)
    ensures ReadSearch(SearchXml(eqs, e)) != Some(Conditions(eqs))
  {
    var blocks := EquationBlocks(eqs, e);
    AppendAssoc(SearchOpen, blocks, SearchClose);
    ExpectLiteral(SearchOpen, blocks + SearchClose);
    ReadEquationsLost(eqs, e, SearchClose);
  }

  /** A search is read back exactly when every complete equation is recoverable. */
  lemma SearchReadBack(eqs: seq<Equation>, e: Escaping)
    ensures ReadSearch(SearchXml(eqs, e)) == Some(Conditions(eqs)) <==> ReadableEquations(eqs, e)
  {
    if ReadableEquations(eqs, e) {
      SearchRoundTrip(eqs, e);
    } else {
      SearchLost(eqs, e);
    }
  }

  /** Every complete equation's condition is among the search's conditions. */
  lemma {:induction false} ConditionsInclude(eqs: seq<Equation>, j: nat)
    requires j < |eqs| && Complete(eqs[j])
    ensures ConditionOf(eqs[j]) in Conditions(eqs)
  {
    if j > 0 {
      ConditionsInclude(eqs[1..], j - 1);
      assert eqs[1..][j - 1] == eqs[j];
    }
  }

  // ---- contact ids ----

  /**
   The `<contact_id>` lines, one after another. Unlike a conforming XML
   parser, the reader accepts several root elements, as the source writes them.
   */
  function ReadIds(s: Bytes): Option<seq<Bytes>>
    decreases |s|
  {
    if |s| == 0 then Some([])
    else
      var s1 :- Expect(IdOpen, s);
      var id :- ReadText(s1, '<', IdEnd);
      var more :- ReadIds(id.1);
      Some([id.0] + more)
  }

  function IdTexts(ids: seq<Scalar>): (r: seq<Bytes>)
    ensures |r| == |ids|
    ensures forall i :: 0 <= i < |ids| ==> r[i] == ToStr(ids[i])
  {
    if |ids| == 0 then [] else [ToStr(ids[0])] + IdTexts(ids[1..])
  }

  /** Ids written raw between tags: none may hold `<` or `&`. */
  predicate ReadableIds(ids: seq<Scalar>) {
    forall i :: 0 <= i < |ids| ==> Xml.Unmarked(ToStr(ids[i]))
  }

  lemma IdLineParts(id: Scalar, rest: Bytes)
    ensures IdLine(id) + rest == IdOpen + (ToStr(id) + (['<'] + (IdEnd + rest)))
  {
    var text := ToStr(id);
    var close: Bytes := IdClose;
    assert close == ['<'] + IdEnd;
    AppendAssoc(IdOpen + text, close, rest);
    AppendAssoc(IdOpen, text, close + rest);
    AppendAssoc(['<'], IdEnd, rest);
  }

  /** The lines of the first id and of the others. */
  lemma IdLinesCons(ids: seq<Scalar>)
    requires |ids| > 0
    ensures IdLines(ids) == IdOpen + (ToStr(ids[0]) + (['<'] + (IdEnd + IdLines(ids[1..]))))
    ensures ReadableIds(ids) <==> Xml.Unmarked(ToStr(ids[0])) && ReadableIds(ids[1..])
    ensures IdTexts(ids) == [ToStr(ids[0])] + IdTexts(ids[1..])
  {
    IdLinesSplit(ids);
    ReadableIdsSplit(ids);
  }

  lemma IdLinesSplit(ids: seq<Scalar>)
    requires |ids| > 0
    ensures IdLines(ids) == IdOpen + (ToStr(ids[0]) + (['<'] + (IdEnd + IdLines(ids[1..]))))
  {
    IdLineParts(ids[0], IdLines(ids[1..]));
    assert IdLines(ids) == IdLine(ids[0]) + IdLines(ids[1..]);
  }

  lemma ReadableIdsSplit(ids: seq<Scalar>)
    requires |ids| > 0
    ensures ReadableIds(ids) <==> Xml.Unmarked(ToStr(ids[0])) && ReadableIds(ids[1..])
  {
    assert forall i :: 0 <= i < |ids[1..]| ==> ids[1..][i] == ids[i + 1];
  }

  /** The ids of `getContact` and `getContacts` are read back as text, in order, when none holds `<` or `&`. */
  lemma {:induction false} IdsRoundTrip(ids: seq<Scalar>)
    requires ReadableIds(ids)
    ensures ReadIds(IdLines(ids)) == Some(IdTexts(ids))
  {
    if |ids| > 0 {
      var tail := IdLines(ids[1..]);
      IdLinesCons(ids);
      ExpectLiteral(IdOpen, ToStr(ids[0]) + (['<'] + (IdEnd + tail)));
      ReadPlainText(ToStr(ids[0]), '<', IdEnd, tail);
      IdsRoundTrip(ids[1..]);
    }
  }

  /** Id lines with any id holding `<` or `&` are not read back as the ids. */
  lemma {:induction false} IdsLost(ids: seq<Scalar>)
    requires !ReadableIds(ids)
    ensures ReadIds(IdLines(ids)) != Some(IdTexts(ids))
  {
    var tail := IdLines(ids[1..]);
    IdLinesCons(ids);
    ExpectLiteral(IdOpen, ToStr(ids[0]) + (['<'] + (IdEnd + tail)));
    if Xml.Unmarked(ToStr(ids[0])) {
      ReadPlainText(ToStr(ids[0]), '<', IdEnd, tail);
      IdsLost(ids[1..]);
      var more := ReadIds(tail);
      if more.Some? {
        assert ([ToStr(ids[0])] + more.value)[1..] == more.value;
      }
    } else {
      ReadTextLost(ToStr(ids[0]), '<', IdEnd, tail);
    }
  }

  /** Id lines are read back exactly when no id holds `<` or `&`. */
  lemma IdsReadBack(ids: seq<Scalar>)
    ensures ReadIds(IdLines(ids)) == Some(IdTexts(ids)) <==> ReadableIds(ids)
  {
    if ReadableIds(ids) {
      IdsRoundTrip(ids);
    } else {
      IdsLost(ids);
    }
  }

  // ---- sales ----

  /** A sale as the server sees it: contact id, product id and the fields' text. */
  datatype Sale = Sale(contactId: Bytes, productId: Bytes, fields: seq<Field<Bytes>>)

  /**
   What a lenient reader of `saleProduct`'s payload can recover: the opening
   tag and the field lines, which must end the text. Unlike a conforming XML
   parser it does not ask for `</purchases>`, which the source never writes.
   */
  function ReadSale(s: Bytes): Option<Sale> {
    var head :- ReadSaleOpen(s);
    var fields :- ReadFieldLines(SaleFieldIndent, head.2);
    if fields.1 == [] then Some(Sale(head.0, head.1, fields.0)) else None
  }

  /** The two ids of the opening `purchases` tag, and what follows it. */
  function ReadSaleOpen(s: Bytes): Option<(Bytes, Bytes, Bytes)> {
    var s1 :- Expect(SaleStart, s);
    var c :- ReadText(s1, '"', ProductAttr);
    var p :- ReadText(c.1, '"', TagEnd);
    Some((c.0, p.0, p.1))
  }

  lemma SaleOpenParts(c: Bytes, p: Bytes, rest: Bytes)
    ensures SaleOpenText(c, p) + rest == SaleStart + (c + (['"'] + (ProductAttr + (p + (['"'] + (TagEnd + rest))))))
  {
    var between: Bytes := ProductIdAttr;
    var tagEnd: Bytes := AttrLineEnd;
    assert between == ['"'] + ProductAttr;
    assert tagEnd == ['"'] + TagEnd;
    Assoc5(SaleStart, c, between, p, tagEnd, rest);
    AppendAssoc(['"'], TagEnd, rest);
    AppendAssoc(['"'], ProductAttr, p + (tagEnd + rest));
  }

  lemma ReadSaleOpenRoundTrip(c: Bytes, p: Bytes, rest: Bytes)
    requires Xml.AttributeSafe(c) && Xml.AttributeSafe(p)
    ensures ReadSaleOpen(SaleOpenText(c, p) + rest) == Some((c, p, rest))
  {
    var tail := p + (['"'] + (TagEnd + rest));
    SaleOpenParts(c, p, rest);
    ExpectLiteral(SaleStart, c + (['"'] + (ProductAttr + tail)));
    ReadPlainText(c, '"', ProductAttr, tail);
    ReadPlainText(p, '"', TagEnd, rest);
  }

  /** An opening tag with an id the reader cannot recover is not read with both ids. */
  lemma ReadSaleOpenLost(c: Bytes, p: Bytes, rest: Bytes)
    requires !(Xml.AttributeSafe(c) && Xml.AttributeSafe(p))
    ensures ReadSaleOpen(SaleOpenText(c, p) + rest).None?
         || (ReadSaleOpen(SaleOpenText(c, p) + rest).value.0, ReadSaleOpen(SaleOpenText(c, p) + rest).value.1) != (c, p)
  {
    var tail := p + (['"'] + (TagEnd + rest));
    SaleOpenParts(c, p, rest);
    ExpectLiteral(SaleStart, c + (['"'] + (ProductAttr + tail)));
    if Xml.AttributeSafe(c) {
      ReadPlainText(c, '"', ProductAttr, tail);
      ReadTextLost(p, '"', TagEnd, rest);
    } else {
      ReadTextLost(c, '"', ProductAttr, tail);
    }
  }

  /** Ids that can stand raw in their attributes. */
  predicate ReadableSaleIds(contactId: Scalar, productId: Scalar) {
    Xml.AttributeSafe(ToStr(contactId)) && Xml.AttributeSafe(ToStr(productId))
  }

  /**
   The sale payload is read back as its ids and its fields' text when the
   ids and field names can stand raw in their attributes and the raw values
   hold no `<` or `&`.
   */
  lemma SaleRoundTrip(contactId: Scalar, productId: Scalar, fs: seq<Field<Scalar>>)
    requires ReadableSaleIds(contactId, productId) && ReadableFields(fs, Verbatim)
    ensures ReadSale(SaleXml(contactId, productId, fs)) == Some(Sale(ToStr(contactId), ToStr(productId), TextFields(fs)))
  {
    var lines := FieldLines(SaleFieldIndent, fs, Verbatim);
    ReadSaleOpenRoundTrip(ToStr(contactId), ToStr(productId), lines);
    assert lines + [] == lines;
    ReadFieldLinesRoundTrip(SaleFieldIndent, fs, Verbatim, []);
  }

  /** With an id or a field the reader cannot recover, the sale is not read back. */
  lemma SaleLost(contactId: Scalar, productId: Scalar, fs: seq<Field<Scalar>>)
    requires !(ReadableSaleIds(contactId, productId) && ReadableFields(fs, Verbatim))
    ensures ReadSale(SaleXml(contactId, productId, fs)) != Some(Sale(ToStr(contactId), ToStr(productId), TextFields(fs)))
  {
    var c, p := ToStr(contactId), ToStr(productId);
    var lines := FieldLines(SaleFieldIndent, fs, Verbatim);
    if ReadableSaleIds(contactId, productId) {
      ReadSaleOpenRoundTrip(c, p, lines);
      assert lines + [] == lines;
      ReadFieldLinesLost(SaleFieldIndent, fs, Verbatim, []);
    } else {
      ReadSaleOpenLost(c, p, lines);
    }
  }

  /** A sale is read back exactly when its ids and fields are all recoverable. */
  lemma SaleReadBack(contactId: Scalar, productId: Scalar, fs: seq<Field<Scalar>>)
    ensures ReadSale(SaleXml(contactId, productId, fs)) == Some(Sale(ToStr(contactId), ToStr(productId), TextFields(fs)))
        <==> ReadableSaleIds(contactId, productId) && ReadableFields(fs, Verbatim)
  {
    if ReadableSaleIds(contactId, productId) && ReadableFields(fs, Verbatim) {
      SaleRoundTrip(contactId, productId, fs);
    } else {
      SaleLost(contactId, productId, fs);
    }
  }

  /** A purchase document that ends with its closing tag. */
  predicate Closed(s: Bytes) {
    EndsWith(s, "</purchases>\n")
  }

  /** The closing `</purchases>` tag is never written, whatever the entries. */
  lemma SaleNeverClosed(contactId: Scalar, productId: Scalar, fs: seq<Field<Scalar>>)
    ensures !Closed(SaleXml(contactId, productId, fs))
  {
    ClosedTail(SaleXml(contactId, productId, fs));
    if |fs| == 0 {
      BareSaleTail(contactId, productId);
    } else {
      SaleLinesTail(contactId, productId, fs);
    }
  }

  /** A closed document has `s` three bytes from its end. */
  lemma ClosedTail(s: Bytes)
    ensures Closed(s) ==> |s| >= 3 && s[|s| - 3] == 's'
  {
    var closing: Bytes := "</purchases>\n";
    if Closed(s) {
      ThirdLast(s, closing);
    }
  }

  /** A suffix fixes the byte three places from the end. */
  lemma ThirdLast(s: Bytes, suffix: Bytes)
    requires EndsWith(s, suffix) && |suffix| >= 3
    ensures |s| >= 3 && s[|s| - 3] == suffix[|suffix| - 3]
  {
    assert s[|s| - 3] == s[|s| - |suffix|..][|suffix| - 3];
  }

  /** Without fields the document ends with the opening tag's `">` and newline. */
  lemma BareSaleTail(contactId: Scalar, productId: Scalar)
    ensures |SaleXml(contactId, productId, [])| >= 3
    ensures SaleXml(contactId, productId, [])[|SaleXml(contactId, productId, [])| - 3] == '"'
  {
    var open := SaleOpen(contactId, productId);
    var tagEnd: Bytes := AttrLineEnd;
    assert FieldLines(SaleFieldIndent, [], Verbatim) == [];
    assert SaleXml(contactId, productId, []) == open + [];
    assert open + [] == open;
    SaleOpenEnds(ToStr(contactId), ToStr(productId));
    ThirdLast(open, tagEnd);
  }

  /** With fields the document ends with the last field line's `</field>` and newline. */
  lemma SaleLinesTail(contactId: Scalar, productId: Scalar, fs: seq<Field<Scalar>>)
    requires |fs| > 0
    ensures |SaleXml(contactId, productId, fs)| >= 3
    ensures SaleXml(contactId, productId, fs)[|SaleXml(contactId, productId, fs)| - 3] == 'd'
  {
    var lineEnd: Bytes := FieldClose;
    var lines := FieldLines(SaleFieldIndent, fs, Verbatim);
    FieldLinesEnd(SaleFieldIndent, fs, Verbatim);
    EndsWithExtend(SaleOpen(contactId, productId), lines, lineEnd);
    ThirdLast(SaleXml(contactId, productId, fs), lineEnd);
  }

  lemma SaleOpenEnds(c: Bytes, p: Bytes)
    ensures EndsWith(SaleOpenText(c, p), AttrLineEnd)
  {
    var tagEnd: Bytes := AttrLineEnd;
    var head := SaleStart + c + ProductIdAttr + p;
    assert SaleOpenText(c, p) == head + tagEnd;
    EndsWithExtend(head, tagEnd, tagEnd);
  }

  lemma FieldLineEnds(indent: Bytes, f: Field<Scalar>, e: Escaping)
    ensures EndsWith(FieldLine(indent, f, e), FieldClose)
  {
    var lineEnd: Bytes := FieldClose;
    var head := FieldStart(indent) + f.name + AttrEnd + Render(e, f.value);
    assert FieldLine(indent, f, e) == head + lineEnd;
    EndsWithExtend(head, lineEnd, lineEnd);
  }

  /** Field lines, when there are any, end with the last line's closing tag. */
  lemma {:induction false} FieldLinesEnd(indent: Bytes, fs: seq<Field<Scalar>>, e: Escaping)
    requires |fs| > 0
    ensures EndsWith(FieldLines(indent, fs, e), FieldClose)
  {
    FieldLineEnds(indent, fs[0], e);
    if |fs| == 1 {
      assert FieldLines(indent, fs, e) == FieldLine(indent, fs[0], e) + [];
      assert FieldLine(indent, fs[0], e) + [] == FieldLine(indent, fs[0], e);
    } else {
      FieldLinesEnd(indent, fs[1..], e);
      EndsWithExtend(FieldLine(indent, fs[0], e), FieldLines(indent, fs[1..], e), FieldClose);
    }
  }
}
