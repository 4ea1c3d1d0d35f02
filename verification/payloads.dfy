/**
 The XML payloads the v0.2 client writes before encoding them: contact
 sections (add and update), contact ids (fetch), search equations (contact,
 product and purchase search) and a product sale.
 */
module Payloads {
  import opened Wrappers
  import opened Php
  import opened Scan
  import Html

  /** How a value is written into the XML: as is, or through `htmlspecialchars`. */
  datatype Escaping = Verbatim | Entities(quotes: Html.QuoteStyle)

  function Render(e: Escaping, v: Scalar): Bytes {
    match e
    case Verbatim => ToStr(v)
    case Entities(q) => Html.Escape(ToStr(v), q)
  }

  /** One entry of a PHP array used as an ordered map: key and value. */
  datatype Field<V> = Field(name: Bytes, value: V)

  /** One `Group_Tag` section: its name and its fields, in order. */
  datatype Group<V> = Group(tag: Bytes, fields: seq<Field<V>>)

  function FieldStart(indent: Bytes): Bytes {
    indent + FieldOpen
  }

  const FieldOpen: Bytes := "<field name=\""

  /** What closes an attribute and its tag: on the same line, and at the end of a line. */
  const AttrEnd: Bytes := "\">"
  const AttrLineEnd: Bytes := "\">\n"

  const FieldClose: Bytes := "</field>\n"

  function FieldLine(indent: Bytes, f: Field<Scalar>, e: Escaping): Bytes {
    var text := Render(e, f.value);
    FieldStart(indent) + f.name + AttrEnd + text + FieldClose
  }

  /** One `<field>` line per entry, in order. */
  function FieldLines(indent: Bytes, fs: seq<Field<Scalar>>, e: Escaping): Bytes {
    if |fs| == 0 then [] else FieldLine(indent, fs[0], e) + FieldLines(indent, fs[1..], e)
  }

  const GroupStart: Bytes := "\t<Group_Tag name=\""

  function GroupOpen(tag: Bytes): Bytes {
    GroupStart + tag + AttrLineEnd
  }

  const GroupFieldIndent: Bytes := "\t\t"
  const GroupClose: Bytes := "\t</Group_Tag>\n"

  function GroupBlock(g: Group<Scalar>, e: Escaping): Bytes {
    GroupOpen(g.tag) + FieldLines(GroupFieldIndent, g.fields, e) + GroupClose
  }

  /** One `Group_Tag` block per section, in order. */
  function GroupBlocks(gs: seq<Group<Scalar>>, e: Escaping): Bytes {
    if |gs| == 0 then [] else GroupBlock(gs[0], e) + GroupBlocks(gs[1..], e)
  }

  /** The opening tag: bare for `addContact`, with the contact id for `updateContact`. */
  function ContactOpen(id: Option<Bytes>): Bytes {
    match id
    case None => BareContactOpen
    case Some(i) => ContactIdStart + i + AttrLineEnd
  }

  const BareContactOpen: Bytes := "<contact>\n"
  const ContactIdStart: Bytes := "<contact id=\""

  /** The contact document of `addContact` (no id) and `updateContact` (with id). */
  function ContactXml(id: Option<Bytes>, gs: seq<Group<Scalar>>, e: Escaping): Bytes {
    ContactOpen(id) + GroupBlocks(gs, e) + ContactClose
  }

  const ContactClose: Bytes := "</contact>\n"

  function IdLine(id: Scalar): Bytes {
    var text := ToStr(id);
    IdOpen + text + IdClose
  }

  const IdOpen: Bytes := "<contact_id>"
  const IdClose: Bytes := "</contact_id>\n"

  /** The payload of `getContact` and `getContacts`: one `<contact_id>` line per id, in order. */
  function IdLines(ids: seq<Scalar>): Bytes {
    if |ids| == 0 then [] else IdLine(ids[0]) + IdLines(ids[1..])
  }

  /**
   A search equation: the entries `field`, `op` and `value` of a PHP array,
   each missing (`None`) or present with a value, which may be null. Other
   entries of the array are never read.
   */
  datatype Equation = Equation(field: Option<Scalar>, op: Option<Scalar>, value: Option<Scalar>)

  /** `isset` of one entry: present and not null. */
  predicate Set(entry: Option<Scalar>) {
    entry.Some? && IsSet(entry.value)
  }

  /** `isset` of all three entries. */
  predicate Complete(eq: Equation) {
    Set(eq.field) && Set(eq.op) && Set(eq.value)
  }

  function EquationBlock(eq: Equation, e: Escaping): Bytes
    requires Complete(eq)
  {
    var field, op, value := ToStr(eq.field.value), ToStr(eq.op.value), Render(e, eq.value.value);
    EquationOpen + Element(FieldTag, field) + Element(OpTag, op) + Element(ValueTag, value) + EquationClose
  }

  const EquationOpen: Bytes := "\t<equation>\n"
  const EquationClose: Bytes := "\t</equation>\n"

  /** The tags of an equation's three lines. */
  const FieldTag: Bytes := "field"
  const OpTag: Bytes := "op"
  const ValueTag: Bytes := "value"

  /** One line of an equation: the text between an opening and a closing `tag`. */
  function Element(tag: Bytes, text: Bytes): Bytes {
    ElementOpen(tag) + text + "</" + tag + ">\n"
  }

  function ElementOpen(tag: Bytes): Bytes {
    "\t\t<" + tag + ">"
  }

  /** One `<equation>` block per complete equation, in order; incomplete ones write nothing. */
  function EquationBlocks(eqs: seq<Equation>, e: Escaping): Bytes {
    if |eqs| == 0 then []
    else EquationPiece(eqs[0], e) + EquationBlocks(eqs[1..], e)
  }

  /** The payload of the three searches. */
  function SearchXml(eqs: seq<Equation>, e: Escaping): Bytes {
    SearchOpen + EquationBlocks(eqs, e) + SearchClose
  }

  const SearchOpen: Bytes := "<search>\n"
  const SearchClose: Bytes := "</search>\n"

  /** The payload of `saleProduct`: an opening `purchases` tag and one raw `<field>` line per entry. */
  function SaleXml(contactId: Scalar, productId: Scalar, fs: seq<Field<Scalar>>): Bytes {
    SaleOpen(contactId, productId) + FieldLines(SaleFieldIndent, fs, Verbatim)
  }

  function SaleOpen(contactId: Scalar, productId: Scalar): Bytes {
    SaleOpenText(ToStr(contactId), ToStr(productId))
  }

  function SaleOpenText(c: Bytes, p: Bytes): Bytes {
    SaleStart + c + ProductIdAttr + p + AttrLineEnd
  }

  const SaleStart: Bytes := "<purchases contact_id=\""
  const ProductIdAttr: Bytes := "\" product_id=\""
  const SaleFieldIndent: Bytes := "\t"

  // The builders distribute over concatenation of their input: each entry
  // contributes its own text, in input order.

  lemma {:induction false} FieldLinesAppend(indent: Bytes, a: seq<Field<Scalar>>, b: seq<Field<Scalar>>, e: Escaping)
    ensures FieldLines(indent, a + b, e) == FieldLines(indent, a, e) + FieldLines(indent, b, e)
  {
    if |a| == 0 {
      assert a + b == b;
    } else {
      assert (a + b)[1..] == a[1..] + b;
      FieldLinesAppend(indent, a[1..], b, e);
    }
  }

  lemma {:induction false} GroupBlocksAppend(a: seq<Group<Scalar>>, b: seq<Group<Scalar>>, e: Escaping)
    ensures GroupBlocks(a + b, e) == GroupBlocks(a, e) + GroupBlocks(b, e)
  {
    if |a| == 0 {
      assert a + b == b;
    } else {
      assert (a + b)[1..] == a[1..] + b;
      GroupBlocksAppend(a[1..], b, e);
    }
  }

  lemma {:induction false} IdLinesAppend(a: seq<Scalar>, b: seq<Scalar>)
    ensures IdLines(a + b) == IdLines(a) + IdLines(b)
  {
    if |a| == 0 {
      assert a + b == b;
    } else {
      assert (a + b)[1..] == a[1..] + b;
      IdLinesAppend(a[1..], b);
    }
  }

  lemma {:induction false} EquationBlocksAppend(a: seq<Equation>, b: seq<Equation>, e: Escaping)
    ensures EquationBlocks(a + b, e) == EquationBlocks(a, e) + EquationBlocks(b, e)
  {
    if |a| == 0 {
      assert a + b == b;
    } else {
      var p := EquationPiece(a[0], e);
      assert (a + b)[0] == a[0];
      assert (a + b)[1..] == a[1..] + b;
      EquationBlocksAppend(a[1..], b, e);
      assert EquationBlocks(a + b, e) == p + (EquationBlocks(a[1..], e) + EquationBlocks(b, e));
      AppendAssoc(p, EquationBlocks(a[1..], e), EquationBlocks(b, e));
    }
  }

  /** An equation lacking `field`, `op` or `value` (or holding null there) changes nothing. */
  lemma IncompleteEquationIgnored(a: seq<Equation>, eq: Equation, b: seq<Equation>, e: Escaping)
    requires !Complete(eq)
    ensures SearchXml(a + [eq] + b, e) == SearchXml(a + b, e)
  {
    IncompleteEquationSkipped(a, eq, b, e);
  }

  lemma IncompleteEquationSkipped(a: seq<Equation>, eq: Equation, b: seq<Equation>, e: Escaping)
    requires !Complete(eq)
    ensures EquationBlocks(a + [eq] + b, e) == EquationBlocks(a + b, e)
  {
    EquationBlocksAround(a, eq, b, e);
    IncompleteEquationEmpty(eq, e);
    EquationBlocksAppend(a, b, e);
  }

  lemma IncompleteEquationEmpty(eq: Equation, e: Escaping)
    requires !Complete(eq)
    ensures EquationBlocks([eq], e) == []
  {
    assert EquationPiece(eq, e) == [];
    assert [eq][1..] == [];
  }

  lemma EquationBlocksAround(a: seq<Equation>, eq: Equation, b: seq<Equation>, e: Escaping)
    ensures EquationBlocks(a + [eq] + b, e) == EquationBlocks(a, e) + EquationBlocks([eq], e) + EquationBlocks(b, e)
  {
    EquationBlocksAppend(a + [eq], b, e);
    EquationBlocksAppend(a, [eq], e);
  }

  // Each builder writes one piece per entry, in input order: the loops of
  // the source append exactly these pieces.

  function FieldLineSeq(indent: Bytes, fs: seq<Field<Scalar>>, e: Escaping): (r: seq<Bytes>)
    ensures |r| == |fs|
    ensures forall i :: 0 <= i < |fs| ==> r[i] == FieldLine(indent, fs[i], e)
  {
    seq(|fs|, i requires 0 <= i < |fs| => FieldLine(indent, fs[i], e))
  }

  lemma {:induction false} FieldLinesAsConcat(indent: Bytes, fs: seq<Field<Scalar>>, e: Escaping)
    ensures FieldLines(indent, fs, e) == Concat(FieldLineSeq(indent, fs, e))
  {
    if |fs| > 0 {
      assert FieldLineSeq(indent, fs, e)[1..] == FieldLineSeq(indent, fs[1..], e);
      FieldLinesAsConcat(indent, fs[1..], e);
    }
  }

  function GroupBlockSeq(gs: seq<Group<Scalar>>, e: Escaping): (r: seq<Bytes>)
    ensures |r| == |gs|
    ensures forall i :: 0 <= i < |gs| ==> r[i] == GroupBlock(gs[i], e)
  {
    seq(|gs|, i requires 0 <= i < |gs| => GroupBlock(gs[i], e))
  }

  lemma {:induction false} GroupBlocksAsConcat(gs: seq<Group<Scalar>>, e: Escaping)
    ensures GroupBlocks(gs, e) == Concat(GroupBlockSeq(gs, e))
  {
    if |gs| > 0 {
      assert GroupBlockSeq(gs, e)[1..] == GroupBlockSeq(gs[1..], e);
      GroupBlocksAsConcat(gs[1..], e);
    }
  }

  function IdLineSeq(ids: seq<Scalar>): (r: seq<Bytes>)
    ensures |r| == |ids|
    ensures forall i :: 0 <= i < |ids| ==> r[i] == IdLine(ids[i])
  {
    seq(|ids|, i requires 0 <= i < |ids| => IdLine(ids[i]))
  }

  lemma {:induction false} IdLinesAsConcat(ids: seq<Scalar>)
    ensures IdLines(ids) == Concat(IdLineSeq(ids))
  {
    if |ids| > 0 {
      assert IdLineSeq(ids)[1..] == IdLineSeq(ids[1..]);
      IdLinesAsConcat(ids[1..]);
    }
  }

  /** What one equation contributes: its block, or nothing when it is incomplete. */
  function EquationPiece(eq: Equation, e: Escaping): Bytes {
    if Complete(eq) then EquationBlock(eq, e) else []
  }

  function EquationPieceSeq(eqs: seq<Equation>, e: Escaping): (r: seq<Bytes>)
    ensures |r| == |eqs|
    ensures forall i :: 0 <= i < |eqs| ==> r[i] == EquationPiece(eqs[i], e)
  {
    seq(|eqs|, i requires 0 <= i < |eqs| => EquationPiece(eqs[i], e))
  }

  lemma {:induction false} EquationBlocksAsConcat(eqs: seq<Equation>, e: Escaping)
    ensures EquationBlocks(eqs, e) == Concat(EquationPieceSeq(eqs, e))
  {
    if |eqs| > 0 {
      assert EquationPieceSeq(eqs, e)[1..] == EquationPieceSeq(eqs[1..], e);
      EquationBlocksAsConcat(eqs[1..], e);
    }
  }

  // ---- what the builders write when there is nothing to write ----

  /**
   A contact document is its opening tag, one `Group_Tag` block per section
   in input order, and `</contact>`; it is the two tags alone exactly when
   there are no sections.
   */
  lemma ContactXmlLayout(id: Option<Bytes>, gs: seq<Group<Scalar>>, e: Escaping)
    ensures ContactXml(id, gs, e) == ContactOpen(id) + Concat(GroupBlockSeq(gs, e)) + ContactClose
    ensures ContactXml(id, gs, e) == ContactOpen(id) + ContactClose <==> |gs| == 0
  {
    GroupBlocksAsConcat(gs, e);
    if |gs| > 0 {
      assert |GroupBlocks(gs, e)| >= |GroupStart|;
    }
  }

  /** The id payload is empty exactly when there are no ids, and otherwise opens with `<contact_id>`. */
  lemma IdLinesEmptyIff(ids: seq<Scalar>)
    ensures IdLines(ids) == [] <==> |ids| == 0
    ensures |ids| > 0 ==> StartsWith(IdLines(ids), IdOpen)
  {
    if |ids| > 0 {
      var tail := IdLinesFront(ids);
      StartsWithAppend(IdOpen, tail);
    }
  }

  lemma IdLinesFront(ids: seq<Scalar>) returns (tail: Bytes)
    requires |ids| > 0
    ensures IdLines(ids) == IdOpen + tail
  {
    tail := ToStr(ids[0]) + IdClose + IdLines(ids[1..]);
  }

  /** An equation writes nothing exactly when one of its three entries is unset. */
  lemma EquationPieceEmptyIff(eq: Equation, e: Escaping)
    ensures EquationPiece(eq, e) == [] <==> !Complete(eq)
  {
    if Complete(eq) {
      assert |EquationBlock(eq, e)| >= |EquationOpen|;
    }
  }

  /** The equations write nothing exactly when none of them is complete. */
  lemma {:induction false} EquationBlocksEmptyIff(eqs: seq<Equation>, e: Escaping)
    ensures EquationBlocks(eqs, e) == [] <==> forall i :: 0 <= i < |eqs| ==> !Complete(eqs[i])
  {
    if |eqs| > 0 {
      EquationPieceEmptyIff(eqs[0], e);
      EquationBlocksEmptyIff(eqs[1..], e);
      assert forall i :: 1 <= i < |eqs| ==> eqs[i] == eqs[1..][i - 1];
    }
  }

  /** A search is the two `search` tags alone exactly when no equation is complete. */
  lemma SearchXmlEmptyIff(eqs: seq<Equation>, e: Escaping)
    ensures SearchXml(eqs, e) == SearchOpen + SearchClose <==> forall i :: 0 <= i < |eqs| ==> !Complete(eqs[i])
  {
    EquationBlocksEmptyIff(eqs, e);
    var b := EquationBlocks(eqs, e);
    if SearchXml(eqs, e) == SearchOpen + SearchClose {
      assert |b| == 0;
    }
  }

  /** Field lines are empty exactly when there are no entries. */
  lemma FieldLinesEmptyIff(indent: Bytes, fs: seq<Field<Scalar>>, e: Escaping)
    ensures FieldLines(indent, fs, e) == [] <==> |fs| == 0
  {
    if |fs| > 0 {
      assert |FieldLine(indent, fs[0], e)| >= |FieldClose|;
    }
  }

  /** A sale is its opening `purchases` tag alone exactly when there are no entries. */
  lemma SaleXmlBareIff(contactId: Scalar, productId: Scalar, fs: seq<Field<Scalar>>)
    ensures SaleXml(contactId, productId, fs) == SaleOpen(contactId, productId) <==> |fs| == 0
  {
    FieldLinesEmptyIff(SaleFieldIndent, fs, Verbatim);
    var o := SaleOpen(contactId, productId);
    if SaleXml(contactId, productId, fs) == o {
      assert |FieldLines(SaleFieldIndent, fs, Verbatim)| == 0;
    }
  }

  // ---- escaping that changes nothing ----

  /** A value `htmlspecialchars` leaves as it is. */
  predicate Plain(v: Scalar, q: Html.QuoteStyle) {
    Html.NoSpecials(ToStr(v), q)
  }

  predicate PlainFields(fs: seq<Field<Scalar>>, q: Html.QuoteStyle) {
    forall i :: 0 <= i < |fs| ==> Plain(fs[i].value, q)
  }

  predicate PlainGroups(gs: seq<Group<Scalar>>, q: Html.QuoteStyle) {
    forall i :: 0 <= i < |gs| ==> PlainFields(gs[i].fields, q)
  }

  /** Every present value of the equations is plain. */
  predicate PlainValues(eqs: seq<Equation>, q: Html.QuoteStyle) {
    forall i :: 0 <= i < |eqs| ==> Complete(eqs[i]) ==> Plain(eqs[i].value.value, q)
  }

  /** Escaping leaves a value's text as it is exactly when the value is plain. */
  lemma RenderPlainIff(v: Scalar, q: Html.QuoteStyle)
    ensures Render(Entities(q), v) == Render(Verbatim, v) <==> Plain(v, q)
  {
    Html.EscapeIsIdentityIff(ToStr(v), q);
  }

  lemma FieldLinePlain(indent: Bytes, f: Field<Scalar>, q: Html.QuoteStyle)
    requires Plain(f.value, q)
    ensures FieldLine(indent, f, Entities(q)) == FieldLine(indent, f, Verbatim)
  {
    RenderPlainIff(f.value, q);
  }

  /** Field lines with plain values are the same escaped or not. */
  lemma {:induction false} FieldLinesPlain(indent: Bytes, fs: seq<Field<Scalar>>, q: Html.QuoteStyle)
    requires PlainFields(fs, q)
    ensures FieldLines(indent, fs, Entities(q)) == FieldLines(indent, fs, Verbatim)
  {
    if |fs| > 0 {
      FieldLinePlain(indent, fs[0], q);
      FieldLinesPlain(indent, fs[1..], q);
    }
  }

  lemma {:induction false} GroupBlocksPlain(gs: seq<Group<Scalar>>, q: Html.QuoteStyle)
    requires PlainGroups(gs, q)
    ensures GroupBlocks(gs, Entities(q)) == GroupBlocks(gs, Verbatim)
  {
    if |gs| > 0 {
      FieldLinesPlain(GroupFieldIndent, gs[0].fields, q);
      GroupBlocksPlain(gs[1..], q);
    }
  }

  /** A contact document whose values are all plain is the same escaped or not. */
  lemma ContactXmlPlain(id: Option<Bytes>, gs: seq<Group<Scalar>>, q: Html.QuoteStyle)
    requires PlainGroups(gs, q)
    ensures ContactXml(id, gs, Entities(q)) == ContactXml(id, gs, Verbatim)
  {
    GroupBlocksPlain(gs, q);
  }

  lemma EquationPiecePlain(eq: Equation, q: Html.QuoteStyle)
    requires Complete(eq) ==> Plain(eq.value.value, q)
    ensures EquationPiece(eq, Entities(q)) == EquationPiece(eq, Verbatim)
  {
    if Complete(eq) {
      RenderPlainIff(eq.value.value, q);
    }
  }

  lemma {:induction false} EquationBlocksPlain(eqs: seq<Equation>, q: Html.QuoteStyle)
    requires PlainValues(eqs, q)
    ensures EquationBlocks(eqs, Entities(q)) == EquationBlocks(eqs, Verbatim)
  {
    if |eqs| > 0 {
      EquationPiecePlain(eqs[0], q);
      EquationBlocksPlain(eqs[1..], q);
    }
  }

  /** A search whose values are all plain is the same escaped or not. */
  lemma SearchXmlPlain(eqs: seq<Equation>, q: Html.QuoteStyle)
    requires PlainValues(eqs, q)
    ensures SearchXml(eqs, Entities(q)) == SearchXml(eqs, Verbatim)
  {
    EquationBlocksPlain(eqs, q);
  }
}
