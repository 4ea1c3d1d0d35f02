/**
 The payload builders as the source writes them: a string grown by
 appending one piece per entry of the caller's array, in order. Each is
 shown to produce exactly the payload defined in the Payloads module.
 */
module Builders {
  import opened Wrappers
  import opened Php
  import opened Scan
  import opened Payloads

  /** The loop shared by all builders: the pieces appended one after the other. */
  method AppendAll(before: Bytes, pieces: seq<Bytes>) returns (data: Bytes)
    ensures data == before + Concat(pieces)
  {
    data := before;
    for i := 0 to |pieces|
      invariant data == before + Concat(pieces[..i])
    {
      ConcatSnoc(pieces, i);
      data := data + pieces[i];
    }
    assert pieces[..|pieces|] == pieces;
  }

  /**
   `addContact` / `updateContact`: the opening tag, one `Group_Tag` block
   per section (each with one `<field>` line per entry), the closing tag.
   */
  method BuildContactXml(id: Option<Bytes>, sections: seq<Group<Scalar>>, e: Escaping) returns (data: Bytes)
    ensures data == ContactXml(id, sections, e)
  {
    data := AppendAll(ContactOpen(id), GroupBlockSeq(sections, e));
    GroupBlocksAsConcat(sections, e);
    data := data + ContactClose;
  }

  /** `getContacts`: one `<contact_id>` line per id. */
  method BuildIdLines(ids: seq<Scalar>) returns (data: Bytes)
    ensures data == IdLines(ids)
  {
    data := AppendAll([], IdLineSeq(ids));
    IdLinesAsConcat(ids);
  }

  /**
   The three searches: the opening tag, a block for each equation with all
   three entries set (nothing for the others), the closing tag.
   */
  method BuildSearchXml(equations: seq<Equation>, e: Escaping) returns (data: Bytes)
    ensures data == SearchXml(equations, e)
  {
    data := AppendAll(SearchOpen, EquationPieceSeq(equations, e));
    EquationBlocksAsConcat(equations, e);
    data := data + SearchClose;
  }

  /** `saleProduct`: the opening tag and one raw `<field>` line per entry; nothing closes the tag. */
  method BuildSaleXml(contactId: Scalar, productId: Scalar, fs: seq<Field<Scalar>>) returns (data: Bytes)
    ensures data == SaleXml(contactId, productId, fs)
  {
    data := AppendAll(SaleOpen(contactId, productId), FieldLineSeq(SaleFieldIndent, fs, Verbatim));
    FieldLinesAsConcat(SaleFieldIndent, fs, Verbatim);
  }
}
