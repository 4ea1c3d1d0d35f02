/**
 The v0.1 client (ontraport.class.php): a `sendRequest` that always talks to
 the contact endpoint and passes the action through as `reqType`, and an
 `addContact` with two fixed sections whose values are written raw.
 */
module Legacy {
  import opened Wrappers
  import opened Php
  import opened Payloads
  import opened Dispatch
  import Xml
  import Wire
  import Readers
  import Client

  /** `sendRequest` of v0.1: the same form body, always sent to the contact endpoint. */
  function SendRequest(c: Credentials, apiMethod: Bytes, httpMethod: Bytes, data: Bytes): (r: Request)
    ensures r.url == EndpointUrl(ContactData) && r.httpMethod == httpMethod
    ensures r.postFields == Some(PostData(c, apiMethod, data))
    ensures r.contentLength == Some(|PostData(c, apiMethod, data)|)
  {
    Attach(EndpointUrl(ContactData), httpMethod, PostData(c, apiMethod, data))
  }

  /**
   For an action without `_` that does not name the form or product family,
   the v0.2 `sendRequest` sends exactly what v0.1 sends.
   */
  lemma SendRequestAgrees(c: Credentials, action: Bytes, httpMethod: Bytes, data: Bytes)
    requires '_' !in action
    requires Lower(action) != "forms" && Lower(action) != "products"
    ensures Dispatch.SendRequest(c, action, httpMethod, data) == SendRequest(c, action, httpMethod, data)
  {
    RouteOfPlainAction(action);
  }

  /**
   For an action with `_`, v0.2 sends a shorter `reqType` than v0.1, so the
   two bodies always differ.
   */
  lemma SendRequestDiffers(c: Credentials, action: Bytes, httpMethod: Bytes, data: Bytes)
    requires '_' in action
    ensures Dispatch.SendRequest(c, action, httpMethod, data).postFields != SendRequest(c, action, httpMethod, data).postFields
  {
    assert |Operation(action).value| < |action|;
  }

  /** The two section names v0.1 writes, in this order. */
  const ContactInformation: Bytes := "Contact Information"
  const SequencesAndTags: Bytes := "Sequences and Tags"

  /** The sections of a v0.1 contact. */
  function Sections(contact: seq<Field<Scalar>>, sequencesAndTags: seq<Field<Scalar>>): seq<Group<Scalar>> {
    [Group(ContactInformation, contact), Group(SequencesAndTags, sequencesAndTags)]
  }

  /** The v0.1 contact document: the two fixed sections, values unescaped. */
  function AddContactXml(contact: seq<Field<Scalar>>, sequencesAndTags: seq<Field<Scalar>>): (r: Bytes)
    ensures r == BareContactOpen
               + GroupBlock(Group(ContactInformation, contact), Verbatim)
               + GroupBlock(Group(SequencesAndTags, sequencesAndTags), Verbatim)
               + ContactClose
  {
    var gs := Sections(contact, sequencesAndTags);
    var a, b := GroupBlock(gs[0], Verbatim), GroupBlock(gs[1], Verbatim);
    assert GroupBlocks(gs[1..], Verbatim) == b + GroupBlocks(gs[1..][1..], Verbatim);
    assert GroupBlocks(gs, Verbatim) == a + b;
    ContactXml(None, gs, Verbatim)
  }

  /**
   `addContact` of v0.1: the document encoded twice and POSTed as `add`. The
   server recovers the document, and the `reqType` when no credential holds `&`.
   */
  function AddContact(c: Credentials, contact: seq<Field<Scalar>>, sequencesAndTags: seq<Field<Scalar>>): (r: Request)
    ensures r.url == EndpointUrl(ContactData) && r.httpMethod == "POST"
    ensures r.postFields == Some(PostData(c, "add", Wire.Encode(AddContactXml(contact, sequencesAndTags))))
    ensures NoAmpersand(c.appId) && NoAmpersand(c.key) ==> Wire.ReceivedReqType(r) == Some("add")
    ensures Wire.ReceivedXml(r) == Some(AddContactXml(contact, sequencesAndTags))
  {
    Client.ClientOpNames();
    Client.OpNameSafe("add");
    PostXml(c, "add", AddContactXml(contact, sequencesAndTags))
  }

  /** A document encoded twice and POSTed to the contact endpoint as `apiMethod`. */
  function PostXml(c: Credentials, apiMethod: Bytes, xml: Bytes): (r: Request)
    ensures r.url == EndpointUrl(ContactData) && r.httpMethod == "POST"
    ensures r.postFields == Some(PostData(c, apiMethod, Wire.Encode(xml)))
    ensures NoAmpersand(c.appId) && NoAmpersand(c.key) && FormSafe(apiMethod) ==> Wire.ReceivedReqType(r) == Some(apiMethod)
    ensures Wire.ReceivedXml(r) == Some(xml)
  {
    var r := SendRequest(c, apiMethod, "POST", Wire.Encode(xml));
    Wire.BodyDeliversXml(c, apiMethod, xml, r);
    Wire.BodyDeliversReqType(c, apiMethod, xml, r);
    r
  }

  /**
   The server reads a v0.1 contact back as `Contact Information` then
   `Sequences and Tags` exactly when field names hold no `"`, `<` or `&`
   and the raw values no `<` or `&`.
   */
  lemma AddContactReadBack(c: Credentials, contact: seq<Field<Scalar>>, sequencesAndTags: seq<Field<Scalar>>)
    ensures Readers.ReadContact(Wire.ReceivedXml(AddContact(c, contact, sequencesAndTags)).value)
         == Some(Readers.ContactDoc(None, Readers.TextGroups(Sections(contact, sequencesAndTags))))
        <==> Readers.ReadableFields(contact, Verbatim) && Readers.ReadableFields(sequencesAndTags, Verbatim)
  {
    SectionsReadable(contact, sequencesAndTags);
    Readers.ContactReadBack(None, Sections(contact, sequencesAndTags), Verbatim);
  }

  /** The two fixed sections are readable exactly when their fields are. */
  lemma SectionsReadable(contact: seq<Field<Scalar>>, sequencesAndTags: seq<Field<Scalar>>)
    ensures Readers.ReadableGroups(Sections(contact, sequencesAndTags), Verbatim)
        <==> Readers.ReadableFields(contact, Verbatim) && Readers.ReadableFields(sequencesAndTags, Verbatim)
  {
    SectionNamesSafe();
    var gs := Sections(contact, sequencesAndTags);
    assert Readers.ReadableGroups(gs, Verbatim) <==> Readers.ReadableGroup(gs[0], Verbatim) && Readers.ReadableGroup(gs[1], Verbatim);
  }

  /** The two section names hold nothing an attribute reader could misread. */
  lemma SectionNamesSafe()
    ensures Xml.AttributeSafe(ContactInformation) && Xml.AttributeSafe(SequencesAndTags)
  {
    WordsSafe(ContactInformation);
    WordsSafe(SequencesAndTags);
  }

  /** Letters and spaces only. */
  predicate Words(s: Bytes) {
    forall i :: 0 <= i < |s| ==> s[i] == ' ' || 'a' <= s[i] <= 'z' || 'A' <= s[i] <= 'Z'
  }

  lemma WordsSafe(s: Bytes)
    requires Words(s)
    ensures Xml.AttributeSafe(s)
  {
    assert forall i :: 0 <= i < |s| ==> s[i] != '"' && s[i] != '<' && s[i] != '&';
  }

  /**
   With values `htmlspecialchars` leaves alone, the v0.2 `addContact` given
   the two v0.1 sections sends exactly the request v0.1 sends.
   */
  lemma AddContactAgrees(c: Client.Client, contact: seq<Field<Scalar>>, sequencesAndTags: seq<Field<Scalar>>)
    requires PlainFields(contact, c.quotes) && PlainFields(sequencesAndTags, c.quotes)
    ensures Client.AddContact(c, Sections(contact, sequencesAndTags)) == AddContact(c.creds, contact, sequencesAndTags)
  {
    var gs := Sections(contact, sequencesAndTags);
    assert PlainGroups(gs, c.quotes);
    ContactXmlPlain(None, gs, c.quotes);
    var op: Bytes := "add";
    Client.ContactsRoute(op);
  }
}
