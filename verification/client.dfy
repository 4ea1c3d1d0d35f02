/**
 The public operations of the v0.2 client (src/Ontraport.php). Each one
 builds its payload, encodes it and hands a request to the transport; the
 model returns that request, and the lemmas say what a server reading it
 gets back.
 */
module Client {
  import opened Wrappers
  import opened Php
  import Html
  import opened Payloads
  import opened Dispatch
  import Url
  import Xml
  import Wire
  import Readers

  /**
   A client object: the credentials given to the constructor, and the quote
   style `htmlspecialchars` uses by default on the PHP runtime it runs on
   (double quotes only before PHP 8.1, single quotes too since).
   */
  datatype Client = Client(creds: Credentials, quotes: Html.QuoteStyle)

  /** Credentials the server can split out of the form body. */
  predicate Clean(c: Client) {
    NoAmpersand(c.creds.appId) && NoAmpersand(c.creds.key)
  }

  /** How contact field values and product and purchase search values are written. */
  function Escaped(c: Client): Escaping {
    Entities(c.quotes)
  }

  /**
   Every XML operation: the payload is encoded twice and POSTed under
   `action`. The server recovers the payload exactly, and the `reqType`
   too when no credential contains `&` and the `reqType` survives the form.
   */
  function PostXml(c: Client, action: Bytes, xml: Bytes): (r: Request)
    ensures r.url == EndpointUrl(Route(action).0) && r.httpMethod == "POST"
    ensures r.postFields == Some(PostData(c.creds, Route(action).1, Wire.Encode(xml)))
    ensures Wire.ReceivedXml(r) == Some(xml)
    ensures Clean(c) && FormSafe(Route(action).1) ==> Wire.ReceivedReqType(r) == Some(Route(action).1)
  {
    var r := SendRequest(c.creds, action, "POST", Wire.Encode(xml));
    Wire.BodyDeliversXml(c.creds, Route(action).1, xml, r);
    Wire.BodyDeliversReqType(c.creds, Route(action).1, xml, r);
    r
  }

  /** A request whose `data` is sent as it is, POSTed under `action`. */
  function PostRaw(c: Client, action: Bytes, data: Bytes): (r: Request)
    ensures r.url == EndpointUrl(Route(action).0) && r.httpMethod == "POST"
    ensures r.postFields == Some(PostData(c.creds, Route(action).1, data))
  {
    SendRequest(c.creds, action, "POST", data)
  }

  /** `contacts_<op>` goes to the contact endpoint with `op` as `reqType`. */
  lemma ContactsRoute(op: Bytes)
    requires LowerCase(op)
    ensures Route("contacts_" + op) == (ContactData, op)
  {
    var family: Bytes := "contacts";
    assert family + "_" + op == "contacts_" + op;
    RouteOfLowerCaseAction(family, op);
  }

  /** `products_<op>` goes to the product endpoint with `op` as `reqType`. */
  lemma ProductsRoute(op: Bytes)
    requires LowerCase(op)
    ensures Route("products_" + op) == (ProductData, op)
  {
    var family: Bytes := "products";
    assert family + "_" + op == "products_" + op;
    RouteOfLowerCaseAction(family, op);
  }

  /** The operation names the client uses: lower-case letters and `_`. */
  predicate OpName(op: Bytes) {
    forall i :: 0 <= i < |op| ==> 'a' <= op[i] <= 'z' || op[i] == '_'
  }

  /** Such a name is kept by `strtolower` and passes the form parser untouched. */
  lemma OpNameSafe(op: Bytes)
    requires OpName(op)
    ensures LowerCase(op) && FormSafe(op)
  {
    assert forall i :: 0 <= i < |op| ==> op[i] != '&' && op[i] != '+' && op[i] != '%' && !IsUpper(op[i]);
  }

  /** The names the operations below post under are all such names. */
  lemma ClientOpNames()
    ensures OpName("add") && OpName("update") && OpName("fetch")
    ensures OpName("search") && OpName("sale") && OpName("search_purchase")
    ensures OpName("log_transaction")
  {
  }

  /** Posting a payload to the contact endpoint under `contacts_<op>`. */
  function ContactsPost(c: Client, op: Bytes, xml: Bytes): (r: Request)
    requires OpName(op)
    ensures r.url == EndpointUrl(ContactData) && r.httpMethod == "POST"
    ensures r.postFields == Some(PostData(c.creds, op, Wire.Encode(xml)))
    ensures Clean(c) ==> Wire.ReceivedReqType(r) == Some(op)
    ensures Wire.ReceivedXml(r) == Some(xml)
  {
    OpNameSafe(op);
    ContactsRoute(op);
    PostXml(c, "contacts_" + op, xml)
  }

  /** Posting a payload to the product endpoint under `products_<op>`. */
  function ProductsPost(c: Client, op: Bytes, xml: Bytes): (r: Request)
    requires OpName(op)
    ensures r.url == EndpointUrl(ProductData) && r.httpMethod == "POST"
    ensures r.postFields == Some(PostData(c.creds, op, Wire.Encode(xml)))
    ensures Clean(c) ==> Wire.ReceivedReqType(r) == Some(op)
    ensures Wire.ReceivedXml(r) == Some(xml)
  {
    OpNameSafe(op);
    ProductsRoute(op);
    PostXml(c, "products_" + op, xml)
  }

  /** Sending `data` as it is to the product endpoint under `products_<op>`. */
  function ProductsSend(c: Client, op: Bytes, data: Bytes): (r: Request)
    requires LowerCase(op)
    ensures r.url == EndpointUrl(ProductData) && r.httpMethod == "POST"
    ensures r.postFields == Some(PostData(c.creds, op, data))
  {
    ProductsRoute(op);
    PostRaw(c, "products_" + op, data)
  }

  // ---- contacts ----

  /** `addContact`: a contact document without id, values escaped, sent as `contacts_add`. */
  function AddContact(c: Client, sections: seq<Group<Scalar>>): (r: Request)
    ensures r.url == EndpointUrl(ContactData) && r.httpMethod == "POST"
    ensures r.postFields == Some(PostData(c.creds, "add", Wire.Encode(ContactXml(None, sections, Escaped(c)))))
    ensures Clean(c) ==> Wire.ReceivedReqType(r) == Some("add")
    ensures Wire.ReceivedXml(r) == Some(ContactXml(None, sections, Escaped(c)))
  {
    ClientOpNames();
    ContactsPost(c, "add", ContactXml(None, sections, Escaped(c)))
  }

  /** `updateContact`: the same document with the id in its opening tag, sent as `contacts_update`. */
  function UpdateContact(c: Client, id: Scalar, sections: seq<Group<Scalar>>): (r: Request)
    ensures r.url == EndpointUrl(ContactData) && r.httpMethod == "POST"
    ensures r.postFields == Some(PostData(c.creds, "update", Wire.Encode(ContactXml(Some(ToStr(id)), sections, Escaped(c)))))
    ensures Clean(c) ==> Wire.ReceivedReqType(r) == Some("update")
    ensures Wire.ReceivedXml(r) == Some(ContactXml(Some(ToStr(id)), sections, Escaped(c)))
  {
    ClientOpNames();
    ContactsPost(c, "update", ContactXml(Some(ToStr(id)), sections, Escaped(c)))
  }

  /** `getContact`: nothing is sent for a falsy id; otherwise one `contact_id` line, as `contacts_fetch`. */
  function GetContact(c: Client, id: Scalar): (r: Option<Request>)
    ensures r.Some? <==> Truthy(id)
    ensures r.Some? <==> !EmptyString(ToStr(id))
    ensures r.Some? ==> r.value.url == EndpointUrl(ContactData) && r.value.httpMethod == "POST"
    ensures r.Some? ==> r.value.postFields == Some(PostData(c.creds, "fetch", Wire.Encode(IdLine(id))))
    ensures r.Some? && Clean(c) ==> Wire.ReceivedReqType(r.value) == Some("fetch")
    ensures r.Some? ==> Wire.ReceivedXml(r.value) == Some(IdLine(id))
  {
    ClientOpNames();
    TruthyIffStringNotEmpty(id);
    if Truthy(id) then Some(ContactsPost(c, "fetch", IdLine(id))) else None
  }

  /** `getContacts`: nothing is sent for an empty list; otherwise one line per id, as `contacts_fetch`. */
  function GetContacts(c: Client, ids: seq<Scalar>): (r: Option<Request>)
    ensures r.Some? <==> |ids| > 0
    ensures r.Some? ==> r.value.url == EndpointUrl(ContactData) && r.value.httpMethod == "POST"
    ensures r.Some? ==> r.value.postFields == Some(PostData(c.creds, "fetch", Wire.Encode(IdLines(ids))))
    ensures r.Some? && Clean(c) ==> Wire.ReceivedReqType(r.value) == Some("fetch")
    ensures r.Some? ==> Wire.ReceivedXml(r.value) == Some(IdLines(ids))
  {
    ClientOpNames();
    if |ids| > 0 then Some(ContactsPost(c, "fetch", IdLines(ids))) else None
  }

  /** `searchContacts`: the search document with values written raw, as `contacts_search`. */
  function SearchContacts(c: Client, equations: seq<Equation>): (r: Request)
    ensures r.url == EndpointUrl(ContactData) && r.httpMethod == "POST"
    ensures r.postFields == Some(PostData(c.creds, "search", Wire.Encode(SearchXml(equations, Verbatim))))
    ensures Clean(c) ==> Wire.ReceivedReqType(r) == Some("search")
    ensures Wire.ReceivedXml(r) == Some(SearchXml(equations, Verbatim))
  {
    ClientOpNames();
    ContactsPost(c, "search", SearchXml(equations, Verbatim))
  }

  // ---- products ----

  /** `saleProduct`: the purchase document, values raw, as `products_sale`. */
  function SaleProduct(c: Client, contactId: Scalar, productId: Scalar, optionalFields: seq<Field<Scalar>>): (r: Request)
    ensures r.url == EndpointUrl(ProductData) && r.httpMethod == "POST"
    ensures r.postFields == Some(PostData(c.creds, "sale", Wire.Encode(SaleXml(contactId, productId, optionalFields))))
    ensures Clean(c) ==> Wire.ReceivedReqType(r) == Some("sale")
    ensures Wire.ReceivedXml(r) == Some(SaleXml(contactId, productId, optionalFields))
  {
    ClientOpNames();
    ProductsPost(c, "sale", SaleXml(contactId, productId, optionalFields))
  }

  /** `searchProducts`: the search document with values escaped, as `products_search`. */
  function SearchProducts(c: Client, equations: seq<Equation>): (r: Request)
    ensures r.url == EndpointUrl(ProductData) && r.httpMethod == "POST"
    ensures r.postFields == Some(PostData(c.creds, "search", Wire.Encode(SearchXml(equations, Escaped(c)))))
    ensures Clean(c) ==> Wire.ReceivedReqType(r) == Some("search")
    ensures Wire.ReceivedXml(r) == Some(SearchXml(equations, Escaped(c)))
  {
    ClientOpNames();
    ProductsPost(c, "search", SearchXml(equations, Escaped(c)))
  }

  /**
   `searchPurchases`: the same document as `searchProducts`, as
   `products_search_purchase`; only the first `_` splits the action.
   */
  function SearchPurchases(c: Client, equations: seq<Equation>): (r: Request)
    ensures r.url == EndpointUrl(ProductData) && r.httpMethod == "POST"
    ensures r.postFields == Some(PostData(c.creds, "search_purchase", Wire.Encode(SearchXml(equations, Escaped(c)))))
    ensures Clean(c) ==> Wire.ReceivedReqType(r) == Some("search_purchase")
    ensures Wire.ReceivedXml(r) == Some(SearchXml(equations, Escaped(c)))
  {
    ClientOpNames();
    ProductsPost(c, "search_purchase", SearchXml(equations, Escaped(c)))
  }

  /**
   A purchase search sends the document of a product search; only the
   `reqType` tells the server which of the two was asked for.
   */
  lemma SearchPurchasesLikeProducts(c: Client, equations: seq<Equation>)
    ensures Wire.ReceivedXml(SearchPurchases(c, equations)) == Wire.ReceivedXml(SearchProducts(c, equations))
    ensures SearchPurchases(c, equations).postFields != SearchProducts(c, equations).postFields
  {
    ClientOpNames();
    var xml := Wire.Encode(SearchXml(equations, Escaped(c)));
    assert |PostData(c.creds, "search_purchase", xml)| != |PostData(c.creds, "search", xml)|;
  }

  /** The array `logTransaction` hands to `json_encode`. */
  datatype Transaction<P> = Transaction(contactId: Scalar, date: Scalar, products: P)

  /** `$date`, or the current time when it is null: the logged date is never null. */
  function TransactionDate(date: Scalar, now: int): (r: Scalar)
    ensures IsSet(r)
    ensures IsSet(date) ==> r == date
    ensures !IsSet(date) ==> r == Int(now)
  {
    if date.Null? then Int(now) else date
  }

  /**
   `logTransaction`: the transaction is JSON-encoded by `jsonEncode` (a
   parameter, like the clock `now`) and sent as `data` without any URL
   encoding, as `products_log_transaction`.
   */
  function LogTransaction<P>(c: Client, contactId: Scalar, products: P, date: Scalar, now: int,
                             jsonEncode: Transaction<P> -> Bytes): (r: Request)
    ensures r.url == EndpointUrl(ProductData) && r.httpMethod == "POST"
    ensures r.postFields == Some(PostData(c.creds, "log_transaction",
                                          jsonEncode(Transaction(contactId, TransactionDate(date, now), products))))
  {
    var data := Transaction(contactId, TransactionDate(date, now), products);
    ProductsSend(c, "log_transaction", jsonEncode(data))
  }

  // ---- what the server reads back ----

  /** Section and field names that can stand raw in their attributes: escaping reaches only values. */
  predicate SafeNames(sections: seq<Group<Scalar>>) {
    forall i :: 0 <= i < |sections| ==> Xml.AttributeSafe(sections[i].tag) && SafeFieldNames(sections[i].fields)
  }

  predicate SafeFieldNames(fields: seq<Field<Scalar>>) {
    forall j :: 0 <= j < |fields| ==> Xml.AttributeSafe(fields[j].name)
  }

  /** With escaped values, the sections are readable exactly when their names are safe. */
  lemma SafeNamesReadable(sections: seq<Group<Scalar>>, q: Html.QuoteStyle)
    ensures Readers.ReadableGroups(sections, Entities(q)) <==> SafeNames(sections)
  {
    if SafeNames(sections) {
      forall i | 0 <= i < |sections|
        ensures Readers.ReadableGroup(sections[i], Entities(q))
      {
        assert SafeFieldNames(sections[i].fields);
      }
    } else {
      var i :| 0 <= i < |sections| && !(Xml.AttributeSafe(sections[i].tag) && SafeFieldNames(sections[i].fields));
      if Xml.AttributeSafe(sections[i].tag) {
        var j :| 0 <= j < |sections[i].fields| && !Xml.AttributeSafe(sections[i].fields[j].name);
        assert !Readers.ReadableField(sections[i].fields[j], Entities(q));
      }
      assert !Readers.ReadableGroup(sections[i], Entities(q));
    }
  }

  /**
   The server reads an added contact back as its sections, every value as
   the text PHP wrote for it, exactly when section and field names hold no
   `"`, `<` or `&`; the values may hold anything.
   */
  lemma AddContactReadBack(c: Client, sections: seq<Group<Scalar>>)
    ensures Readers.ReadContact(Wire.ReceivedXml(AddContact(c, sections)).value)
         == Some(Readers.ContactDoc(None, Readers.TextGroups(sections)))
        <==> SafeNames(sections)
  {
    SafeNamesReadable(sections, c.quotes);
    Readers.ContactReadBack(None, sections, Escaped(c));
  }

  /** The same for an update, which also carries the id, raw, in an attribute. */
  lemma UpdateContactReadBack(c: Client, id: Scalar, sections: seq<Group<Scalar>>)
    ensures Readers.ReadContact(Wire.ReceivedXml(UpdateContact(c, id, sections)).value)
         == Some(Readers.ContactDoc(Some(ToStr(id)), Readers.TextGroups(sections)))
        <==> Xml.AttributeSafe(ToStr(id)) && SafeNames(sections)
  {
    SafeNamesReadable(sections, c.quotes);
    Readers.ContactReadBack(Some(ToStr(id)), sections, Escaped(c));
  }

  /** A fetch of several contacts is read back as the ids' texts, in order, exactly when none holds `<` or `&`. */
  lemma GetContactsReadBack(c: Client, ids: seq<Scalar>)
    requires |ids| > 0
    ensures Readers.ReadIds(Wire.ReceivedXml(GetContacts(c, ids).value).value) == Some(Readers.IdTexts(ids))
        <==> Readers.ReadableIds(ids)
  {
    assert Wire.ReceivedXml(GetContacts(c, ids).value).value == IdLines(ids);
    Readers.IdsReadBack(ids);
  }

  /** Fetching one truthy id sends exactly what fetching the list of that one id sends. */
  lemma GetContactIsFetchOfOne(c: Client, id: Scalar)
    requires Truthy(id)
    ensures GetContact(c, id) == GetContacts(c, [id])
  {
    assert [id][1..] == [];
    assert IdLines([id]) == IdLine(id) + [];
    assert IdLine(id) + [] == IdLine(id);
  }

  /**
   A contact search is read back as its complete equations' conditions, in
   order, exactly when no field, operator or value holds `<` or `&`.
   */
  lemma SearchContactsReadBack(c: Client, equations: seq<Equation>)
    ensures Readers.ReadSearch(Wire.ReceivedXml(SearchContacts(c, equations)).value) == Some(Readers.Conditions(equations))
        <==> Readers.ReadableEquations(equations, Verbatim)
  {
    Readers.SearchReadBack(equations, Verbatim);
  }

  /**
   Contact search values go out unescaped: a complete equation whose value
   holds `<` or `&` keeps the server from reading the search back.
   */
  lemma SearchContactsMarkedValueLost(c: Client, equations: seq<Equation>, j: nat)
    requires j < |equations| && Complete(equations[j]) && !Xml.Unmarked(ToStr(equations[j].value.value))
    ensures Readers.ReadSearch(Wire.ReceivedXml(SearchContacts(c, equations)).value) != Some(Readers.Conditions(equations))
  {
    assert !Readers.ReadableEquation(equations[j], Verbatim);
    Readers.SearchLost(equations, Verbatim);
  }

  /** Fields and operators without `<` or `&`: the part of an equation escaping does not protect. */
  predicate PlainKeys(equations: seq<Equation>) {
    forall i :: 0 <= i < |equations| ==> PlainKey(equations[i])
  }

  predicate PlainKey(eq: Equation) {
    Complete(eq) ==> Xml.Unmarked(ToStr(eq.field.value)) && Xml.Unmarked(ToStr(eq.op.value))
  }

  /**
   Product and purchase searches escape their values, so they are read back
   exactly when fields and operators are plain, whatever the values hold.
   */
  lemma SearchProductsReadBack(c: Client, equations: seq<Equation>)
    ensures Readers.ReadSearch(Wire.ReceivedXml(SearchProducts(c, equations)).value) == Some(Readers.Conditions(equations))
        <==> PlainKeys(equations)
    ensures Readers.ReadSearch(Wire.ReceivedXml(SearchPurchases(c, equations)).value) == Some(Readers.Conditions(equations))
        <==> PlainKeys(equations)
  {
    assert Readers.ReadableEquations(equations, Escaped(c)) <==> PlainKeys(equations) by {
      assert forall i :: 0 <= i < |equations| ==> (Readers.ReadableEquation(equations[i], Escaped(c)) <==> PlainKey(equations[i]));
    }
    Readers.SearchReadBack(equations, Escaped(c));
  }

  /**
   The contact search writes values raw and the product search escapes
   them; for values escaping leaves alone, both send the same document.
   */
  lemma SearchesAgreeOnPlainValues(c: Client, equations: seq<Equation>)
    requires PlainValues(equations, c.quotes)
    ensures Wire.ReceivedXml(SearchContacts(c, equations)) == Wire.ReceivedXml(SearchProducts(c, equations))
  {
    SearchXmlPlain(equations, c.quotes);
  }

  /**
   A sale is read back as both ids and the optional fields exactly when the
   ids and field names hold no `"`, `<` or `&` and the raw values no `<` or `&`.
   */
  lemma SaleProductReadBack(c: Client, contactId: Scalar, productId: Scalar, optionalFields: seq<Field<Scalar>>)
    ensures Readers.ReadSale(Wire.ReceivedXml(SaleProduct(c, contactId, productId, optionalFields)).value)
         == Some(Readers.Sale(ToStr(contactId), ToStr(productId), Readers.TextFields(optionalFields)))
        <==> Readers.ReadableSaleIds(contactId, productId) && Readers.ReadableFields(optionalFields, Verbatim)
  {
    Readers.SaleReadBack(contactId, productId, optionalFields);
  }

  /** The purchase document the server receives never ends with a closing `</purchases>` tag. */
  lemma SaleProductUnclosed(c: Client, contactId: Scalar, productId: Scalar, optionalFields: seq<Field<Scalar>>)
    ensures !Readers.Closed(Wire.ReceivedXml(SaleProduct(c, contactId, productId, optionalFields)).value)
  {
    Readers.SaleNeverClosed(contactId, productId, optionalFields);
  }

  /** The JSON text `logTransaction` sends. */
  function TransactionJson<P>(contactId: Scalar, products: P, date: Scalar, now: int,
                              jsonEncode: Transaction<P> -> Bytes): Bytes {
    jsonEncode(Transaction(contactId, TransactionDate(date, now), products))
  }

  /**
   The logged transaction reaches the server intact exactly when its JSON
   holds no `&` and nothing the form parser decodes: the text is not
   URL-encoded. The `reqType` arrives whenever the JSON holds no `&`.
   */
  lemma LogTransactionDelivered<P>(c: Client, contactId: Scalar, products: P, date: Scalar, now: int,
                                   jsonEncode: Transaction<P> -> Bytes)
    ensures Wire.ReceivedData(LogTransaction(c, contactId, products, date, now, jsonEncode))
         == Some(TransactionJson(contactId, products, date, now, jsonEncode))
        <==> NoAmpersand(TransactionJson(contactId, products, date, now, jsonEncode))
             && Url.Inert(TransactionJson(contactId, products, date, now, jsonEncode))
    ensures Clean(c) && NoAmpersand(TransactionJson(contactId, products, date, now, jsonEncode)) ==>
              Wire.ReceivedReqType(LogTransaction(c, contactId, products, date, now, jsonEncode)) == Some("log_transaction")
  {
    var json := TransactionJson(contactId, products, date, now, jsonEncode);
    var r := LogTransaction(c, contactId, products, date, now, jsonEncode);
    ClientOpNames();
    OpNameSafe("log_transaction");
    Wire.BodyDeliversRawData(c.creds, "log_transaction", json, r);
    Wire.RawBodyDeliversReqType(c.creds, "log_transaction", json, r);
  }

}
