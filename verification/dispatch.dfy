/**
 `sendRequest` of the v0.2 client (src/Ontraport.php): how an action name
 picks the endpoint and the `reqType`, and how the form body is written.
 The cURL call itself is not modelled: the result is the request handed to
 the transport.
 */
module Dispatch {
  import opened Wrappers
  import opened Php
  import opened Scan

  /** The three data endpoints of the API. */
  datatype Endpoint = ContactData | FormData | ProductData

  function EndpointUrl(e: Endpoint): Bytes {
    match e
    case ContactData => "https://api.ontraport.com/cdata.php"
    case FormData => "https://api.ontraport.com/fdata.php"
    case ProductData => "https://api.ontraport.com/pdata.php"
  }

  /** The application id and key given to the constructor. */
  datatype Credentials = Credentials(appId: Bytes, key: Bytes)

  /**
   What is handed to the transport: URL, HTTP method and, when a body is
   attached, the POST fields and the `Content-Length` header's value.
   */
  datatype Request = Request(url: Bytes, httpMethod: Bytes, postFields: Option<Bytes>, contentLength: Option<nat>)

  /** The resource family named by an action: its text before the first `_`, lower-cased. */
  function Family(action: Bytes): Bytes {
    Lower(Explode2(action, '_').0)
  }

  /** The operation named by an action: its text after the first `_`, lower-cased, if any. */
  function Operation(action: Bytes): Option<Bytes> {
    match Explode2(action, '_').1
    case None => None
    case Some(op) => Some(Lower(op))
  }

  /** The `switch` on the family: `forms`, `products`, and everything else. */
  function EndpointFor(family: Bytes): (r: Endpoint)
    ensures r == FormData <==> family == "forms"
    ensures r == ProductData <==> family == "products"
    ensures r == ContactData <==> family != "forms" && family != "products"
  {
    if family == "forms" then FormData
    else if family == "products" then ProductData
    else ContactData
  }

  /**
   The endpoint and `reqType` of an action: the action is lower-cased and
   split once on `_`; the head picks the endpoint, the tail is the `reqType`,
   and an action without `_` is sent as `reqType` unchanged.
   */
  function Route(action: Bytes): (r: (Endpoint, Bytes))
    ensures r.0 == FormData <==> Family(action) == "forms"
    ensures r.0 == ProductData <==> Family(action) == "products"
    ensures Operation(action).Some? ==> r.1 == Operation(action).value
    ensures Operation(action).None? ==> r.1 == action
  {
    var apiMethod := Explode2(Lower(action), '_');
    LowerThenExplode(action);
    var reqType := if apiMethod.1.Some? then apiMethod.1.value else action;
    (EndpointFor(apiMethod.0), reqType)
  }

  /** Lower-casing and then splitting on `_` is splitting and then lower-casing both parts. */
  lemma LowerThenExplode(action: Bytes)
    ensures Explode2(Lower(action), '_').0 == Family(action)
    ensures Explode2(Lower(action), '_').1 == Operation(action)
  {
    var p := Explode2(action, '_');
    LowerKeepsNoUnderscore(p.0);
    if p.1.Some? {
      LowerAppend(p.0 + ['_'], p.1.value);
      LowerAppend(p.0, ['_']);
      Explode2AtFirst(Lower(p.0), '_', Lower(p.1.value));
    }
  }

  /** `strtolower` neither creates nor removes an underscore. */
  lemma LowerKeepsNoUnderscore(s: Bytes)
    requires '_' !in s
    ensures '_' !in Lower(s)
  {
    forall i | 0 <= i < |s|
      ensures Lower(s)[i] != '_'
    {
      assert s[i] != '_';
    }
  }

  /** The endpoint depends on nothing but the family of the action. */
  lemma EndpointDependsOnlyOnFamily(a1: Bytes, a2: Bytes)
    requires Family(a1) == Family(a2)
    ensures Route(a1).0 == Route(a2).0
  {
  }

  /** The form body of `sendRequest`, fields in their fixed order. */
  function PostData(c: Credentials, reqType: Bytes, data: Bytes): (r: Bytes)
    ensures |r| == |c.appId| + |c.key| + |reqType| + |data| + 38
    ensures !EmptyString(r)
  {
    var postdata := "appid=" + c.appId + "&key=" + c.key + "&return_id=1";
    var postdata := postdata + "&reqType=" + reqType;
    postdata + "&data=" + data
  }

  /**
   A request for `action`: the URL of its endpoint, the given HTTP method
   and the form body, which is attached whenever PHP does not consider it
   `empty` (and it never is).
   */
  function SendRequest(c: Credentials, action: Bytes, httpMethod: Bytes, data: Bytes): (r: Request)
    ensures r.url == EndpointUrl(Route(action).0)
    ensures r.httpMethod == httpMethod
    ensures r.postFields == Some(PostData(c, Route(action).1, data))
    ensures r.contentLength == Some(|PostData(c, Route(action).1, data)|)
  {
    var route := Route(action);
    var postdata := PostData(c, route.1, data);
    Attach(EndpointUrl(route.0), httpMethod, postdata)
  }

  /**
   The cURL options set for a request: the body and its length are attached
   unless PHP considers the body `empty`.
   */
  function Attach(url: Bytes, httpMethod: Bytes, postdata: Bytes): (r: Request)
    ensures r.url == url && r.httpMethod == httpMethod
    ensures r.postFields.Some? <==> !EmptyString(postdata)
    ensures r.postFields.Some? ==> r.postFields.value == postdata && r.contentLength == Some(|postdata|)
    ensures r.postFields.None? ==> r.contentLength.None?
  {
    if EmptyString(postdata) then Request(url, httpMethod, None, None)
    else Request(url, httpMethod, Some(postdata), Some(|postdata|))
  }

  /** The five fields of the body, each as `name=value`. */
  function FormFields(c: Credentials, reqType: Bytes, data: Bytes): seq<Bytes> {
    ["appid=" + c.appId, "key=" + c.key, "return_id=1", "reqType=" + reqType, "data=" + data]
  }

  predicate NoAmpersand(s: Bytes) {
    '&' !in s
  }

  /** A field value the server's form parser gives back as sent: nothing splits it, nothing decodes. */
  predicate FormSafe(s: Bytes) {
    NoAmpersand(s) && '+' !in s && '%' !in s
  }

  /**
   When no value contains `&`, splitting the body on `&` gives back the
   five fields, in order.
   */
  lemma PostDataFields(c: Credentials, reqType: Bytes, data: Bytes)
    requires NoAmpersand(c.appId) && NoAmpersand(c.key) && NoAmpersand(reqType) && NoAmpersand(data)
    ensures Split(PostData(c, reqType, data), '&') == FormFields(c, reqType, data)
  {
    JoinFormFields(c, reqType, data);
    SplitJoin(FormFields(c, reqType, data), '&');
  }

  /** The body is the five fields joined by `&`. */
  lemma JoinFormFields(c: Credentials, reqType: Bytes, data: Bytes)
    ensures Join(FormFields(c, reqType, data), '&') == PostData(c, reqType, data)
  {
    var f := FormFields(c, reqType, data);
    JoinOfFive(f[0], f[1], f[2], f[3], f[4], '&');
    var s1 := "appid=" + c.appId;
    var s2 := s1 + "&key=" + c.key;
    SeparatedField(s1, "&key=", '&', "key=", c.key);
    var t2 := s1 + ['&'] + f[1];
    SeparatedField(t2, "&return_id=1", '&', "return_id=1", []);
    var t3 := t2 + ['&'] + f[2];
    assert s2 + "&return_id=1" == t3 by {
      assert t2 + "&return_id=1" + [] == t2 + "&return_id=1";
      assert f[2] + [] == f[2];
    }
    SeparatedField(t3, "&reqType=", '&', "reqType=", reqType);
    var t4 := t3 + ['&'] + f[3];
    SeparatedField(t4, "&data=", '&', "data=", data);
  }

  /** A separator glued to a field name, then the value: the separator, then the field. */
  lemma SeparatedField(head: Bytes, lit: Bytes, sep: Byte, name: Bytes, value: Bytes)
    requires lit == [sep] + name
    ensures head + lit + value == head + [sep] + (name + value)
  {
    AppendAssoc(head, lit, value);
    AppendAssoc([sep], name, value);
    AppendAssoc(head, [sep], name + value);
  }

  lemma JoinOfFive(a: Bytes, b: Bytes, c: Bytes, d: Bytes, e: Bytes, sep: Byte)
    ensures Join([a, b, c, d, e], sep) == a + [sep] + b + [sep] + c + [sep] + d + [sep] + e
  {
    assert [a, b, c, d, e][1..] == [b, c, d, e];
    assert [b, c, d, e][1..] == [c, d, e];
    assert [c, d, e][1..] == [d, e];
    assert [d, e][1..] == [e];
    assert Join([d, e], sep) == d + [sep] + e;
    assert Join([c, d, e], sep) == c + [sep] + (d + [sep] + e);
    assert Join([b, c, d, e], sep) == b + [sep] + (c + [sep] + (d + [sep] + e));
    assert Join([a, b, c, d, e], sep) == a + [sep] + (b + [sep] + (c + [sep] + (d + [sep] + e)));
  }

  /** What a server reading the form sees as the `data` value: the last field, after `data=`. */
  function DataValue(body: Bytes): Option<Bytes> {
    var last := LastSegment(body, '&');
    if StartsWith(last, "data=") then Some(last[5..]) else None
  }

  /**
   Whatever the credentials and the `reqType`, a `data` value without `&`
   is read back exactly.
   */
  lemma PostDataCarriesData(c: Credentials, reqType: Bytes, data: Bytes)
    requires NoAmpersand(data)
    ensures DataValue(PostData(c, reqType, data)) == Some(data)
  {
    var head := "appid=" + c.appId + "&key=" + c.key + "&return_id=1" + "&reqType=" + reqType;
    var field: Bytes := "&data=";
    var name: Bytes := "data=";
    assert field == ['&'] + name;
    AppendAssoc(head, field, data);
    AppendAssoc(['&'], name, data);
    AppendAssoc(head, ['&'], name + data);
    LastSegmentAfter(head, '&', name + data);
    PrefixDrop(name, data);
  }

  /**
   An action written as a family, `_` and an operation, neither with an
   upper-case letter, goes to that family's endpoint with the operation as
   `reqType`.
   */
  lemma RouteOfLowerCaseAction(family: Bytes, op: Bytes)
    requires '_' !in family
    requires LowerCase(family) && LowerCase(op)
    ensures Route(family + "_" + op) == (EndpointFor(family), op)
  {
    Explode2AtFirst(family, '_', op);
    LowerOfLowerCase(family);
    LowerOfLowerCase(op);
  }

  /** An action without `_` is its own `reqType`, and its endpoint is chosen by the whole lower-cased name. */
  lemma RouteOfPlainAction(action: Bytes)
    requires '_' !in action
    ensures Route(action) == (EndpointFor(Lower(action)), action)
  {
  }

  /** The `reqType` a server reading the form finds: the fourth of five fields, after `reqType=`. */
  function ReqTypeField(body: Bytes): Option<Bytes> {
    var fields := Split(body, '&');
    if |fields| == 5 && StartsWith(fields[3], "reqType=") then Some(fields[3][8..]) else None
  }

  /** When no field value contains `&`, the server reads back the `reqType` that was sent. */
  lemma PostDataCarriesReqType(c: Credentials, reqType: Bytes, data: Bytes)
    requires NoAmpersand(c.appId) && NoAmpersand(c.key) && NoAmpersand(reqType) && NoAmpersand(data)
    ensures ReqTypeField(PostData(c, reqType, data)) == Some(reqType)
  {
    PostDataFields(c, reqType, data);
    StartsWithAppend("reqType=", reqType);
    assert ("reqType=" + reqType)[8..] == reqType;
  }

  /** The `data` value a server reads never contains `&`. */
  lemma DataValueHasNoAmpersand(body: Bytes)
    ensures DataValue(body).Some? ==> NoAmpersand(DataValue(body).value)
  {
    var last := LastSegment(body, '&');
    if StartsWith(last, "data=") {
      assert forall i :: 5 <= i < |last| ==> last[5..][i - 5] == last[i];
    }
  }

  /** A `data` value holding `&` is cut: what the server finds, if anything, is shorter than what was sent. */
  lemma DataValueCut(c: Credentials, reqType: Bytes, data: Bytes)
    requires '&' in data
    ensures DataValue(PostData(c, reqType, data)).None? || |DataValue(PostData(c, reqType, data)).value| < |data|
  {
    var body := PostData(c, reqType, data);
    var head := "appid=" + c.appId + "&key=" + c.key + "&return_id=1" + "&reqType=" + reqType + "&data=";
    assert body == head + data;
    assert EndsWith(body, data) by {
      assert body[|body| - |data|..] == data;
    }
    SuffixWithout(body, LastSegment(body, '&'), data, '&');
  }
}
