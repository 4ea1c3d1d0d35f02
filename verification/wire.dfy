/**
 How an XML payload travels: the client encodes it twice with `urlencode`
 and sends it as the `data` field of the form body; the server's form
 parser takes that field and decodes it once, and the server decodes the
 result once more.
 */
module Wire {
  import opened Wrappers
  import opened Php
  import Url
  import opened Dispatch

  /** `urlencode(urlencode($xml))`. */
  function Encode(xml: Bytes): Bytes {
    Url.Encode(Url.Encode(xml))
  }

  /**
   What the server finds as the `data` field of the form body, if a body
   was sent: the last field after `data=`, decoded once by the form parser.
   */
  function ReceivedData(r: Request): Option<Bytes> {
    match r.postFields
    case None => None
    case Some(body) =>
      match DataValue(body)
      case None => None
      case Some(d) => Some(Url.Decode(d))
  }

  /** The payload the server recovers by decoding the `data` field once more. */
  function ReceivedXml(r: Request): Option<Bytes> {
    match ReceivedData(r)
    case None => None
    case Some(d) => Some(Url.Decode(d))
  }

  /** The `reqType` the server finds, decoded by the form parser, if a body was sent. */
  function ReceivedReqType(r: Request): Option<Bytes> {
    match r.postFields
    case None => None
    case Some(body) =>
      match ReqTypeField(body)
      case None => None
      case Some(t) => Some(Url.Decode(t))
  }

  /** The twice-encoded payload never contains `&`, so it is always the whole `data` field. */
  lemma EncodedPayloadIsData(c: Credentials, reqType: Bytes, xml: Bytes)
    ensures NoAmpersand(Encode(xml))
    ensures DataValue(PostData(c, reqType, Encode(xml))) == Some(Encode(xml))
  {
    Url.EncodedHasNoSeparators(Url.Encode(xml));
    PostDataCarriesData(c, reqType, Encode(xml));
  }

  /**
   Whatever the credentials and the `reqType`, a body carrying a
   twice-encoded payload gives the payload back exactly.
   */
  lemma BodyDeliversXml(c: Credentials, reqType: Bytes, xml: Bytes, r: Request)
    requires r.postFields == Some(PostData(c, reqType, Encode(xml)))
    ensures ReceivedXml(r) == Some(xml)
  {
    EncodedPayloadIsData(c, reqType, xml);
    Url.DoubleRoundTrip(xml);
  }

  /**
   The `reqType` is read back when no credential contains `&` and the
   `reqType` holds no `&`, `+` or `%`.
   */
  lemma BodyDeliversReqType(c: Credentials, reqType: Bytes, xml: Bytes, r: Request)
    requires r.postFields == Some(PostData(c, reqType, Encode(xml)))
    ensures NoAmpersand(c.appId) && NoAmpersand(c.key) && FormSafe(reqType) ==> ReceivedReqType(r) == Some(reqType)
  {
    if NoAmpersand(c.appId) && NoAmpersand(c.key) && FormSafe(reqType) {
      EncodedPayloadIsData(c, reqType, xml);
      PostDataCarriesReqType(c, reqType, Encode(xml));
      Url.PlainDecodes(reqType);
    }
  }

  /**
   Data sent without encoding is read back as sent exactly when it holds no
   `&` and nothing the form parser decodes.
   */
  lemma BodyDeliversRawData(c: Credentials, reqType: Bytes, data: Bytes, r: Request)
    requires r.postFields == Some(PostData(c, reqType, data))
    ensures ReceivedData(r) == Some(data) <==> NoAmpersand(data) && Url.Inert(data)
  {
    if NoAmpersand(data) {
      PostDataCarriesData(c, reqType, data);
      Url.DecodeIdentityIff(data);
    } else {
      DataValueCut(c, reqType, data);
    }
  }

  /** Beside raw data holding no `&`, the `reqType` is read back under the same conditions as beside a payload. */
  lemma RawBodyDeliversReqType(c: Credentials, reqType: Bytes, data: Bytes, r: Request)
    requires r.postFields == Some(PostData(c, reqType, data))
    ensures NoAmpersand(c.appId) && NoAmpersand(c.key) && FormSafe(reqType) && NoAmpersand(data)
            ==> ReceivedReqType(r) == Some(reqType)
  {
    if NoAmpersand(c.appId) && NoAmpersand(c.key) && FormSafe(reqType) && NoAmpersand(data) {
      PostDataCarriesReqType(c, reqType, data);
      Url.PlainDecodes(reqType);
    }
  }
}
