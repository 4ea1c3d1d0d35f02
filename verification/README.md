# Ontraport API client: request construction, modelled in Dafny

This project models how the PHP Ontraport API client builds the requests it
sends. Two versions are covered:

- **v0.2, `src/Ontraport.php`.** `sendRequest` turns an action name such as
  `contacts_add` into one of three endpoint URLs and a `reqType`. It writes
  the form body `appid=…&key=…&return_id=1&reqType=…&data=…` and attaches it
  with its `Content-Length`.
- **v0.2 payload builders.** Eight public methods write XML payloads:
  `addContact`, `updateContact`, `getContact`, `getContacts`,
  `searchContacts`, `searchProducts`, `searchPurchases` and `saleProduct`.
  Each payload goes through `urlencode` twice before it is sent.
  `logTransaction` sends JSON instead.
- **v0.1, `ontraport.class.php`.** The legacy client always posts to the
  contact endpoint. It passes the action through as `reqType`, and its
  `addContact` writes two fixed sections with values left raw.

## Modelling choices

- **Byte strings.** A PHP string is a sequence of bytes (`Php.Bytes`). The
  values a caller puts in the arrays are null, booleans, integers or
  strings (`Php.Scalar`). They carry PHP's truthiness, `isset` and string
  conversion.
- **Ordered maps.** A PHP array used as an ordered map is a sequence of
  `Payloads.Field` entries. A section is a `Payloads.Group`. A search
  equation records, for each of `field`, `op` and `value`, whether the key
  is present and what it holds (`Payloads.Equation`).
- **Character mappings.** `strtolower` (`Php.Lower`), `explode` with limit 2
  (`Php.Explode2`), `htmlspecialchars` (`Html.Escape`) and
  `urlencode`/`urldecode` (`Url.Encode`/`Url.Decode`) are explicit
  byte-mapping functions.
- **Quote style.** `htmlspecialchars` escapes `'` only under the default
  flags of PHP 8.1 and later. The client record holds the style of the
  runtime it runs on (`Client.Client.quotes`).
- **No transport.** Nothing is sent. Each operation returns the
  `Dispatch.Request` it hands to the transport: URL, HTTP method, POST
  fields and `Content-Length`. `getContact` and `getContacts` return `None`
  where the source returns `false` without sending anything. The constructor
  (`src/Ontraport.php:48-55`) becomes the `Client.Client` record.
- **Server side.** `Wire`, `Xml` and `Readers` describe what a server
  reading the request recovers. `Wire` takes the `data` and `reqType` fields
  out of the form body and applies the form decoding (`urldecode`) to each.
  The XML payload is then decoded once more. `Xml.Text` decodes the five
  predefined entities and `&#039;`: `&amp;`, `&lt;`, `&gt;`, `&quot;`,
  `&apos;` and `&#039;` stand for one byte each, and a bare `<` or `&` makes
  the text unreadable. It does nothing else an XML parser does (see
  "## Left out"), so the read-back properties hold relative to this
  decoding. The readers also accept two documents a conforming parser
  refuses: the unclosed purchase document and the id list without a root
  element, because those are the only shapes the source writes. `Readers` parses the XML layouts back into sections,
  conditions, ids and sales, passing every name, id, tag and value through
  that one decoding. Most of the proved properties are round trips through
  these readers, each with its converse: where a raw value holds `<` or `&`,
  the payload is not read back as written.
- **Builder loops.** The source's string-growing loops are the methods in
  `Builders`. Each one is proved to build exactly the payload defined in
  `Payloads`.

### Behaviour of the code worth knowing

- **Unreachable `products` check.** `logTransaction` tests
  `!is_array($products)` (`src/Ontraport.php:333-335`). The parameter has
  an `array` type hint, so that branch cannot be reached and every call
  sends a request.
- **Falsy contact ids.** `getContact` tests PHP truthiness
  (`src/Ontraport.php:193`). Not only the empty string but also `"0"`, `0`,
  `false` and null are refused without a request (`Client.GetContact`).
- **Lower-cased `reqType`.** `sendRequest` lower-cases the whole action
  before splitting it on the first `_` (`src/Ontraport.php:68`). So when the
  action has a `_`, the `reqType` sent is the lower-cased text after it; an
  action without `_` is sent unchanged (`Dispatch.Route`).

## Model

| member | source | states |
|---|---|---|
| Php.ToStrFaithful | src/Ontraport.php:195 | the string form PHP writes for an integer reads back as that integer, and the string form is empty exactly for null, false and `""` |
| Php.TruthyIffStringNotEmpty | src/Ontraport.php:193 | a scalar is truthy exactly when its string form is not `empty` |
| Php.Lower | src/Ontraport.php:68 | `strtolower` keeps the length and maps each byte, so no upper-case letter remains |
| Php.Explode2 | src/Ontraport.php:68 | `explode('_', s, 2)`: the head never holds the separator, a tail exists exactly when the separator occurs, and head, separator and tail give back the input |
| Php.Explode2AtFirst | src/Ontraport.php:68 | when the text before a separator holds no separator, `explode` with limit 2 returns exactly that text as the head and everything after that separator as the tail |
| Php.IntToStringRoundTrip | src/Ontraport.php:195 | the decimal text PHP writes for an integer reads back as that integer |
| Url.Encode | src/Ontraport.php:179 | `urlencode` output holds only letters, digits, `-_.+%` and is never shorter than its input |
| Url.RoundTrip | src/Ontraport.php:179 | `urldecode(urlencode(s)) == s` for every byte string |
| Url.DoubleRoundTrip | src/Ontraport.php:179 | decoding a doubly encoded payload twice gives it back exactly |
| Url.EncodedHasNoSeparators | src/Ontraport.php:179 | encoded text never holds the form separators `&` and `=` |
| Url.DecodeIdentityIff | src/Ontraport.php:76 | `urldecode` leaves text unchanged exactly when it holds no `+` and no `%` followed by two hex digits |
| Html.Escape | src/Ontraport.php:172 | `htmlspecialchars` leaves no special byte unescaped except the `&` that starts an entity, never shortens, and changes nothing exactly when there is nothing to escape |
| Html.EscapeRoundTrip | src/Ontraport.php:172 | decoding the entities gives back the escaped text, under either quote style |
| Xml.Text | src/Ontraport.php:172 | text an XML reader accepts holds no `<`, and decoding never lengthens it |
| Xml.TextShortens | src/Ontraport.php:172 | text holding a reference decodes to something strictly shorter |
| Xml.EscapedText | src/Ontraport.php:172 | whatever `htmlspecialchars` writes is decoded back to the original text, under either quote style |
| Xml.TextIdentityIff | src/Ontraport.php:276-278 | raw text is decoded as itself exactly when it holds no `<` and no `&` |
| Dispatch.EndpointFor | src/Ontraport.php:79-91 | the family `forms` picks `fdata.php`, `products` picks `pdata.php`, and every other family, `contacts` included, picks `cdata.php` |
| Dispatch.Route | src/Ontraport.php:68-91 | the endpoint is forms or products exactly when the lower-cased text before the first `_` is `forms` or `products` (contacts otherwise); the `reqType` is the lower-cased text after the first `_`, or the action unchanged when it has no `_` |
| Dispatch.LowerThenExplode | src/Ontraport.php:68 | lower-casing then splitting equals splitting then lower-casing both parts |
| Dispatch.EndpointDependsOnlyOnFamily | src/Ontraport.php:79-91 | two actions with the same family go to the same endpoint |
| Dispatch.RouteOfLowerCaseAction | src/Ontraport.php:68-71 | an action `family_op` in lower case goes to the family's endpoint with `op` as `reqType` |
| Dispatch.RouteOfPlainAction | src/Ontraport.php:68-71 | an action without `_` is its own `reqType` |
| Dispatch.PostData | src/Ontraport.php:74-76 | the form body is as long as the four values plus the 38 bytes of field names and separators, so it is never PHP-`empty` |
| Dispatch.PostDataFields | src/Ontraport.php:74-76 | when no value holds `&`, splitting the body on `&` gives exactly the five fields `appid`, `key`, `return_id=1`, `reqType`, `data` in that order |
| Dispatch.PostDataCarriesData | src/Ontraport.php:76 | a `data` value without `&` is found whole in the body, whatever the credentials and `reqType` |
| Dispatch.DataValueCut | src/Ontraport.php:76 | a `data` value holding `&` is never found whole: the server finds no `data` field or a shorter one |
| Dispatch.PostDataCarriesReqType | src/Ontraport.php:75 | the `reqType` field is found as sent when no field value holds `&` |
| Dispatch.DataValueHasNoAmpersand | src/Ontraport.php:76 | the `data` value a server finds never holds `&` |
| Dispatch.Attach | src/Ontraport.php:117-124 | the body and its `Content-Length` are attached exactly when the body is not PHP-`empty` |
| Dispatch.SendRequest | src/Ontraport.php:65-124 | a request goes to the URL of its action's endpoint, with the caller's method, and always carries the form body with its exact length |
| Wire.EncodedPayloadIsData | src/Ontraport.php:179 | a twice-encoded payload has no `&`, so it is the whole `data` field |
| Wire.BodyDeliversXml | src/Ontraport.php:179-182 | after the form decoding and one more `urldecode`, the server has the exact payload, whatever the credentials and `reqType` |
| Wire.BodyDeliversReqType | src/Ontraport.php:182 | the `reqType` is read back when it holds no `&`, `+` or `%` and no credential holds `&` |
| Wire.BodyDeliversRawData | src/Ontraport.php:344-347 | a `data` value sent without encoding arrives unchanged exactly when it holds no `&`, no `+` and no `%` escape |
| Wire.RawBodyDeliversReqType | src/Ontraport.php:347 | beside an unencoded `data` value without `&`, the `reqType` is read back when it holds no `&`, `+` or `%` and no credential holds `&` |
| Payloads.ContactXmlLayout | src/Ontraport.php:168-176 | the contact document is its opening tag, one `Group_Tag` block per section in order, and `</contact>`; it is the two tags alone exactly when there are no sections |
| Payloads.IdLinesEmptyIff | src/Ontraport.php:215-221 | the id payload is empty exactly when there are no ids, and otherwise starts with `<contact_id>` |
| Payloads.EquationPieceEmptyIff | src/Ontraport.php:274-280 | an equation writes nothing exactly when one of `field`, `op`, `value` is missing or null |
| Payloads.EquationBlocksEmptyIff | src/Ontraport.php:273-281 | the equations write nothing exactly when none of them is complete |
| Payloads.SearchXmlEmptyIff | src/Ontraport.php:272-282 | a search is the two `search` tags alone exactly when no equation is complete |
| Payloads.FieldLinesEmptyIff | src/Ontraport.php:306-308 | field lines are empty exactly when there are no entries |
| Payloads.SaleXmlBareIff | src/Ontraport.php:305-308 | the purchase document is its opening tag alone exactly when there are no optional fields |
| Payloads.IncompleteEquationIgnored | src/Ontraport.php:274 | inserting an equation that lacks (or has null in) `field`, `op` or `value` anywhere leaves the search payload unchanged |
| Payloads.FieldLinesAppend | src/Ontraport.php:171-173 | the field lines of two runs of entries are the lines of each, in order |
| Payloads.GroupBlocksAppend | src/Ontraport.php:169-175 | the blocks of two runs of sections are the blocks of each, in order |
| Payloads.IdLinesAppend | src/Ontraport.php:218-220 | the id lines of two runs of ids are the lines of each, in order |
| Payloads.EquationBlocksAppend | src/Ontraport.php:273-281 | the equation blocks of two runs of equations are the blocks of each, in order |
| Payloads.RenderPlainIff | src/Ontraport.php:172 | escaping leaves a value's text as it is exactly when the value holds nothing `htmlspecialchars` escapes |
| Payloads.FieldLinesPlain | src/Ontraport.php:172 | field lines whose values escaping leaves alone are the same escaped or raw |
| Payloads.ContactXmlPlain | src/Ontraport.php:168-176 | a contact document with such values is the same escaped or raw |
| Payloads.SearchXmlPlain | src/Ontraport.php:278 | a search with such values is the same escaped or raw |
| Builders.AppendAll | src/Ontraport.php:169-175 | appending pieces one by one in a loop yields their concatenation in order |
| Builders.BuildContactXml | src/Ontraport.php:168-176 | the loop over sections builds exactly the contact document; the inner loop over a section's fields is the recursive `Payloads.FieldLines` |
| Builders.BuildIdLines | src/Ontraport.php:217-220 | the `getContacts` loop builds exactly one id line per id, in order |
| Builders.BuildSearchXml | src/Ontraport.php:272-282 | the search loop builds exactly the search document, skipping incomplete equations |
| Builders.BuildSaleXml | src/Ontraport.php:305-308 | the `saleProduct` loop builds exactly the purchase document |
| Readers.RenderedText | src/Ontraport.php:172 | what is written for a value holds no `<` and decodes to the value's text exactly when the value is escaped or its raw text holds no `<` and no `&` |
| Readers.ReadTextLost | src/Ontraport.php:170-172 | a name or value holding `<`, `&` or its closing delimiter is not read back as written |
| Readers.ReadFieldLinesRoundTrip | src/Ontraport.php:171-173 | field lines are read back as the names and value texts, in order, when names hold no `"`, `<` or `&` and values are legible |
| Readers.ReadFieldLinesLost | src/Ontraport.php:171-173 | otherwise the field lines are not read back as those names and texts |
| Readers.ReadGroupsRoundTrip | src/Ontraport.php:169-175 | `Group_Tag` blocks are read back as the sections, in order, when the section and field names and the values are readable |
| Readers.ReadGroupsLost | src/Ontraport.php:169-175 | otherwise the blocks are not read back as the sections |
| Readers.ReadContactOpenRoundTrip | src/Ontraport.php:244 | the opening tag is read back with the id it carries, if any, when the id holds no `"`, `<` or `&` |
| Readers.ReadContactOpenLost | src/Ontraport.php:244 | an id holding `"`, `<` or `&` is not read back as written |
| Readers.ContactReadBack | src/Ontraport.php:168-176 | a contact document is read back as its id and sections exactly when the id, section names and field names hold no `"`, `<` or `&` and every value is legible |
| Readers.ReadEquationRoundTrip | src/Ontraport.php:275-279 | one equation block is read back as its condition when field and operator hold no `<` or `&` and the value is legible |
| Readers.ReadEquationLost | src/Ontraport.php:275-279 | otherwise the block is not read back as that condition |
| Readers.SearchReadBack | src/Ontraport.php:272-282 | a search document is read back as the conditions of its complete equations, in order, exactly when each of them is readable |
| Readers.ConditionsInclude | src/Ontraport.php:274-280 | every complete equation contributes its condition to the search |
| Readers.IdsReadBack | src/Ontraport.php:217-220 | by a reader that accepts several root elements, the id lines are read back as the ids' texts, in order, exactly when no id holds `<` or `&` |
| Readers.ReadSaleOpenRoundTrip | src/Ontraport.php:305 | the opening `purchases` tag is read back as both ids when neither holds `"`, `<` or `&` |
| Readers.SaleReadBack | src/Ontraport.php:305-308 | by a reader that accepts the missing `</purchases>`, a purchase document is read back as both ids and the raw fields exactly when the ids and names hold no `"`, `<` or `&` and the raw values no `<` or `&` |
| Readers.SaleNeverClosed | src/Ontraport.php:305-308 | the purchase document never ends with `</purchases>` and a newline |
| Client.PostXml | src/Ontraport.php:179-182 | an XML operation goes to its action's endpoint by POST with the body carrying `urlencode(urlencode(xml))`; the server gets the payload back exactly, and the `reqType` when no credential holds `&` and the `reqType` holds no `&`, `+` or `%` |
| Client.OpNameSafe | src/Ontraport.php:182 | an operation name of lower-case letters and `_` is left alone by lower-casing and by the form decoding |
| Client.ContactsRoute | src/Ontraport.php:88-90 | `contacts_<op>` goes to `cdata.php` with `op` as `reqType` |
| Client.ProductsRoute | src/Ontraport.php:84-85 | `products_<op>` goes to `pdata.php` with `op` as `reqType` |
| Client.ContactsPost | src/Ontraport.php:88-90 | a payload posted under `contacts_<op>` goes to `cdata.php` in a body with `reqType` `op` and the payload encoded twice, and reaches the server intact |
| Client.ProductsPost | src/Ontraport.php:84-85 | a payload posted under `products_<op>` goes to `pdata.php` in a body with `reqType` `op` and the payload encoded twice, and reaches the server intact |
| Client.AddContact | src/Ontraport.php:164-183 | `addContact` reaches `cdata.php` by POST in a body that is exactly `appid`, `key`, `reqType=add` and `data=urlencode(urlencode(xml))` for the escaped contact document without id; the server decodes that document back exactly, and the `reqType` when no credential holds `&` |
| Client.UpdateContact | src/Ontraport.php:240-259 | `updateContact` reaches `cdata.php` by POST in a body that is exactly `appid`, `key`, `reqType=update` and `data=urlencode(urlencode(xml))` for the escaped contact document with the id in the opening tag; the server decodes that document back exactly, and the `reqType` when no credential holds `&` |
| Client.GetContact | src/Ontraport.php:191-205 | a request is made exactly when the id is truthy, that is when its string form is not `empty`; it then reaches `cdata.php` by POST in a body that is exactly `appid`, `key`, `reqType=fetch` and `data=urlencode(urlencode(xml))` for the one `contact_id` line; the server decodes that document back exactly, and the `reqType` when no credential holds `&` |
| Client.GetContacts | src/Ontraport.php:213-230 | a request is made exactly when the list is non-empty; it then reaches `cdata.php` by POST in a body that is exactly `appid`, `key`, `reqType=fetch` and `data=urlencode(urlencode(xml))` for one `contact_id` line per id; the server decodes that document back exactly, and the `reqType` when no credential holds `&` |
| Client.SearchContacts | src/Ontraport.php:268-289 | `searchContacts` reaches `cdata.php` by POST in a body that is exactly `appid`, `key`, `reqType=search` and `data=urlencode(urlencode(xml))` for the search document with values written raw; the server decodes that document back exactly, and the `reqType` when no credential holds `&` |
| Client.SaleProduct | src/Ontraport.php:301-315 | `saleProduct` reaches `pdata.php` by POST in a body that is exactly `appid`, `key`, `reqType=sale` and `data=urlencode(urlencode(xml))` for the purchase document; the server decodes that document back exactly, and the `reqType` when no credential holds `&` |
| Client.SearchProducts | src/Ontraport.php:356-377 | `searchProducts` reaches `pdata.php` by POST in a body that is exactly `appid`, `key`, `reqType=search` and `data=urlencode(urlencode(xml))` for the search document with values escaped; the server decodes that document back exactly, and the `reqType` when no credential holds `&` |
| Client.SearchPurchasesLikeProducts | src/Ontraport.php:385-406 | `searchPurchases` delivers the same document as `searchProducts`, but its body differs: only the `reqType` `search_purchase` tells them apart |
| Client.TransactionDate | src/Ontraport.php:329-331 | the logged date is never null: a null date becomes the current time, any other is kept |
| Client.LogTransaction | src/Ontraport.php:326-348 | `logTransaction` posts the JSON of contact id, date and products to `pdata.php` as `log_transaction`, without URL encoding |
| Client.SafeNamesReadable | src/Ontraport.php:170-172 | with escaped values, the sections are readable exactly when section and field names hold no `"`, `<` or `&` |
| Client.AddContactReadBack | src/Ontraport.php:164-183 | the server reads an added contact back as its sections with every value's text exactly when the names hold no `"`, `<` or `&`; under this decoding, escaped values never stand in the way |
| Client.UpdateContactReadBack | src/Ontraport.php:240-259 | the server reads an update back as the id and the sections exactly when the id and the names hold no `"`, `<` or `&` |
| Client.GetContactsReadBack | src/Ontraport.php:213-230 | the lenient id reader reads a fetch back as the ids' texts, in order, exactly when no id holds `<` or `&` |
| Client.GetContactIsFetchOfOne | src/Ontraport.php:193-201 | fetching one truthy id sends exactly what fetching the list of that id sends |
| Client.SearchContactsReadBack | src/Ontraport.php:268-289 | a contact search is read back as its complete conditions, in order, exactly when their fields, operators and raw values hold no `<` or `&` |
| Client.SearchContactsMarkedValueLost | src/Ontraport.php:278 | a complete contact search value holding `<` or `&` keeps the server from reading the search back |
| Client.SearchProductsReadBack | src/Ontraport.php:356-406 | product and purchase searches are read back exactly when fields and operators hold no `<` or `&`; under this decoding, the escaped values never stand in the way |
| Client.SearchesAgreeOnPlainValues | src/Ontraport.php:278 | contact and product searches send the same document when escaping leaves every value alone |
| Client.SaleProductReadBack | src/Ontraport.php:301-315 | the lenient sale reader, which does not ask for `</purchases>`, reads a sale back as both ids and the optional fields exactly when ids and names hold no `"`, `<` or `&` and the raw values no `<` or `&` |
| Client.SaleProductUnclosed | src/Ontraport.php:305-308 | the purchase document the server receives is never closed |
| Client.LogTransactionDelivered | src/Ontraport.php:344-347 | after the form decoding, the JSON of a logged transaction arrives unchanged exactly when it holds no `&`, no `+` and no `%` escape; the `reqType` arrives when the JSON and the credentials hold no `&` |
| Legacy.SendRequest | ontraport.class.php:65-109 | v0.1 always posts to `cdata.php` with the action as `reqType` and the same form body, with its length |
| Legacy.SendRequestAgrees | ontraport.class.php:69-74 | for an action without `_` outside the forms and products families, v0.2 sends exactly what v0.1 sends |
| Legacy.SendRequestDiffers | ontraport.class.php:70 | for an action with `_`, the v0.1 and v0.2 bodies always differ |
| Legacy.AddContactXml | ontraport.class.php:135-146 | the v0.1 document is `<contact>`, the `Contact Information` block, the `Sequences and Tags` block, each with raw values, and `</contact>`, in that order |
| Legacy.AddContact | ontraport.class.php:131-154 | v0.1 `addContact` reaches `cdata.php` by POST in a body that is exactly `appid`, `key`, `reqType=add` and `data=urlencode(urlencode(xml))` for the two-section document with values raw; the server decodes it exactly |
| Legacy.AddContactReadBack | ontraport.class.php:135-146 | the server reads a v0.1 contact back as `Contact Information` then `Sequences and Tags` exactly when field names hold no `"`, `<` or `&` and the raw values no `<` or `&` |
| Legacy.AddContactAgrees | ontraport.class.php:131-154 | when escaping leaves every value alone, v0.2 `addContact` with the two v0.1 sections sends exactly the v0.1 request |

## Left out

- The transport: the cURL handle, its options, `curl_exec`, `curl_getinfo` and `curl_close` (`src/Ontraport.php:98-138`, `ontraport.class.php:82-121`). These are network I/O; the model returns the request instead.
- The `debug` array (`src/Ontraport.php:94-96, 124`, `ontraport.class.php:77-79, 107`). It is diagnostic state filled partly from the transport.
- `parseResponse`. It wraps the external `SimpleXMLElement` parser.
- The `!is_array($products)` branch of `logTransaction` (`src/Ontraport.php:333-335`). It cannot be reached because of the `array` type hint.
- The unused `$page` parameters of the three searches.
- examples/addContact.php. It is a demo script doing network I/O.
- The default arguments `$http_method = 'GET'` and `$data = null` of `sendRequest`. Every caller passes both.
- Float, array and object values inside the caller's arrays. Values are null, booleans, integers or byte strings.
- Client.LogTransaction: `json_encode` is a parameter (`jsonEncode`), so nothing is stated about the JSON text itself beyond what it carries to the server.
- Client.TransactionDate: `time()` is a parameter (`now`).
- Html.Escape: the invalid UTF-8 handling of `htmlspecialchars` (an empty result, or substitution under PHP 8.1 and later) is not modelled; every byte string is treated as valid.
- Php.Lower: only ASCII letters are lower-cased, as `strtolower` does in the C locale and since PHP 8.2.
- Xml.Text: only the five predefined entities and `&#039;` are decoded. Other numeric character references (such as `&#60;`) and CDATA sections are not recognised, and text holding them counts as unreadable; `htmlspecialchars` writes neither. XML 1.0 end-of-line handling (CR LF and lone CR become LF), the whitespace normalisation of attribute values, and the rejection of characters XML 1.0 forbids (such as U+0001) and of invalid UTF-8 are not modelled either. The model has bytes, not characters, and the client never looks at a parsed request. So a value holding a carriage return, or a name or id holding a tab, is read back unchanged here, but a conforming parser would alter it.
- Readers.ReadSale: accepts the purchase document without `</purchases>`, since that is all `saleProduct` ever writes (Readers.SaleNeverClosed). A conforming XML parser, SimpleXML included, refuses it. Readers.SaleReadBack and Client.SaleProductReadBack therefore say what a lenient reader recovers, not that a strict server accepts the request.
- Readers.ReadIds: accepts a run of `<contact_id>` elements with no root element, which is what `getContacts` writes for two or more ids (src/Ontraport.php:217-220). A conforming XML parser refuses more than one root element. Readers.IdsReadBack and Client.GetContactsReadBack therefore say what a lenient reader recovers.
- PHP's loose `switch` comparison. It coincides with string equality for the three non-numeric family names.
