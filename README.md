# HTTP client marshalling, in Dafny

A model of the request/response logic of a small PHP HTTP client
(`App\Http\Request` and `App\Http\Response`). The client builds the URL of a
call (a query string for GET and HEAD), builds the stream-context structure
handed to the transport (method, a CRLF-joined header block, an encoded body
chosen by content type), classifies a failed transport call by the status
parsed from the response header lines, and wraps the outcome in an
immutable response whose body getter decodes JSON when a header line
announces it.

Modules:

- `Wrappers` — `Option` and `Result`.
- `Strings` — ASCII versions of the PHP built-ins the code calls:
  `strtolower`/`strtoupper` (`Lower`, `Upper`), `strpos` (`StrPos`),
  `implode` (`Join`), `trim` (`Trim`), decimal digit strings.
- `Php` — PHP values, header arrays as ordered key/value sequences with
  distinct keys, assignment into an array (`Put`, which keeps an existing
  key's position), `array_change_key_case(..., CASE_LOWER)`
  (`ChangeKeyCaseLower`), and the `Library` record standing for
  `json_encode`, `http_build_query`, `urldecode` and
  `json_decode`/`json_last_error`. These four are fields of function type,
  so every property below holds whatever they compute.
- `HttpResponse` — `Response.php`: the response value, `getResponseHeaders`,
  `getResponseBody`.
- `HttpRequest` — `Request.php`: `createURL`, `requestStructure`, the
  status extraction of `sendRequest` (the regular expression
  `HTTP\/\S*\s(\d{3})` written out as a leftmost-match search), `hasError`
  and `sendRequest` itself. `sendRequest` takes the transport as a
  function parameter from the URL and structure to a `Reply`: the body or
  `false`, and the raw header lines or nothing when no response arrived.

Behaviour of the code worth knowing:

- `createURL` appends `?` or `&` for GET and HEAD even when the body is
  empty, because `$body` is typed `array` and `is_array` always holds.
- Only a `false` transport result is classified by status; a body returned
  by the transport is always wrapped in a `Response`.
- Header lines are written with the lower-cased name.
- When no HTTP response arrives at all, `$http_response_header` is
  undefined and PHP raises a `TypeError` (in `implode` or in the `Response`
  constructor), which is not an `Exception`.

## Model

| member | source | states |
|---|---|---|
| `Strings.StrPos` | src/app/Http/Request.php:125 | the result is the index of the first occurrence of the needle, and is none exactly when the needle does not occur |
| `Strings.LowerJoin` | src/app/Http/Response.php:50 | lower-casing the joined header text equals joining the lower-cased lines |
| `Strings.ContainsInJoin` | src/app/Http/Response.php:50 | a needle with no character of the separator occurs in the joined text exactly when it occurs in one of the parts |
| `Strings.PartInJoin` | src/app/Http/Request.php:191-200 | every part occurs in the joined text |
| `Strings.Trim` | src/app/Http/Request.php:163 | the result sits inside the input with only strippable characters before and after it, neither starts nor ends with a strippable character, and is empty only if every input character is strippable |
| `Strings.NatToString` | src/app/Http/Response.php:57 | the decimal text of a number consists of digits without a leading zero (except `0` itself) and reads back as that number |
| `Php.Get` | src/app/Http/Request.php:162 | a lookup finds a value exactly when the key is present |
| `Php.Put` | src/app/Http/Request.php:172 | assignment to an existing key changes its value in place; a new key is appended; every other key keeps its value; keys stay distinct |
| `Php.ChangeKeyCaseLower` | src/app/Http/Request.php:153 | the normalised header names are lower case and distinct; the value under a name is the last value supplied under any capitalisation of it; the array is empty only for empty input |
| `Php.ChangeKeyCaseKeepsFirstOccurrenceOrder` | src/app/Http/Request.php:153 | normalised entries appear in the order in which their names first occur in the input |
| `Php.ChangeKeyCaseIgnoresNameCase` | src/app/Http/Request.php:153 | header lists that differ only in the case of their names normalise to the same array |
| `HttpResponse.ConstructorKeepsArguments` | src/app/Http/Response.php:37-41 | the constructor stores body and header lines unchanged, and `getResponseHeaders` returns exactly those lines |
| `HttpResponse.JsonAnnouncedByOneLine` | src/app/Http/Response.php:50 | the test on the lower-cased, `", "`-joined header text succeeds exactly when some single lower-cased header line contains `application/json`, whatever header that line is |
| `HttpResponse.GetResponseBody` | src/app/Http/Response.php:48-62 | without a JSON announcement the raw body is returned unchanged; with one, the decoded value is returned on success, and on failure an exception is thrown whose message is `Error in JSON decoding: ` followed by digits that read back as the decoder's error code |
| `HttpResponse.NoHeadersMeansRawBody` | src/app/Http/Response.php:61 | a response with no header lines returns its raw body |
| `HttpResponse.MixedCaseAnnouncementDecodes` | src/app/Http/Response.php:50-54 | `Content-Type: Application/JSON; charset=UTF-8` selects decoding, and the decoded value is returned |
| `HttpRequest.CreateURL` | src/app/Http/Request.php:117-137 | the input URL is a prefix of the result; the result differs from it exactly for GET and HEAD in any case; then the next character is `&` if the URL holds `?` and `?` otherwise, followed by the url-decoded query of the body, so the result holds a `?` |
| `HttpRequest.EmptyQueryStillAppendsSeparator` | src/app/Http/Request.php:124-131 | with an empty body `http://x` becomes `http://x?` and `http://x?a=1` becomes `http://x?a=1&` |
| `HttpRequest.WithDefaultContentType` | src/app/Http/Request.php:171-172 | without a non-empty content type the array gains `content-type: application/json`: in place of an existing empty entry, appended otherwise; with one it is unchanged; other keys keep their values and keys stay lower case and distinct |
| `HttpRequest.EveryHeaderInBlock` | src/app/Http/Request.php:190-201 | every header of the array appears in the block as a `name: value` line |
| `HttpRequest.RequestStructure` | src/app/Http/Request.php:148-208 | the method is the upper-cased input; the header block is absent for an empty sent array and otherwise exactly the `name: value` lines of the sent array in order, joined by CRLF, present exactly when headers were supplied or the method is a body method; content is the negotiated payload exactly when the method is DELETE/POST/PUT/OPTIONS/PATCH and the payload is truthy, and absent otherwise |
| `HttpRequest.HeaderNamesNormalised` | src/app/Http/Request.php:153 | every sent header name is lower case and distinct, and each name other than `content-type` carries the last value supplied under any capitalisation |
| `HttpRequest.DefaultsToJson` | src/app/Http/Request.php:171-173 | a body method with an absent or empty content type sends `content-type: application/json` in its header block and a JSON payload |
| `HttpRequest.HonoursDeclaredContentType` | src/app/Http/Request.php:162-170 | a body method with a non-empty content type keeps the header array as supplied and encodes by the trimmed type: form-encoded, JSON, or the raw array for any other type |
| `HttpRequest.OtherMethodsSendNoContent` | src/app/Http/Request.php:155-182 | GET, HEAD and any unknown method send no content and gain no content type |
| `HttpRequest.HeaderNameCaseIsIrrelevant` | src/app/Http/Request.php:153 | headers differing only in name case give the same structure |
| `HttpRequest.ContentTypeSpellingIrrelevant` | src/app/Http/Request.php:153-162 | `Content-Type` and `content-type` give the same structure |
| `HttpRequest.MatchAt` | src/app/Http/Request.php:232 | at one start position the pattern matches exactly when a match exists there, and the capture is the three digits after the only possible whitespace |
| `HttpRequest.StatusIsLeftmostMatch` | src/app/Http/Request.php:231-233 | the extracted status is none exactly when no match exists, and otherwise is the capture of the leftmost match |
| `HttpRequest.StatusOf` | src/app/Http/Request.php:233 | the status is empty (null) or three digits |
| `HttpRequest.HasError` | src/app/Http/Request.php:256-259 | a status is an error exactly when it starts with neither `2` nor `3`, so an empty or missing status is an error |
| `HttpRequest.HasErrorOutsideSuccessAndRedirection` | src/app/Http/Request.php:256-259 | on a three-digit status, an error means a code outside 200-399, the 2xx and 3xx classes of section 15 of RFC 9110 |
| `HttpRequest.FailureMessage` | src/app/Http/Request.php:241-244 | the exception message contains the status, the request URL and the status line |
| `HttpRequest.SendRequest` | src/app/Http/Request.php:220-249 | without header lines the call ends in a `TypeError`; with them it fails exactly when the transport returned `false` and the parsed status is missing or outside 200-399, and such a failure is an exception carrying the status as code (500 without one) and a message holding the URL and the status; otherwise a response wraps the transport's body or `false` and its header lines |
| `HttpRequest.NotFoundStatus` | src/app/Http/Request.php:231-233 | header lines led by `HTTP/1.1 404 Not Found` give status `404` |
| `HttpRequest.NotFoundRaises404` | src/app/Http/Request.php:230-245 | a failed transport reporting `HTTP/1.1 404 Not Found` raises an exception with code 404 |

## Left out

- The transport: `stream_context_create`, `file_get_contents` and the
  ambient `$http_response_header` (src/app/Http/Request.php:226-228) are a
  function parameter of `SendRequest`; nothing about the network is modelled.
- `http_response_code($status)` (src/app/Http/Request.php:236): its effect on
  the server's own response and its return value are not modelled; the
  exception code is the parsed status whenever one was parsed, 500 otherwise.
- `Request::getInstance` (src/app/Http/Request.php:268-279): process-wide
  singleton plumbing over static state.
- The verb wrappers `get`, `put`, `options`, `delete`, `patch`, `post`
  (src/app/Http/Request.php:35-107): each only calls `sendRequest` with its
  method constant, which `SendRequest` takes as its `verb` argument.
- The internals of `json_encode`, `http_build_query`, `urldecode` and
  `json_decode`: they are uninterpreted fields of `Library`.
- The `elseif` branch at src/app/Http/Request.php:175-178: `$body` is typed
  `array`, so it can never be taken, and the model has no such branch.
- Header values other than strings and integer array keys: header arrays
  are modelled with string names and string values only.
- Bytes outside ASCII: strings are sequences of characters and case mapping
  is ASCII-only, as in `strtolower`/`strtoupper` since PHP 8.2.
- Floating-point numbers among decoded JSON values.
- The demo page, its script and the demo endpoint (`src/demo/`), including
  its method whitelist and the conversion of exceptions into HTTP replies.
- `CreateURL`: the contents of the query string are whatever
  `urldecode(http_build_query($body))` yields; the model states only where
  they go.
