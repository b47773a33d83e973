/** The request side of the client (src/app/Http/Request.php): the URL
    built for a call, the stream-context structure handed to the transport,
    and how the transport's outcome is classified into a Response or an
    exception. */
module HttpRequest {
  import opened Wrappers
  import opened Strings
  import opened Php
  import opened HttpResponse

  const GET := "GET"
  const POST := "POST"
  const PUT := "PUT"
  const PATCH := "PATCH"
  const DELETE := "DELETE"
  const HEAD := "HEAD"
  const OPTIONS := "OPTIONS"
  const InternalServerError := 500

  const ContentTypeName := "content-type"
  const JsonType := "application/json"
  const FormType := "application/x-www-form-urlencoded"

  /** Methods whose body goes into the query string (createURL's switch). */
  predicate IsQueryMethod(m: string) { m == HEAD || m == GET }

  /** Methods whose body is encoded as the request content (requestStructure's switch). */
  predicate IsBodyMethod(m: string) { m == DELETE || m == POST || m == PUT || m == OPTIONS || m == PATCH }

  // ---------------------------------------------------------------------
  // createURL

  /** createURL($method, $url, $body): for GET and HEAD, in any case, a
      separator and the url-decoded query of the body are appended; `&` if
      the URL already holds a `?`, `?` otherwise. The body parameter is
      typed `array`, so the separator is appended even for an empty body.
      Every other method keeps the URL. */
  function CreateURL(lib: Library, verb: string, url: string, body: PhpArray): (r: string)
    ensures url <= r
    ensures r != url <==> IsQueryMethod(Upper(verb))
    ensures IsQueryMethod(Upper(verb)) ==>
              && r[|url|] == (if '?' in url then '&' else '?')
              && r[|url| + 1..] == lib.urlDecode(lib.buildQuery(body))
              && '?' in r
  {
    ContainsChar(url, '?');
    var m := Upper(verb);
    if m == HEAD || m == GET then
      (if StrPos(url, "?").Some? then url + "&" else url + "?") + lib.urlDecode(lib.buildQuery(body))
    else
      url
  }

  /** With an empty body the bare separator is still appended. */
  lemma EmptyQueryStillAppendsSeparator(lib: Library)
    requires lib.buildQuery([]) == "" && lib.urlDecode("") == ""
    ensures CreateURL(lib, "GET", "http://x", []) == "http://x?"
    ensures CreateURL(lib, "head", "http://x?a=1", []) == "http://x?a=1&"
  {
    var u := "http://x?a=1";
    assert u[8] == '?';
    var r := CreateURL(lib, "head", u, []);
    assert Upper("head") == HEAD by {
      assert Upper("head")[0] == UpperChar('h');
    }
    assert r == u + "&" by {
      assert r[|u|..] == "&";
      assert r == r[..|u|] + r[|u|..];
    }
    var g := CreateURL(lib, "GET", "http://x", []);
    assert Upper("GET") == GET by {
      assert Upper("GET")[0] == UpperChar('G');
    }
    assert g == "http://x" + "?" by {
      assert g[8..] == "?";
      assert g == g[..8] + g[8..];
    }
  }

  // ---------------------------------------------------------------------
  // requestStructure

  /** The request content chosen for a method: encoded text, the body array
      left as it is, or `false` from a failed json_encode. */
  datatype Content = Encoded(text: string) | Raw(entries: PhpArray) | EncodeFailed

  /** The 'http' entry of the stream-context options: the method, the
      header block when there are headers, the content when it is truthy. */
  datatype Structure = Structure(verb: string, header: Option<string>, content: Option<Content>)

  /** json_encode($body) as content. */
  function JsonContent(lib: Library, body: PhpArray): Content
  {
    match lib.jsonEncode(body)
    case Some(t) => Encoded(t)
    case None => EncodeFailed
  }

  /** PHP truthiness of the payload: a non-empty string other than "0", or a non-empty array. */
  predicate Truthy(c: Content)
  {
    match c
    case Encoded(t) => !IsEmptyString(t)
    case Raw(a) => |a| > 0
    case EncodeFailed => false
  }

  /** !empty($headers['content-type']) */
  predicate DeclaresContentType(hs: Headers)
  {
    Get(hs, ContentTypeName).Some? && !IsEmptyString(Get(hs, ContentTypeName).value)
  }

  /** $headers['content-type'] = 'application/json' unless a non-empty content type is declared. */
  function WithDefaultContentType(hs: Headers): (r: Headers)
    requires DistinctKeys(hs)
    ensures DistinctKeys(r) && |r| > 0
    ensures (forall i :: 0 <= i < |hs| ==> IsLowerCase(hs[i].0)) ==> forall i :: 0 <= i < |r| ==> IsLowerCase(r[i].0)
    ensures forall k :: k != ContentTypeName ==> Get(r, k) == Get(hs, k)
    ensures DeclaresContentType(hs) ==> r == hs
    ensures !DeclaresContentType(hs) ==> Get(r, ContentTypeName) == Some(JsonType)
    ensures !DeclaresContentType(hs) && HasKey(hs, ContentTypeName) ==>
              |r| == |hs| && forall i :: 0 <= i < |hs| ==> r[i] == (if hs[i].0 == ContentTypeName then (ContentTypeName, JsonType) else hs[i])
    ensures !DeclaresContentType(hs) && !HasKey(hs, ContentTypeName) ==> r == hs + [(ContentTypeName, JsonType)]
  {
    assert IsLowerCase(ContentTypeName);
    if DeclaresContentType(hs) then hs else Put(hs, ContentTypeName, JsonType)
  }

  /** The header array sent: names lower-cased, and for body methods without
      a content type the default `content-type: application/json` put in. */
  function WireHeaders(verb: string, headers: Headers): Headers
  {
    var hs := ChangeKeyCaseLower(headers);
    if IsBodyMethod(Upper(verb)) then WithDefaultContentType(hs) else hs
  }

  /** $payload: '' for methods without a body; for body methods the body
      encoded as the (trimmed) content type says, JSON by default, and the
      raw array for any other declared type. */
  function NegotiatedContent(lib: Library, verb: string, body: PhpArray, headers: Headers): Content
  {
    var hs := ChangeKeyCaseLower(headers);
    if !IsBodyMethod(Upper(verb)) then Encoded("")
    else if DeclaresContentType(hs) then
      var declared := Trim(Get(hs, ContentTypeName).value);
      if declared == FormType then Encoded(lib.buildQuery(body))
      else if declared == JsonType then JsonContent(lib, body)
      else Raw(body)
    else JsonContent(lib, body)
  }

  /** sprintf("%s: %s", $key, $value) */
  function HeaderLine(entry: (string, string)): string
  {
    entry.0 + ": " + entry.1
  }

  function HeaderLines(hs: Headers): (lines: seq<string>)
    ensures |lines| == |hs| && forall i :: 0 <= i < |hs| ==> lines[i] == HeaderLine(hs[i])
  {
    seq(|hs|, i requires 0 <= i < |hs| => HeaderLine(hs[i]))
  }

  /** The header lines joined with CRLF, the field-line layout of section 5 of RFC 9112. */
  function HeaderBlock(hs: Headers): string
  {
    Join("\r\n", HeaderLines(hs))
  }

  /** Every header of the array appears as a `name: value` line of the block. */
  lemma EveryHeaderInBlock(hs: Headers)
    ensures forall i :: 0 <= i < |hs| ==> Contains(HeaderBlock(hs), HeaderLine(hs[i]))
  {
    forall i | 0 <= i < |hs|
      ensures Contains(HeaderBlock(hs), HeaderLine(hs[i]))
    {
      PartInJoin("\r\n", HeaderLines(hs), i);
    }
  }

  /** requestStructure($method, $body, $headers) */
  function RequestStructure(lib: Library, verb: string, body: PhpArray, headers: Headers): (r: Structure)
    ensures r.verb == Upper(verb) && IsUpperCase(r.verb)
    ensures r.header.Some? <==> |headers| > 0 || IsBodyMethod(r.verb)
    ensures var hs := WireHeaders(verb, headers);
              r.header == if |hs| > 0 then Some(Join("\r\n", HeaderLines(hs))) else None
    ensures r.header.Some? ==>
              var hs := WireHeaders(verb, headers);
              forall i :: 0 <= i < |hs| ==> Contains(r.header.value, HeaderLine(hs[i]))
    ensures r.content.Some? ==> IsBodyMethod(r.verb) && Truthy(r.content.value)
    ensures var p := NegotiatedContent(lib, verb, body, headers);
              r.content == if IsBodyMethod(r.verb) && Truthy(p) then Some(p) else None
  {
    var hs := WireHeaders(verb, headers);
    var payload := NegotiatedContent(lib, verb, body, headers);
    EveryHeaderInBlock(hs);
    Structure(
      Upper(verb),
      if |hs| > 0 then Some(HeaderBlock(hs)) else None,
      if Truthy(payload) then Some(payload) else None)
  }

  /** After normalisation every header name is lower case, a name supplied
      in several cases keeps only its last value, and the content type is
      looked up whatever case the caller wrote it in. */
  lemma HeaderNamesNormalised(verb: string, headers: Headers)
    ensures var hs := WireHeaders(verb, headers);
      && DistinctKeys(hs)
      && (forall i :: 0 <= i < |hs| ==> IsLowerCase(hs[i].0))
      && (forall k :: k != ContentTypeName ==> Get(hs, k) == LastValue(headers, k))
  {
  }

  /** A body method with no content type, or an empty one, in any case,
      gets `content-type: application/json` and a JSON payload. */
  lemma DefaultsToJson(lib: Library, verb: string, body: PhpArray, headers: Headers)
    requires IsBodyMethod(Upper(verb))
    requires LastValue(headers, ContentTypeName).None? || IsEmptyString(LastValue(headers, ContentTypeName).value)
    ensures Get(WireHeaders(verb, headers), ContentTypeName) == Some(JsonType)
    ensures NegotiatedContent(lib, verb, body, headers) == JsonContent(lib, body)
    ensures var r := RequestStructure(lib, verb, body, headers);
      r.header.Some? && Contains(r.header.value, HeaderLine((ContentTypeName, JsonType)))
  {
    var lowered := ChangeKeyCaseLower(headers);
    assert Get(lowered, ContentTypeName) == LastValue(headers, ContentTypeName);
    assert !DeclaresContentType(lowered);
    var hs := WireHeaders(verb, headers);
    assert hs == WithDefaultContentType(lowered);
    assert Get(hs, ContentTypeName) == Some(JsonType);
    var i := EntryOf(hs, ContentTypeName);
    GetAt(hs, i);
    assert hs[i] == (ContentTypeName, JsonType);
    var r := RequestStructure(lib, verb, body, headers);
    assert r.header == Some(HeaderBlock(hs));
    EveryHeaderInBlock(hs);
  }

  /** The position of a key's entry in an array. */
  lemma EntryOf(m: Headers, k: string) returns (i: nat)
    requires HasKey(m, k)
    ensures i < |m| && m[i].0 == k
  {
    i :| 0 <= i < |m| && m[i].0 == k;
  }

  /** A body method with a non-empty content type keeps the header array
      as supplied (lower-cased) and encodes by the trimmed type: a form
      string, JSON, or, for any other type, the body array unencoded. */
  lemma HonoursDeclaredContentType(lib: Library, verb: string, body: PhpArray, headers: Headers)
    requires IsBodyMethod(Upper(verb))
    requires LastValue(headers, ContentTypeName).Some? && !IsEmptyString(LastValue(headers, ContentTypeName).value)
    ensures WireHeaders(verb, headers) == ChangeKeyCaseLower(headers)
    ensures var declared := Trim(LastValue(headers, ContentTypeName).value);
      && (declared == FormType ==> NegotiatedContent(lib, verb, body, headers) == Encoded(lib.buildQuery(body)))
      && (declared == JsonType ==> NegotiatedContent(lib, verb, body, headers) == JsonContent(lib, body))
      && (declared != FormType && declared != JsonType ==> NegotiatedContent(lib, verb, body, headers) == Raw(body))
  {
  }

  /** Methods other than the five body methods never send content and never
      gain a content type. */
  lemma OtherMethodsSendNoContent(lib: Library, verb: string, body: PhpArray, headers: Headers)
    requires !IsBodyMethod(Upper(verb))
    ensures WireHeaders(verb, headers) == ChangeKeyCaseLower(headers)
    ensures RequestStructure(lib, verb, body, headers).content == None
  {
  }

  /** The structure depends on header names only up to case: `Content-Type`
      and `content-type` behave identically. */
  lemma {:induction false} HeaderNameCaseIsIrrelevant(lib: Library, verb: string, body: PhpArray, h1: Headers, h2: Headers)
    requires SameUpToNameCase(h1, h2)
    ensures RequestStructure(lib, verb, body, h1) == RequestStructure(lib, verb, body, h2)
  {
    ChangeKeyCaseIgnoresNameCase(h1, h2);
    assert WireHeaders(verb, h1) == WireHeaders(verb, h2);
    assert NegotiatedContent(lib, verb, body, h1) == NegotiatedContent(lib, verb, body, h2);
  }

  /** `Content-Type` and `content-type` give the same structure. */
  lemma ContentTypeSpellingIrrelevant(lib: Library, verb: string, body: PhpArray, v: string)
    ensures RequestStructure(lib, verb, body, [("Content-Type", v)]) == RequestStructure(lib, verb, body, [("content-type", v)])
  {
    var mixed := "Content-Type";
    assert Lower(mixed) == Lower(ContentTypeName) by {
      forall k | 0 <= k < |mixed|
        ensures Lower(mixed)[k] == Lower(ContentTypeName)[k]
      {
        assert Lower(mixed)[k] == LowerChar(mixed[k]);
        assert Lower(ContentTypeName)[k] == LowerChar(ContentTypeName[k]);
      }
    }
    HeaderNameCaseIsIrrelevant(lib, verb, body, [(mixed, v)], [(ContentTypeName, v)]);
  }

  // ---------------------------------------------------------------------
  // Status extraction: preg_match('{HTTP\/\S*\s(\d{3})}', $statusLine, $match)

  /** \s of PCRE: space, tab, line feed, vertical tab, form feed, carriage return. */
  predicate IsSpace(c: char)
  {
    c == ' ' || c == '\t' || c == '\n' || c == '\U{000B}' || c == '\U{000C}' || c == '\r'
  }

  predicate IsStatusCode(d: string) { |d| == 3 && AllDigits(d) }

  /** The pattern matches at `i` with its \s at `j`: "HTTP/", a run of
      non-space characters s[i+5..j], a space at j, three digits after it. */
  predicate StatusMatch(s: string, i: nat, j: nat)
  {
    && i + 5 <= j && j + 4 <= |s|
    && s[i..i + 5] == "HTTP/"
    && (forall k :: i + 5 <= k < j ==> !IsSpace(s[k]))
    && IsSpace(s[j])
    && IsStatusCode(s[j + 1..j + 4])
  }

  /** No match starts in [from, to). */
  ghost predicate NoMatchIn(s: string, from: nat, to: nat)
  {
    forall p, j :: from <= p < to ==> !StatusMatch(s, p, j)
  }

  /** The first whitespace at or after `k`, or |s|. */
  function SpaceFrom(s: string, k: nat): (j: nat)
    requires k <= |s|
    ensures k <= j <= |s|
    ensures forall m :: k <= m < j ==> !IsSpace(s[m])
    ensures j < |s| ==> IsSpace(s[j])
    decreases |s| - k
  {
    if k == |s| || IsSpace(s[k]) then k else SpaceFrom(s, k + 1)
  }

  /** The pattern tried at one start position. \S* cannot run past a space
      and \s must follow it, so the only candidate for \s is the first
      space after "HTTP/". */
  function MatchAt(s: string, i: nat): (r: Option<string>)
    ensures r.None? <==> forall j :: !StatusMatch(s, i, j)
    ensures forall j :: StatusMatch(s, i, j) ==> r == Some(s[j + 1..j + 4])
  {
    if i + 5 <= |s| && s[i..i + 5] == "HTTP/" then
      var j := SpaceFrom(s, i + 5);
      if j + 4 <= |s| && IsStatusCode(s[j + 1..j + 4]) then
        assert StatusMatch(s, i, j);
        Some(s[j + 1..j + 4])
      else None
    else None
  }

  /** The leftmost match starting at or after `i`. */
  function ExtractFrom(s: string, i: nat): (r: Option<string>)
    ensures r.Some? ==> IsStatusCode(r.value)
    decreases |s| - i
  {
    if i >= |s| then None
    else
      match MatchAt(s, i)
      case Some(d) => Some(d)
      case None => ExtractFrom(s, i + 1)
  }

  /** $match[1]: the three digits captured by the leftmost match, if any. */
  function ExtractStatus(s: string): (r: Option<string>)
    ensures r.Some? ==> IsStatusCode(r.value)
  {
    ExtractFrom(s, 0)
  }

  /** Extraction from `i` returns the digits of the first match at or after `i`. */
  lemma {:induction false} ExtractFromFindsFirstMatch(s: string, i: nat, p: nat, j: nat)
    requires i <= p && StatusMatch(s, p, j) && NoMatchIn(s, i, p)
    ensures ExtractFrom(s, i) == Some(s[j + 1..j + 4])
    decreases p - i
  {
    if i < p {
      assert MatchAt(s, i).None?;
      ExtractFromFindsFirstMatch(s, i + 1, p, j);
    }
  }

  /** Extraction from `i` finds nothing exactly when no match starts at or after `i`. */
  lemma {:induction false} ExtractFromNone(s: string, i: nat)
    ensures ExtractFrom(s, i).None? <==> NoMatchIn(s, i, |s| + 1)
    decreases |s| - i
  {
    if i < |s| {
      ExtractFromNone(s, i + 1);
    }
  }

  /** Whatever extraction returns is the capture of a match with no match to its left. */
  lemma {:induction false} ExtractFromSound(s: string, i: nat)
    requires ExtractFrom(s, i).Some?
    ensures exists p, j :: i <= p && StatusMatch(s, p, j) && NoMatchIn(s, i, p) && ExtractFrom(s, i) == Some(s[j + 1..j + 4])
    decreases |s| - i
  {
    if MatchAt(s, i).Some? {
      var j := SpaceFrom(s, i + 5);
      assert StatusMatch(s, i, j);
    } else {
      ExtractFromSound(s, i + 1);
      var p, j :| i + 1 <= p && StatusMatch(s, p, j) && NoMatchIn(s, i + 1, p) && ExtractFrom(s, i + 1) == Some(s[j + 1..j + 4]);
      assert NoMatchIn(s, i, p);
    }
  }

  /** The status is what preg_match captures: the three digits of the
      leftmost match of HTTP\/\S*\s(\d{3}), none when nothing matches. */
  lemma StatusIsLeftmostMatch(s: string)
    ensures ExtractStatus(s).None? <==> NoMatchIn(s, 0, |s| + 1)
    ensures ExtractStatus(s).Some? ==>
              exists p, j :: StatusMatch(s, p, j) && NoMatchIn(s, 0, p) && ExtractStatus(s) == Some(s[j + 1..j + 4])
    ensures forall p, j :: StatusMatch(s, p, j) && NoMatchIn(s, 0, p) ==> ExtractStatus(s) == Some(s[j + 1..j + 4])
  {
    ExtractFromNone(s, 0);
    if ExtractStatus(s).Some? {
      ExtractFromSound(s, 0);
    }
    forall p, j | StatusMatch(s, p, j) && NoMatchIn(s, 0, p)
      ensures ExtractStatus(s) == Some(s[j + 1..j + 4])
    {
      ExtractFromFindsFirstMatch(s, 0, p, j);
    }
  }

  /** A match inside a prefix is a match of the whole string. */
  lemma StatusMatchInPrefix(a: string, b: string, i: nat, j: nat)
    requires StatusMatch(a, i, j)
    ensures StatusMatch(a + b, i, j)
  {
    assert (a + b)[i..i + 5] == a[i..i + 5];
    assert (a + b)[j + 1..j + 4] == a[j + 1..j + 4];
  }

  // ---------------------------------------------------------------------
  // hasError and sendRequest

  /** hasError($status): strpos($status, '2') !== 0 && strpos($status, '3') !== 0. */
  function HasError(status: string): (r: bool)
    ensures r <==> !(|status| > 0 && (status[0] == '2' || status[0] == '3'))
  {
    StrPosZeroIsFirstChar(status, '2');
    StrPosZeroIsFirstChar(status, '3');
    StrPos(status, "2") != Some(0) && StrPos(status, "3") != Some(0)
  }

  /** On a three-digit status, hasError is "outside the 2xx and 3xx classes"
      of section 15 of RFC 9110. */
  lemma HasErrorOutsideSuccessAndRedirection(status: string)
    requires IsStatusCode(status)
    ensures HasError(status) <==> !(200 <= DigitsValue(status) < 400)
  {
    ThreeDigitValue(status);
  }

  /** The parsed status, or the empty string standing for null, is an error
      unless it is a 2xx or 3xx code. */
  lemma HasErrorOfParsedStatus(status: string)
    requires status == "" || IsStatusCode(status)
    ensures HasError(status) <==> !(status != "" && 200 <= DigitsValue(status) < 400)
  {
    if status != "" {
      HasErrorOutsideSuccessAndRedirection(status);
    }
  }

  /** What the transport reports: the body or `false`, and
      $http_response_header, which stays undefined (None) when no HTTP
      response arrived at all. */
  datatype Reply = Reply(body: Option<string>, headerLines: Option<seq<string>>)

  /** How sendRequest fails: the Exception it throws, or the TypeError PHP
      raises when $http_response_header is undefined (it reaches implode or
      the Response constructor as null). A TypeError is not an Exception. */
  datatype Failure = Raised(exception: Exception) | TypeMismatch

  /** implode(',', $http_response_header) */
  function StatusLine(lines: seq<string>): string
  {
    Join(",", lines)
  }

  /** $status: the captured digits, or null (here "") when nothing matched. */
  function StatusOf(statusLine: string): (d: string)
    ensures d == "" || IsStatusCode(d)
  {
    match ExtractStatus(statusLine)
    case Some(d) => d
    case None => ""
  }

  /** The exception code: the parsed status, or 500 when there is none. */
  function ExceptionCode(status: string): int
    requires status == "" || IsStatusCode(status)
  {
    if status != "" then DigitsValue(status) else InternalServerError
  }

  /** The transport call: the built URL and structure are what it is given. */
  function Dispatch(lib: Library, transport: (string, Structure) -> Reply, verb: string, url: string, body: PhpArray, headers: Headers): Reply
  {
    transport(CreateURL(lib, verb, url, body), RequestStructure(lib, verb, body, headers))
  }

  lemma ContainsMiddle(a: string, b: string, c: string)
    ensures Contains(a + b + c, b)
  {
    assert OccursAt(b, b, 0);
    OccursInSuffix(a, b, b, 0);
    OccursInPrefix(a + b, c, b, |a|);
  }

  /** "Invalid response status: {$status}, Request URL: {$url}, " . $statusLine */
  function FailureMessage(status: string, target: string, statusLine: string): (m: string)
    ensures Contains(m, status) && Contains(m, target) && Contains(m, statusLine)
  {
    var head := "Invalid response status: " + status + ", Request URL: ";
    var m := head + target + ", " + statusLine;
    ContainsMiddle(head, target, ", " + statusLine);
    assert m == head + target + (", " + statusLine);
    ContainsMiddle("Invalid response status: ", status, ", Request URL: " + target + ", " + statusLine);
    assert m == "Invalid response status: " + status + (", Request URL: " + target + ", " + statusLine);
    ContainsMiddle(head + target + ", ", statusLine, "");
    assert m == head + target + ", " + statusLine + "";
    m
  }

  /** sendRequest($method, $url, $body, $headers): when the transport
      returns a body, a Response wraps it; when it returns false, the status
      parsed from the joined header lines decides: outside 2xx/3xx (or
      absent) an exception carrying the status and URL is thrown, otherwise a
      Response wrapping `false` is returned. Without any header lines PHP
      raises a TypeError instead. */
  function SendRequest(lib: Library, transport: (string, Structure) -> Reply, verb: string, url: string, body: PhpArray, headers: Headers)
    : (r: Result<Response, Failure>)
    ensures var reply := Dispatch(lib, transport, verb, url, body, headers);
      reply.headerLines.None? ==> r == Err(TypeMismatch)
    ensures var reply := Dispatch(lib, transport, verb, url, body, headers);
      reply.headerLines.Some? ==>
        var status := ExtractStatus(StatusLine(reply.headerLines.value));
        (r.Err? <==> reply.body.None? && !(status.Some? && 200 <= DigitsValue(status.value) < 400))
    ensures var reply := Dispatch(lib, transport, verb, url, body, headers);
      r.Ok? ==>
        && reply.headerLines.Some?
        && r.value == NewResponse(if reply.body.Some? then Text(reply.body.value) else Failed, reply.headerLines.value)
    ensures var reply := Dispatch(lib, transport, verb, url, body, headers);
      r.Err? && reply.headerLines.Some? ==>
        var statusLine := StatusLine(reply.headerLines.value);
        var status := ExtractStatus(statusLine);
        && r.error.Raised?
        && r.error.exception.code == (if status.Some? then DigitsValue(status.value) else InternalServerError)
        && Contains(r.error.exception.message, CreateURL(lib, verb, url, body))
        && Contains(r.error.exception.message, StatusOf(statusLine))
  {
    var target := CreateURL(lib, verb, url, body);
    var reply := Dispatch(lib, transport, verb, url, body, headers);
    match reply.headerLines
    case None => Err(TypeMismatch)
    case Some(lines) =>
      if reply.body.None? then
        var statusLine := StatusLine(lines);
        var status := StatusOf(statusLine);
        HasErrorOfParsedStatus(status);
        if HasError(status) then
          var message := FailureMessage(status, target, statusLine);
          Err(Raised(Exception(message, ExceptionCode(status))))
        else
          Ok(NewResponse(Failed, lines))
      else
        Ok(NewResponse(Text(reply.body.value), lines))
  }

  /** The status of header lines led by `HTTP/1.1 404 Not Found` is 404. */
  lemma NotFoundStatus(rest: seq<string>)
    ensures ExtractStatus(StatusLine(["HTTP/1.1 404 Not Found"] + rest)) == Some("404")
    ensures DigitsValue("404") == 404
  {
    var line := "HTTP/1.1 404 Not Found";
    var lines := [line] + rest;
    var s := Join(",", lines);
    assert StatusMatch(line, 0, 8) by {
      assert line[0..5] == "HTTP/";
      assert line[9..12] == "404";
    }
    JoinStartsWithFirst(",", lines);
    assert s == line + s[|line|..];
    StatusMatchInPrefix(line, s[|line|..], 0, 8);
    ExtractFromFindsFirstMatch(s, 0, 0, 8);
    assert s[9..12] == line[9..12] == "404";
    ThreeDigitValue("404");
  }

  /** A failed transport whose first header line is `HTTP/1.1 404 Not Found`
      raises the exception with code 404. */
  lemma NotFoundRaises404(lib: Library, transport: (string, Structure) -> Reply, verb: string, url: string, body: PhpArray, headers: Headers, rest: seq<string>)
    requires Dispatch(lib, transport, verb, url, body, headers) == Reply(None, Some(["HTTP/1.1 404 Not Found"] + rest))
    ensures var r := SendRequest(lib, transport, verb, url, body, headers);
      r.Err? && r.error.Raised? && r.error.exception.code == 404
  {
    NotFoundStatus(rest);
  }
}
