/** The response wrapper (src/app/Http/Response.php): an immutable pair of
    the raw body the transport returned and its raw header lines, with the
    policy that decodes the body as JSON when a header line announces it. */
module HttpResponse {
  import opened Wrappers
  import opened Strings
  import opened Php

  /** What file_get_contents returned: the body text, or `false`. */
  datatype Payload = Text(text: string) | Failed

  /** A Response object: its `$response` and `$headers` fields, assigned once. */
  datatype Response = Response(response: Payload, headers: seq<string>)

  /** What getResponseBody returns: a decoded JSON value, or the raw payload. */
  datatype Body = Json(value: Value) | Plain(payload: Payload)

  const JsonMediaType := "application/json"
  const JsonErrorPrefix := "Error in JSON decoding: "

  /** new Response($response, $headers) */
  function NewResponse(response: Payload, headers: seq<string>): Response
  {
    Response(response, headers)
  }

  /** getResponseHeaders() */
  function GetResponseHeaders(r: Response): seq<string>
  {
    r.headers
  }

  /** The constructor stores both arguments as given, and the header getter
      hands back exactly the header lines supplied. */
  lemma ConstructorKeepsArguments(response: Payload, headers: seq<string>)
    ensures NewResponse(response, headers).response == response
    ensures GetResponseHeaders(NewResponse(response, headers)) == headers
  {
  }

  /** The text json_decode sees: PHP turns a `false` body into "". */
  function DecodeInput(p: Payload): string
  {
    match p
    case Text(t) => t
    case Failed => ""
  }

  /** The test getResponseBody applies: the header lines joined with ", ",
      lower-cased, contain "application/json". */
  predicate AnnouncesJson(headers: seq<string>)
  {
    StrPos(Lower(Join(", ", headers)), JsonMediaType).Some?
  }

  /** Some single header line, lower-cased, contains "application/json". */
  ghost predicate SomeLineAnnouncesJson(headers: seq<string>)
  {
    exists k :: 0 <= k < |headers| && Contains(Lower(headers[k]), JsonMediaType)
  }

  /** Joining with ", " neither creates nor splits an occurrence of
      "application/json", which holds neither a comma nor a space: the
      joined test succeeds exactly when one line passes it on its own, and
      it does so whatever header the line is (not only Content-Type). */
  lemma {:induction false} JsonAnnouncedByOneLine(headers: seq<string>)
    ensures AnnouncesJson(headers) <==> SomeLineAnnouncesJson(headers)
  {
    var sep := ", ";
    assert IsLowerCase(sep);
    LowerJoin(sep, headers);
    forall c | c in JsonMediaType
      ensures c !in sep
    {
    }
    ContainsInJoin(sep, LowerAll(headers), JsonMediaType);
  }

  /** getResponseBody(): with a JSON announcement the body is decoded, a
      decoding error being thrown with its code in the message; without one
      the raw payload is returned untouched. */
  function GetResponseBody(lib: Library, r: Response): (res: Result<Body, Exception>)
    ensures !SomeLineAnnouncesJson(r.headers) ==> res == Ok(Plain(r.response))
    ensures SomeLineAnnouncesJson(r.headers) && lib.jsonDecode(DecodeInput(r.response)).Ok? ==>
              res == Ok(Json(lib.jsonDecode(DecodeInput(r.response)).value))
    ensures SomeLineAnnouncesJson(r.headers) && lib.jsonDecode(DecodeInput(r.response)).Err? ==>
              && res.Err?
              && JsonErrorPrefix <= res.error.message
              && AllDigits(res.error.message[|JsonErrorPrefix|..])
              && DigitsValue(res.error.message[|JsonErrorPrefix|..]) == lib.jsonDecode(DecodeInput(r.response)).error
  {
    JsonAnnouncedByOneLine(r.headers);
    if AnnouncesJson(r.headers) then
      match lib.jsonDecode(DecodeInput(r.response))
      case Ok(v) => Ok(Json(v))
      case Err(code) =>
        var message := JsonErrorPrefix + NatToString(code);
        assert message[|JsonErrorPrefix|..] == NatToString(code);
        Err(Exception(message, 0))
    else
      Ok(Plain(r.response))
  }

  /** A response without header lines is returned raw. */
  lemma NoHeadersMeansRawBody(lib: Library, response: Payload)
    ensures GetResponseBody(lib, NewResponse(response, [])) == Ok(Plain(response))
  {
  }

  /** Detection ignores case and the header's name: a mixed-case media type
      in any line selects decoding. */
  lemma MixedCaseAnnouncementDecodes(lib: Library, text: string, v: Value)
    requires lib.jsonDecode(text) == Ok(v)
    ensures GetResponseBody(lib, NewResponse(Text(text), ["HTTP/1.1 200 OK", "Content-Type: Application/JSON; charset=UTF-8"]))
              == Ok(Json(v))
  {
    var line := "Content-Type: Application/JSON; charset=UTF-8";
    var low := Lower(line);
    assert low[14..30] == JsonMediaType by {
      forall k | 14 <= k < 30
        ensures low[k] == JsonMediaType[k - 14]
      {
        assert low[k] == LowerChar(line[k]);
      }
    }
    assert OccursAt(low, JsonMediaType, 14);
  }
}
