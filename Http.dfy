/**
 * The parts of an HttpRequestMessage the signing code reads and writes:
 * method, URI, buffered body, the typed Date and Authorization headers,
 * and the other headers as a map from name to their values.
 */
module Http {
  import opened Wrappers

  /** A UTC instant in .NET ticks of 100 ns. */
  type Instant = int

  const TicksPerSecond: int := 10_000_000

  /** The value of an Authorization header: `<scheme> <parameter>` (section 4.2 of RFC 7235).
      A null parameter is represented by the empty string. */
  datatype AuthenticationHeaderValue = AuthenticationHeaderValue(scheme: string, parameter: string)

  datatype RequestHeaders = RequestHeaders(
    date: Option<Instant>,
    authorization: Option<AuthenticationHeaderValue>,
    values: map<string, seq<string>>)

  /**
   * An HTTP request as a value. `uri` is the text of RequestUri.ToString(),
   * the URI in its canonical (already normalised) form; `content` is None
   * when the request has no body.
   */
  datatype Request = Request(httpMethod: string, uri: string, content: Option<string>, headers: RequestHeaders)

  /** The body as a string, "" when there is none. */
  function ContentOrEmpty(content: Option<string>): (s: string)
    ensures content.Some? ==> s == content.value
    ensures content.None? ==> s == ""
  {
    if content.Some? then content.value else ""
  }

  /** The first value of a header, None when the header is absent or has no values. */
  function FirstHeaderValue(headers: RequestHeaders, name: string): (v: Option<string>)
    ensures v.Some? <==> name in headers.values && headers.values[name] != []
    ensures v.Some? ==> v.value == headers.values[name][0]
  {
    if name in headers.values && headers.values[name] != [] then Some(headers.values[name][0]) else None
  }

  /** A request object whose headers are changed in place; `requestUri` is
      RequestUri.ToString(), the canonical form of the request URI. */
  class HttpRequestMessage {
    const httpMethod: string
    const requestUri: string
    const content: Option<string>
    var headers: RequestHeaders

    constructor (httpMethod: string, requestUri: string, content: Option<string>, headers: RequestHeaders)
      ensures Snapshot() == Request(httpMethod, requestUri, content, headers)
    {
      this.httpMethod := httpMethod;
      this.requestUri := requestUri;
      this.content := content;
      this.headers := headers;
    }

    /** The request's current state as a value. */
    function Snapshot(): (r: Request)
      reads this
      ensures r.headers == headers
    {
      Request(httpMethod, requestUri, content, headers)
    }
  }
}
