/** The proxy's request rules: the URL and method checks applied before a
    request is sent, the outbound header preparation, and the flattening of
    the multi-valued response headers into one string per key.

    The network exchange itself is a parameter of the client: `send` stands
    for `httpClient.Do` plus reading the body and timing the call, and
    `newRequestError` for the checks `http.NewRequest` makes of the method
    and URL. Header keys are taken to be in canonical form already, so
    `Header.Set` and `Header.Get` use them as they are. */
module Proxy {
  import opened Common
  import opened Models

  /** net/http's `Header`: each key carries a list of values. */
  type Header = map<string, seq<string>>

  const ContentType := "Content-Type"
  const ApplicationJson := "application/json"
  const ValueSeparator := ", "
  const ValidMethods := ["GET", "POST", "PUT", "DELETE", "PATCH", "HEAD", "OPTIONS"]
  const UrlRequired := "URL is required"
  const UrlScheme := "URL must start with http:// or https://"
  const InvalidMethod := "invalid HTTP method: "

  // ------------------------------------------------------------ validation

  function ValidateURL(url: string): (r: Outcome)
    ensures r == Pass <==> HasPrefix(url, "http://") || HasPrefix(url, "https://")
    ensures url == "" ==> r == Fail(UrlRequired)
    ensures url != "" && r.Fail? ==> r == Fail(UrlScheme)
  {
    if url == "" then Fail(UrlRequired)
    else if !HasPrefix(url, "http://") && !HasPrefix(url, "https://") then Fail(UrlScheme)
    else Pass
  }

  /** A text that differs from `prefix` at some position within both does
      not start with it. */
  lemma DiffersAt(s: string, prefix: string, i: nat)
    requires i < |s| && i < |prefix| && s[i] != prefix[i]
    ensures !HasPrefix(s, prefix)
  {
    if |prefix| <= |s| {
      assert s[..|prefix|][i] != prefix[i];
    }
  }

  /** The scheme test is literal and case-sensitive, and nothing after the
      scheme is looked at. */
  lemma ValidateURLCases()
    ensures ValidateURL("http://example.com") == Pass
    ensures ValidateURL("https://example.com") == Pass
    ensures ValidateURL("http://") == Pass
    ensures ValidateURL("") == Fail(UrlRequired)
    ensures ValidateURL("not-a-url") == Fail(UrlScheme)
    ensures ValidateURL("ftp://example.com") == Fail(UrlScheme)
    ensures ValidateURL("HTTP://example.com") == Fail(UrlScheme)
  {
    assert HasPrefix("http://example.com", "http://");
    DiffersAt("https://example.com", "http://", 4);
    assert "https://example.com"[..8] == "https://";
    DiffersAt("not-a-url", "http://", 0);
    DiffersAt("not-a-url", "https://", 0);
    DiffersAt("ftp://example.com", "http://", 0);
    DiffersAt("ftp://example.com", "https://", 0);
    DiffersAt("HTTP://example.com", "http://", 0);
    DiffersAt("HTTP://example.com", "https://", 0);
  }

  /** strings.ToUpper on one character, restricted to ASCII. */
  function UpperChar(c: char): char
  {
    if 'a' <= c <= 'z' then (c as int - 32) as char else c
  }

  function ToUpper(s: string): (r: string)
    ensures |r| == |s|
    ensures forall i :: 0 <= i < |s| ==> r[i] == UpperChar(s[i])
  {
    if s == [] then [] else [UpperChar(s[0])] + ToUpper(s[1..])
  }

  lemma ToUpperIdempotent(s: string)
    ensures ToUpper(ToUpper(s)) == ToUpper(s)
  {
    var u := ToUpper(s);
    assert forall i :: 0 <= i < |u| ==> UpperChar(u[i]) == u[i];
  }

  /** The method is upper-cased first; the error names the upper-cased form. */
  function ValidateMethod(httpMethod: string): (r: Outcome)
    ensures r == Pass <==> ToUpper(httpMethod) in ValidMethods
    ensures r.Fail? ==> r.message == InvalidMethod + ToUpper(httpMethod)
  {
    var upper := ToUpper(httpMethod);
    if Contains(ValidMethods, upper) then Pass else Fail(InvalidMethod + upper)
  }

  /** Case does not matter: a method and its upper-case form get the same verdict. */
  lemma ValidateMethodIgnoresCase(httpMethod: string)
    ensures ValidateMethod(httpMethod) == ValidateMethod(ToUpper(httpMethod))
  {
    ToUpperIdempotent(httpMethod);
  }

  /** Lower-case "get" is accepted. */
  lemma ValidateMethodAcceptsLowerCase()
    ensures ValidateMethod("get") == Pass
  {
    assert ToUpper("get") == "GET" by {
      assert ToUpper("get")[0] == 'G' && ToUpper("get")[1] == 'E' && ToUpper("get")[2] == 'T';
    }
  }

  /** The empty method is rejected and the message ends right after the colon. */
  lemma ValidateMethodRejectsEmpty()
    ensures ValidateMethod("") == Fail("invalid HTTP method: ")
  {
  }

  /** Text without lower-case letters is its own upper case. */
  lemma UpperOfUpper(s: string)
    requires forall i :: 0 <= i < |s| ==> !('a' <= s[i] <= 'z')
    ensures ToUpper(s) == s
  {
  }

  lemma ValidateMethodRejectsUnknown()
    ensures ValidateMethod("INVALID") == Fail(InvalidMethod + "INVALID")
  {
    UpperOfUpper("INVALID");
    assert !Contains(ValidMethods, "INVALID");
  }

  // ------------------------------------------------------------ header values

  /** strings.Join */
  function Join(values: seq<string>, sep: string): (r: string)
    ensures values == [] ==> r == ""
    ensures |values| == 1 ==> r == values[0]
    ensures values != [] ==> HasPrefix(r, values[0])
  {
    if values == [] then ""
    else if |values| == 1 then values[0]
    else values[0] + sep + Join(values[1..], sep)
  }

  /** Joining one more value appends the separator and that value. */
  lemma {:induction false} JoinSnoc(values: seq<string>, v: string, sep: string)
    requires values != []
    ensures Join(values + [v], sep) == Join(values, sep) + sep + v
    decreases |values|
  {
    if |values| == 1 {
      assert (values + [v])[1..] == [v];
    } else {
      assert (values + [v])[1..] == values[1..] + [v];
      JoinSnoc(values[1..], v, sep);
    }
  }

  /** Flattening loses the boundaries: a value that itself contains the
      separator reads the same as two values. */
  lemma JoinLossy()
    ensures Join(["a, b"], ValueSeparator) == Join(["a", "b"], ValueSeparator)
  {
  }

  /** Header.Get: the first value under the key, or "" when there is none. */
  function HeaderGet(h: Header, key: string): (r: string)
    ensures key in h && h[key] != [] ==> r == h[key][0]
    ensures key !in h || h[key] == [] ==> r == ""
  {
    if key in h && |h[key]| > 0 then h[key][0] else ""
  }

  /** What CopyHeaders computes, for use in specifications. */
  ghost function Flatten(src: Header): map<string, string>
  {
    map k | k in src :: Join(src[k], ValueSeparator)
  }

  /** `CopyHeaders` (and the same loop at the end of `ExecuteRequest`): one
      entry per key of `src`, its values joined by ", ", so a single-valued
      header comes through unchanged. */
  method CopyHeaders(src: Header) returns (headers: map<string, string>)
    ensures headers == Flatten(src)
    ensures headers.Keys == src.Keys
    ensures forall k :: k in src ==> headers[k] == Join(src[k], ValueSeparator)
    ensures forall k :: k in src && |src[k]| == 1 ==> headers[k] == src[k][0]
  {
    headers := map[];
    var pending := src.Keys;
    while pending != {}
      invariant pending <= src.Keys
      invariant headers.Keys == src.Keys - pending
      invariant forall k :: k in headers ==> headers[k] == Join(src[k], ValueSeparator)
      decreases pending
    {
      var key :| key in pending;
      headers := headers[key := Join(src[key], ValueSeparator)];
      pending := pending - {key};
    }
  }

  // ------------------------------------------------------------ outbound request

  /** `headers` laid over `base`, each as a single value (Header.Set per key). */
  function Overlay(base: Header, headers: map<string, string>): Header
  {
    base + map k | k in headers :: [headers[k]]
  }

  /** The header of a freshly built outbound request after the supplied
      headers are set and Content-Type is defaulted. */
  function OutboundHeader(headers: map<string, string>, body: string): (h: Header)
    ensures h.Keys == headers.Keys + (if body != "" then {ContentType} else {})
    ensures forall k :: k in headers && k != ContentType ==> h[k] == [headers[k]]
    ensures ContentType in headers && (headers[ContentType] != "" || body == "") ==>
              h[ContentType] == [headers[ContentType]]
    ensures body != "" && (ContentType !in headers || headers[ContentType] == "") ==>
              h[ContentType] == [ApplicationJson]
  {
    var h := Overlay(map[], headers);
    if body != "" && HeaderGet(h, ContentType) == "" then h[ContentType := [ApplicationJson]] else h
  }

  /** Without a body the outbound header is exactly the supplied headers;
      with one, Content-Type is the only key that may be added, and a
      supplied non-empty Content-Type is never replaced. */
  lemma OutboundHeaderAddsOnlyContentType(headers: map<string, string>, body: string)
    ensures body == "" ==> OutboundHeader(headers, body) == Overlay(map[], headers)
    ensures forall k :: k in OutboundHeader(headers, body) && k !in headers ==>
              k == ContentType && body != "" && OutboundHeader(headers, body)[k] == [ApplicationJson]
    ensures ContentType in headers && headers[ContentType] != "" ==>
              HeaderGet(OutboundHeader(headers, body), ContentType) == headers[ContentType]
  {
  }

  /** The method `http.NewRequest` records: an empty method means GET. */
  function RequestMethod(httpMethod: string): (m: string)
    ensures m != ""
    ensures httpMethod != "" ==> m == httpMethod
  {
    if httpMethod == "" then "GET" else httpMethod
  }

  /** The default never applies to a method that passed ValidateMethod: the
      proxy forwards exactly the method it validated. */
  lemma ValidatedMethodKept(httpMethod: string)
    requires ValidateMethod(httpMethod) == Pass
    ensures RequestMethod(httpMethod) == httpMethod
  {
    ValidateMethodRejectsEmpty();
  }

  /** The request `http.NewRequest` builds: its header starts empty. */
  class HttpRequest {
    var httpMethod: string
    var url: string
    var header: Header
    var body: string

    constructor (httpMethod: string, url: string, body: string)
      ensures this.httpMethod == (if httpMethod == "" then "GET" else httpMethod)
      ensures this.url == url && this.body == body
      ensures header == map[]
    {
      this.httpMethod, this.url, this.body := RequestMethod(httpMethod), url, body;
      header := map[];
    }

    /** Header.Set: the key now holds just this one value. */
    method Set(key: string, value: string)
      modifies this
      ensures header == old(header)[key := [value]]
      ensures httpMethod == old(httpMethod) && url == old(url) && body == old(body)
    {
      header := header[key := [value]];
    }

    function Get(key: string): string
      reads this
    {
      HeaderGet(header, key)
    }
  }

  /** The supplied headers whose keys are not in `pending`. */
  function Done(headers: map<string, string>, pending: set<string>): map<string, string>
  {
    map k | k in headers && k !in pending :: headers[k]
  }

  /** Setting one more supplied header extends the overlay by that key. */
  lemma OverlayStep(base: Header, headers: map<string, string>, pending: set<string>, key: string)
    requires key in pending && key in headers
    ensures Overlay(base, Done(headers, pending - {key})) == Overlay(base, Done(headers, pending))[key := [headers[key]]]
  {
    var done := Done(headers, pending);
    assert Done(headers, pending - {key}) == done[key := headers[key]];
    OverlayUpdate(base, done, key, headers[key]);
  }

  /** Overlaying one more entry replaces that one key. */
  lemma OverlayUpdate(base: Header, m: map<string, string>, key: string, value: string)
    ensures Overlay(base, m[key := value]) == Overlay(base, m)[key := [value]]
  {
    var a := Overlay(base, m[key := value]);
    var b := Overlay(base, m)[key := [value]];
    assert a.Keys == b.Keys;
  }

  lemma OverlayEnds(base: Header, headers: map<string, string>)
    ensures Overlay(base, Done(headers, headers.Keys)) == base
    ensures Overlay(base, Done(headers, {})) == Overlay(base, headers)
  {
    assert Done(headers, headers.Keys) == map[];
    assert Done(headers, {}) == headers;
  }

  /** Sets each supplied header on the request, replacing what the key held. */
  method SetHeaders(req: HttpRequest, headers: map<string, string>)
    modifies req
    ensures req.header == Overlay(old(req.header), headers)
    ensures req.httpMethod == old(req.httpMethod) && req.url == old(req.url) && req.body == old(req.body)
  {
    ghost var base := req.header;
    OverlayEnds(base, headers);
    var pending := headers.Keys;
    while pending != {}
      invariant pending <= headers.Keys
      invariant req.header == Overlay(base, Done(headers, pending))
      invariant req.httpMethod == old(req.httpMethod) && req.url == old(req.url) && req.body == old(req.body)
      decreases pending
    {
      var key :| key in pending;
      OverlayStep(base, headers, pending, key);
      req.Set(key, headers[key]);
      pending := pending - {key};
    }
  }

  /** The outbound request as handed to the transport. */
  datatype Outbound = Outbound(httpMethod: string, url: string, header: Header, body: string)

  /** What the transport returns: status, multi-valued headers, the body read
      in full, and the elapsed time in milliseconds. */
  datatype RawResponse = RawResponse(statusCode: int, header: Header, body: string, elapsedMs: int)

  /** The JSON body of a proxy call. */
  datatype ProxyRequest = ProxyRequest(httpMethod: string, url: string, headers: map<string, string>, body: string)

  class Client {
    /** The HTTP client's timeout, in seconds. */
    const timeoutSeconds: nat
    /** The error `http.NewRequest` reports for this method and URL, if any. */
    const newRequestError: (string, string) -> Option<string>
    /** One network exchange, with the timeout above. */
    const send: Outbound -> Result<RawResponse>

    /** NewClient */
    constructor (newRequestError: (string, string) -> Option<string>, send: Outbound -> Result<RawResponse>)
      ensures timeoutSeconds == 30
      ensures this.newRequestError == newRequestError && this.send == send
    {
      timeoutSeconds := 30;
      this.newRequestError, this.send := newRequestError, send;
    }

    /** The response one call yields for these request fields: a request-building
        or transport error as it is, or the transport's answer with its headers
        flattened. */
    ghost function Exchange(httpMethod: string, url: string, headers: map<string, string>, body: string)
      : Result<Response>
    {
      match newRequestError(httpMethod, url)
      case Some(e) => Err(e)
      case None =>
        match send(Outbound(RequestMethod(httpMethod), url, OutboundHeader(headers, body), body))
        case Err(e) => Err(e)
        case Ok(raw) => Ok(Response(raw.statusCode, Flatten(raw.header), raw.body, raw.elapsedMs))
    }

    /** Builds the outbound request from the saved request's method, URL,
        headers and body, sends it, and flattens the answer's headers. */
    method ExecuteRequest(req: Request) returns (r: Result<Response>)
      ensures r == Exchange(req.httpMethod, req.url, req.headers, req.body)
      ensures newRequestError(req.httpMethod, req.url).Some? ==>
                r == Err(newRequestError(req.httpMethod, req.url).value)
      ensures r.Ok? ==>
                send(Outbound(RequestMethod(req.httpMethod), req.url, OutboundHeader(req.headers, req.body), req.body)).Ok?
    {
      var failure := newRequestError(req.httpMethod, req.url);
      if failure.Some? {
        return Err(failure.value);
      }
      var httpReq := new HttpRequest(req.httpMethod, req.url, req.body);
      SetHeaders(httpReq, req.headers);
      if req.body != "" && httpReq.Get(ContentType) == "" {
        httpReq.Set(ContentType, ApplicationJson);
      }
      assert httpReq.header == OutboundHeader(req.headers, req.body);
      var answer := send(Outbound(httpReq.httpMethod, httpReq.url, httpReq.header, httpReq.body));
      if answer.Err? {
        return Err(answer.error);
      }
      var headers := CopyHeaders(answer.value.header);
      assert headers == Flatten(answer.value.header);
      r := Ok(Response(answer.value.statusCode, headers, answer.value.body, answer.value.elapsedMs));
    }

    /** Forwards exactly the method, URL, headers and body of the proxy call. */
    method ProxyRequest(p: ProxyRequest) returns (r: Result<Response>)
      ensures r == Exchange(p.httpMethod, p.url, p.headers, p.body)
    {
      r := ExecuteRequest(Request(0, "", None, p.httpMethod, p.url, p.headers, p.body, 0, 0));
    }
  }
}
