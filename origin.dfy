/** The same-origin guard in front of the API routes. A request to a path
    under `/api` is let through only when the origin it claims (its Origin
    header, or else the scheme and host of its Referer) is one of the three
    loopback spellings of the server's own port, or when it claims none at
    all; every other path is let through unchecked.

    `url.Parse` is a parameter: it either fails or yields the scheme and
    host (with its port) of the text it is given. */
module Origin {
  import opened Common
  import opened Models

  const InvalidOrigin := "Forbidden: Invalid origin"
  const StatusForbidden := 403

  // ------------------------------------------------------------ routes

  function IsAPIRoute(path: string): (r: bool)
    ensures r <==> path == "/api" || HasPrefix(path, "/api/")
  {
    path == "/api" || (|path| > 4 && path[..5] == "/api/")
  }

  lemma IsAPIRouteCases()
    ensures IsAPIRoute("/api") && IsAPIRoute("/api/requests") && IsAPIRoute("/api/")
    ensures !IsAPIRoute("/apifoo") && !IsAPIRoute("/") && !IsAPIRoute("/index.html") && !IsAPIRoute("")
  {
    assert "/api/requests"[..5] == "/api/";
    assert "/apifoo"[..5][4] != "/api/"[4];
    assert "/index.html"[..5][1] != "/api/"[1];
  }

  // ------------------------------------------------------------ decimal ports

  function Digit(d: nat): char
    requires d < 10
  {
    "0123456789"[d]
  }

  predicate IsDigit(c: char)
  {
    '0' <= c <= '9'
  }

  /** fmt's `%d` of a non-negative number: no leading zeros. */
  function NatDecimal(n: nat): (s: string)
    ensures |s| >= 1 && forall i :: 0 <= i < |s| ==> IsDigit(s[i])
    ensures (s[0] == '0') <==> n == 0
    decreases n
  {
    if n < 10 then [Digit(n)] else NatDecimal(n / 10) + [Digit(n % 10)]
  }

  /** fmt's `%d` of any int: a minus sign, then the digits of the magnitude. */
  function Decimal(n: int): (s: string)
    ensures s != []
    ensures s[0] == '-' <==> n < 0
  {
    if n < 0 then "-" + NatDecimal(-n) else NatDecimal(n)
  }

  lemma DigitInjective(a: nat, b: nat)
    requires a < 10 && b < 10 && Digit(a) == Digit(b)
    ensures a == b
  {
  }

  /** The last digit is the remainder by ten; the digits before it spell
      the quotient. */
  lemma NatDecimalSplit(n: nat)
    ensures var s := NatDecimal(n);
      && s[|s| - 1] == Digit(n % 10)
      && (n < 10 <==> |s| == 1)
      && (n >= 10 ==> s[..|s| - 1] == NatDecimal(n / 10))
  {
    if n >= 10 {
      var s := NatDecimal(n);
      assert s == NatDecimal(n / 10) + [Digit(n % 10)];
    }
  }

  /** Different numbers are written differently. */
  lemma {:induction false} NatDecimalInjective(a: nat, b: nat)
    requires NatDecimal(a) == NatDecimal(b)
    ensures a == b
    decreases a
  {
    NatDecimalSplit(a);
    NatDecimalSplit(b);
    DigitInjective(a % 10, b % 10);
    if a >= 10 && b >= 10 {
      NatDecimalInjective(a / 10, b / 10);
    }
  }

  /** The number a string of decimal digits denotes, most significant first. */
  function DigitsValue(s: string): int
  {
    if s == [] then 0 else DigitsValue(s[..|s| - 1]) * 10 + (s[|s| - 1] as int - '0' as int)
  }

  /** The number a `%d` text denotes: an optional minus sign, then digits. */
  function SignedValue(s: string): int
  {
    if s != [] && s[0] == '-' then -DigitsValue(s[1..]) else DigitsValue(s)
  }

  lemma DigitDenotes(d: nat)
    requires d < 10
    ensures Digit(d) as int - '0' as int == d
  {
  }

  /** The digits NatDecimal writes spell the number itself. */
  lemma {:induction false} NatDecimalDenotes(n: nat)
    ensures DigitsValue(NatDecimal(n)) == n
    decreases n
  {
    var s := NatDecimal(n);
    NatDecimalSplit(n);
    DigitDenotes(n % 10);
    if n >= 10 {
      NatDecimalDenotes(n / 10);
      assert DigitsValue(s) == DigitsValue(NatDecimal(n / 10)) * 10 + n % 10;
    } else {
      assert s[..0] == [];
    }
  }

  /** Decimal writes the number itself, sign included. */
  lemma DecimalDenotes(n: int)
    ensures SignedValue(Decimal(n)) == n
  {
    if n < 0 {
      var m: nat := -n;
      NatDecimalDenotes(m);
      assert Decimal(n) == "-" + NatDecimal(m);
      assert ("-" + NatDecimal(m))[1..] == NatDecimal(m);
    } else {
      NatDecimalDenotes(n);
    }
  }

  /** Different ports are written differently, whatever their sign: each
      text reads back as its own number. */
  lemma DecimalInjective(a: int, b: int)
    requires Decimal(a) == Decimal(b)
    ensures a == b
  {
    DecimalDenotes(a);
    DecimalDenotes(b);
  }

  lemma Decimal8080()
    ensures Decimal(8080) == "8080"
  {
    assert NatDecimal(8) == "8";
    assert NatDecimal(80) == "80";
    assert NatDecimal(808) == "808";
  }

  // ------------------------------------------------------------ allowed origins

  const Localhost := "http://localhost:"
  const Loopback4 := "http://127.0.0.1:"
  const Loopback6 := "http://[::1]:"

  function AllowedOrigins(port: int): seq<string>
  {
    [Localhost + Decimal(port), Loopback4 + Decimal(port), Loopback6 + Decimal(port)]
  }

  /** Exact match against one of the three loopback origins for the port. */
  function IsAllowedOrigin(origin: string, allowedPort: int): (r: bool)
    ensures r <==> (|| origin == Localhost + Decimal(allowedPort)
                    || origin == Loopback4 + Decimal(allowedPort)
                    || origin == Loopback6 + Decimal(allowedPort))
  {
    Contains(AllowedOrigins(allowedPort), origin)
  }

  /** Every allowed origin is plain http and ends with a colon followed by
      the port's digits. */
  lemma AllowedIsPlainHttp(origin: string, port: int)
    requires IsAllowedOrigin(origin, port)
    ensures HasPrefix(origin, "http://") && !HasPrefix(origin, "https://")
    ensures var d := Decimal(port); |origin| > |d| && origin[|origin| - |d| - 1..] == ":" + d
  {
    var d := Decimal(port);
    var p :| p in {Localhost, Loopback4, Loopback6} && origin == p + d;
    PlainHttpPrefix(p, d);
    assert p[|p| - 1] == ':';
    assert origin[|origin| - |d| - 1..] == p[|p| - 1..] + d;
  }

  /** Each loopback prefix followed by a non-empty port is a plain http origin. */
  lemma PlainHttpPrefix(p: string, d: string)
    requires p in {Localhost, Loopback4, Loopback6} && d != []
    ensures HasPrefix(p + d, "http://") && !HasPrefix(p + d, "https://")
  {
    assert (p + d)[..7] == p[..7] == "http://";
    assert (p + d)[4] == ':';
  }

  /** The three prefixes first differ at their eighth character. */
  lemma PrefixesDiffer(o: string, p: string, q: string, d: string, e: string)
    requires p in {Localhost, Loopback4, Loopback6} && q in {Localhost, Loopback4, Loopback6}
    requires o == p + d && o == q + e
    ensures p == q && d == e
  {
    assert o[7] == p[7] == q[7];
    assert o[..|p|] == p && o[..|q|] == q;
    assert d == o[|p|..] && e == o[|q|..];
  }

  /** An allowed origin names exactly one port. */
  lemma AllowedOriginDeterminesPort(origin: string, p1: int, p2: int)
    requires IsAllowedOrigin(origin, p1) && IsAllowedOrigin(origin, p2)
    ensures p1 == p2
  {
    var d1, d2 := Decimal(p1), Decimal(p2);
    var a :| a in {Localhost, Loopback4, Loopback6} && origin == a + d1;
    var b :| b in {Localhost, Loopback4, Loopback6} && origin == b + d2;
    PrefixesDiffer(origin, a, b, d1, d2);
    DecimalInjective(p1, p2);
  }

  /** The empty origin and the port-less localhost are never allowed. */
  lemma RejectsEmptyAndPortless(port: int)
    ensures !IsAllowedOrigin("", port)
    ensures !IsAllowedOrigin("http://localhost", port)
  {
    assert (Loopback6 + Decimal(port))[7] == '[';
  }

  /** The three loopback spellings of port 8080 are allowed. */
  lemma AllowedOn8080()
    ensures IsAllowedOrigin("http://localhost:8080", 8080)
    ensures IsAllowedOrigin("http://127.0.0.1:8080", 8080)
    ensures IsAllowedOrigin("http://[::1]:8080", 8080)
  {
    Decimal8080();
  }

  /** The https scheme and another port are refused on port 8080. */
  lemma RefusedOn8080()
    ensures !IsAllowedOrigin("https://localhost:8080", 8080)
    ensures !IsAllowedOrigin("http://localhost:3000", 8080)
    ensures !IsAllowedOrigin("http://evil.com", 8080)
  {
    Decimal8080();
    var h := "https://localhost:8080";
    assert h[4] != (Localhost + "8080")[4];
    assert h[4] != (Loopback4 + "8080")[4];
    assert h[4] != (Loopback6 + "8080")[4];
    var o := "http://localhost:3000";
    assert o[17] != (Localhost + "8080")[17];
    assert o[7] != (Loopback4 + "8080")[7];
    assert o[7] != (Loopback6 + "8080")[7];
    var evil := "http://evil.com";
    assert evil[7] != (Localhost + "8080")[7];
    assert evil[7] != (Loopback4 + "8080")[7];
    assert evil[7] != (Loopback6 + "8080")[7];
  }

  // ------------------------------------------------------------ the middleware

  /** What `url.Parse` yields that the guard reads. */
  datatype Url = Url(scheme: string, host: string)

  /** The origin the request claims: its Origin header, or else, when the
      Referer parses, `scheme://host` of the Referer, or else none (""). */
  function EffectiveOrigin(parse: string -> Option<Url>, originHeader: string, referer: string): (o: string)
    ensures originHeader != "" ==> o == originHeader
    ensures originHeader == "" && (referer == "" || parse(referer).None?) ==> o == ""
    ensures originHeader == "" && referer != "" && parse(referer).Some? ==>
              o == parse(referer).value.scheme + "://" + parse(referer).value.host
  {
    if originHeader != "" then originHeader
    else if referer != "" then
      match parse(referer)
      case Some(u) => u.scheme + "://" + u.host
      case None => ""
    else ""
  }

  /** A Referer that parses always yields a claimed origin, even one with
      neither scheme nor host. */
  lemma ParsedRefererClaimsOrigin(parse: string -> Option<Url>, referer: string)
    requires referer != "" && parse(referer).Some?
    ensures EffectiveOrigin(parse, "", referer) != ""
    ensures |EffectiveOrigin(parse, "", referer)| >= 3
  {
  }

  datatype Verdict = Next | Deny(status: int, body: ErrorResponse)

  /** OriginValidator(allowedPort) applied to one request. */
  function OriginValidator(allowedPort: int, parse: string -> Option<Url>,
                           path: string, originHeader: string, referer: string): (v: Verdict)
    ensures !IsAPIRoute(path) ==> v == Next
    ensures v.Deny? ==> v == Deny(StatusForbidden, NewErrorResponse(InvalidOrigin))
    ensures v.Deny? <==> (&& IsAPIRoute(path)
                          && EffectiveOrigin(parse, originHeader, referer) != ""
                          && !IsAllowedOrigin(EffectiveOrigin(parse, originHeader, referer), allowedPort))
  {
    if !IsAPIRoute(path) then Next
    else
      var origin := EffectiveOrigin(parse, originHeader, referer);
      if origin == "" then Next
      else if !IsAllowedOrigin(origin, allowedPort) then
        Deny(StatusForbidden, NewErrorResponse(InvalidOrigin))
      else Next
  }

  /** A request the guard lets through claims no origin or an allowed one. */
  lemma PassedRequestsAreLocal(port: int, parse: string -> Option<Url>, path: string,
                               originHeader: string, referer: string)
    requires IsAPIRoute(path) && OriginValidator(port, parse, path, originHeader, referer) == Next
    ensures var o := EffectiveOrigin(parse, originHeader, referer);
            o == "" || HasPrefix(o, "http://")
  {
    var o := EffectiveOrigin(parse, originHeader, referer);
    if o != "" {
      AllowedIsPlainHttp(o, port);
    }
  }

  /** An https Origin is always refused on an API route. */
  lemma HttpsOriginDenied(port: int, parse: string -> Option<Url>, path: string,
                          originHeader: string, referer: string)
    requires IsAPIRoute(path) && HasPrefix(originHeader, "https://")
    ensures OriginValidator(port, parse, path, originHeader, referer).Deny?
  {
    if IsAllowedOrigin(originHeader, port) {
      AllowedIsPlainHttp(originHeader, port);
      assert false;
    }
  }

  /** With no Origin, a Referer that parses with neither scheme nor host
      (a relative reference) is refused, while no Referer at all passes. */
  lemma SchemelessRefererDenied(port: int, parse: string -> Option<Url>, path: string, referer: string)
    requires IsAPIRoute(path) && referer != "" && parse(referer) == Some(Url("", ""))
    ensures OriginValidator(port, parse, path, "", referer).Deny?
    ensures OriginValidator(port, parse, path, "", "") == Next
  {
    var o := EffectiveOrigin(parse, "", referer);
    assert o == "://";
    if IsAllowedOrigin(o, port) {
      AllowedIsPlainHttp(o, port);
      assert false;
    }
  }

  /** The middleware's unit-test scenarios, on port 8080: an allowed Origin
      and a non-API path pass, a foreign Origin is refused. */
  lemma OriginValidatorOriginCases(parse: string -> Option<Url>)
    ensures OriginValidator(8080, parse, "/api/requests", "http://localhost:8080", "") == Next
    ensures OriginValidator(8080, parse, "/api/requests", "http://evil.com", "")
         == Deny(403, ErrorResponse(["Forbidden: Invalid origin"]))
    ensures OriginValidator(8080, parse, "/index.html", "http://evil.com", "") == Next
  {
    IsAPIRouteCases();
    AllowedOn8080();
    RefusedOn8080();
  }

  /** The scheme and host of the local page spell the first allowed origin. */
  lemma LocalPageOrigin()
    ensures "http" + "://" + "localhost:8080" == Localhost + Decimal(8080)
  {
    Decimal8080();
  }

  /** A Referer of the local page yields the local origin. */
  lemma LocalRefererOrigin(parse: string -> Option<Url>)
    requires parse("http://localhost:8080/some-page") == Some(Url("http", "localhost:8080"))
    ensures EffectiveOrigin(parse, "", "http://localhost:8080/some-page") == Localhost + Decimal(8080)
  {
    LocalPageOrigin();
  }

  /** Without an Origin: an allowed Referer passes, and so does a request
      with neither header. */
  lemma OriginValidatorRefererCases(parse: string -> Option<Url>)
    requires parse("http://localhost:8080/some-page") == Some(Url("http", "localhost:8080"))
    ensures OriginValidator(8080, parse, "/api/requests", "", "http://localhost:8080/some-page") == Next
    ensures OriginValidator(8080, parse, "/api/requests", "", "") == Next
  {
    IsAPIRouteCases();
    LocalRefererOrigin(parse);
    assert AllowedOrigins(8080)[0] == Localhost + Decimal(8080);
  }
}
