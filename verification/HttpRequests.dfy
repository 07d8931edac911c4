/**
 The client's request encoder (crates/kernway-http-client/src/lib.rs:148-260, 1371-1422):
 the request line, the headers the caller left out, the caller's headers, and the body.
 */
module HttpRequests {
  import opened Common
  import opened Text
  import opened Fields
  import opened HttpWire
  import opened HttpWriter

  datatype Method = Get | Post | Put | Patch | Delete | Head

  function VerbOf(m: Method): Bytes {
    match m
    case Get => Ascii("GET")
    case Post => Ascii("POST")
    case Put => Ascii("PUT")
    case Patch => Ascii("PATCH")
    case Delete => Ascii("DELETE")
    case Head => Ascii("HEAD")
  }

  /** The port is a 16-bit number. */
  datatype Url = Url(tls: bool, host: Bytes, port: nat, target: Bytes)

  datatype Outbound = Outbound(verb: Method, url: Url, headers: seq<Pair>, body: Bytes)

  /** A request with what the connection adds to it. */
  datatype Dispatch = Dispatch(req: Outbound, keepAlive: bool, cookie: Option<Bytes>)

  predicate Has(headers: seq<Pair>, name: Bytes) {
    exists i :: 0 <= i < |headers| && SameIgnoringCase(headers[i].name, name)
  }

  /** The `Host` value: a port is only added if the scheme does not imply it. */
  function HostValue(url: Url): Bytes {
    if url.port == (if url.tls then 443 else 80) then url.host else url.host + [COLON] + Digits(url.port)
  }

  function Opt(present: bool, name: Bytes, value: Bytes): seq<Pair> {
    if present then [Pair(name, value)] else []
  }

  function HostName(): Bytes {
    Ascii("Host")
  }

  function AgentName(): Bytes {
    Ascii("User-Agent")
  }

  function EncodingName(): Bytes {
    Ascii("Accept-Encoding")
  }

  function CookieName(): Bytes {
    Ascii("Cookie")
  }

  function HostField(req: Outbound): seq<Pair> {
    Opt(!Has(req.headers, HostName()), HostName(), HostValue(req.url))
  }

  function AgentText(): Bytes {
    Ascii("kernway-http-client/0.1")
  }

  function EncodingsText(): Bytes {
    Ascii("gzip, deflate, br")
  }

  function AgentField(req: Outbound): seq<Pair> {
    Opt(!Has(req.headers, AgentName()), AgentName(), AgentText())
  }

  function EncodingField(req: Outbound): seq<Pair> {
    Opt(!Has(req.headers, EncodingName()), EncodingName(), EncodingsText())
  }

  predicate WritesLength(req: Outbound) {
    req.body != [] && !Has(req.headers, LengthName())
  }

  function CookieText(cookie: Option<Bytes>): Bytes {
    if cookie.Some? then cookie.value else []
  }

  function LengthField(req: Outbound): seq<Pair> {
    Opt(WritesLength(req), Ascii("Content-Length"), Digits(|req.body|))
  }

  function ConnectionField(d: Dispatch): seq<Pair> {
    Opt(!Has(d.req.headers, ConnectionName()), Ascii("Connection"),
      ConnectionValue(if d.keepAlive then KeepAlive else Close))
  }

  function CookieField(d: Dispatch): seq<Pair> {
    Opt(CookieText(d.cookie) != [] && !Has(d.req.headers, CookieName()), CookieName(), CookieText(d.cookie))
  }

  function Grouped(a: seq<Pair>, b: seq<Pair>, c: seq<Pair>): seq<Pair> {
    a + b + c
  }

  /** The headers on the wire, in order. */
  function Sent(d: Dispatch): seq<Pair> {
    Grouped(
      Grouped(HostField(d.req), AgentField(d.req), EncodingField(d.req)),
      d.req.headers,
      Grouped(LengthField(d.req), ConnectionField(d), CookieField(d)))
  }

  function RequestLineOf(req: Outbound): Bytes {
    VerbOf(req.verb) + [SPACE] + (req.url.target + [SPACE] + VersionText())
  }

  function HeadOf(d: Dispatch): Bytes {
    Wire([RequestLineOf(d.req)] + HeaderLines(Sent(d))) + CRLF
  }

  function BytesOf(d: Dispatch): Bytes {
    HeadOf(d) + d.req.body
  }

  // ---- The encoder as the source runs it -------------------------------------

  method AppendPairs(out: Bytes, pairs: seq<Pair>, ghost line: Bytes, ghost sent: seq<Pair>) returns (r: Bytes)
    requires out == Wire([line] + HeaderLines(sent))
    ensures r == Wire([line] + HeaderLines(sent + pairs))
  {
    r := out;
    assert sent + pairs[..0] == sent;
    for i := 0 to |pairs|
      invariant r == Wire([line] + HeaderLines(sent + pairs[..i]))
    {
      r := AppendPair(r, pairs[i], line, sent + pairs[..i]);
      OneMorePair(sent, pairs, i);
    }
    assert pairs[..|pairs|] == pairs;
  }

  lemma OneMorePair(sent: seq<Pair>, pairs: seq<Pair>, i: nat)
    requires i < |pairs|
    ensures sent + pairs[..i] + [pairs[i]] == sent + pairs[..i + 1]
  {
  }

  method AppendPair(out: Bytes, p: Pair, ghost line: Bytes, ghost sent: seq<Pair>) returns (r: Bytes)
    requires out == Wire([line] + HeaderLines(sent))
    ensures r == Wire([line] + HeaderLines(sent + [p]))
  {
    Nothing(out);
    r := AppendHeader(out, p.name, p.value, [line] + HeaderLines(sent), []);
    OneMoreLine(line, sent, p);
    Nothing(r);
  }

  lemma Nothing(s: Bytes)
    ensures [] + s == s
  {
  }

  lemma OneMoreLine(line: Bytes, sent: seq<Pair>, p: Pair)
    ensures [line] + HeaderLines(sent + [p]) == [line] + HeaderLines(sent) + [HeaderLine(p)]
    ensures [] + Wire([line] + HeaderLines(sent) + [HeaderLine(p)]) ==
      Wire([line] + HeaderLines(sent) + [HeaderLine(p)])
  {
    HeaderLinesAppend(sent, [p]);
    Nothing(Wire([line] + HeaderLines(sent) + [HeaderLine(p)]));
  }

  method AppendGroups(out: Bytes, a: seq<Pair>, b: seq<Pair>, c: seq<Pair>, ghost line: Bytes, ghost sent: seq<Pair>)
      returns (r: Bytes)
    requires out == Wire([line] + HeaderLines(sent))
    ensures r == Wire([line] + HeaderLines(sent + Grouped(a, b, c)))
  {
    r := AppendPairs(out, a, line, sent);
    r := AppendPairs(r, b, line, sent + a);
    r := AppendPairs(r, c, line, sent + a + b);
    GroupedAppends(sent, a, b, c);
  }

  lemma GroupedAppends(sent: seq<Pair>, a: seq<Pair>, b: seq<Pair>, c: seq<Pair>)
    ensures sent + a + b + c == sent + Grouped(a, b, c)
  {
  }

  method EncodeRequest(d: Dispatch) returns (out: Bytes)
    requires d.req.url.port < 0x1_0000
    ensures out == BytesOf(d)
  {
    var req := d.req;
    var line := RequestLineOf(req);
    out := line + CRLF;
    WireOne([], line);
    assert [] + [line] == [line] + HeaderLines([]);
    ghost var front := Grouped(HostField(req), AgentField(req), EncodingField(req));
    out := AppendGroups(out, HostField(req), AgentField(req), EncodingField(req), line, []);
    assert [] + front == front;
    out := AppendPairs(out, req.headers, line, front);
    out := AppendGroups(out, LengthField(req), ConnectionField(d), CookieField(d), line, front + req.headers);
    out := out + CRLF;
    out := out + req.body;
  }
}
