/**
 The server's response encoder (crates/kernway-http/src/writer.rs:20-172): the status line,
 the response's headers without the two the writer sets itself, those two, and the
 body.
 */
module HttpWriter {
  import opened Text
  import opened Fields
  import opened HttpWire

  datatype Connection = Close | KeepAlive

  /** A response whose body is at hand; the status is a 16-bit number. */
  datatype Response = Response(status: nat, headers: seq<Pair>, body: Bytes)

  function ConnectionName(): Bytes {
    Ascii("connection")
  }

  function LengthName(): Bytes {
    Ascii("content-length")
  }

  function ConnectionValue(c: Connection): Bytes {
    if c.Close? then Ascii("close") else Ascii("keep-alive")
  }

  function SuccessWords(code: nat): (s: string)
    ensures Printable(s)
  {
    match code
    case 200 => "OK"
    case 201 => "Created"
    case 204 => "No Content"
    case 206 => "Partial Content"
    case 304 => "Not Modified"
    case _ => "Unknown"
  }

  function RequestWords(code: nat): (s: string)
    ensures Printable(s)
  {
    match code
    case 400 => "Bad Request"
    case 401 => "Unauthorized"
    case 403 => "Forbidden"
    case 404 => "Not Found"
    case 405 => "Method Not Allowed"
    case _ => "Unknown"
  }

  function RefusalWords(code: nat): (s: string)
    ensures Printable(s)
  {
    match code
    case 416 => "Range Not Satisfiable"
    case 422 => "Unprocessable Entity"
    case 429 => "Too Many Requests"
    case _ => "Unknown"
  }

  function ServerWords(code: nat): (s: string)
    ensures Printable(s)
  {
    match code
    case 500 => "Internal Server Error"
    case 503 => "Service Unavailable"
    case _ => "Unknown"
  }

  function StatusWords(code: nat): (s: string)
    ensures Printable(s)
  {
    if code < 400 then SuccessWords(code)
    else if code <= 405 then RequestWords(code)
    else if code < 500 then RefusalWords(code)
    else ServerWords(code)
  }

  function StatusText(code: nat): Bytes {
    Ascii(StatusWords(code))
  }

  function VersionText(): Bytes {
    Ascii("HTTP/1.1")
  }

  function StatusLine(code: nat): Bytes {
    VersionText() + [SPACE] + (Digits(code) + [SPACE] + StatusText(code))
  }

  /** The two headers the writer sets itself, and so takes from no response. */
  predicate IsTransport(name: Bytes) {
    SameIgnoringCase(name, ConnectionName()) || SameIgnoringCase(name, LengthName())
  }

  function Kept(headers: seq<Pair>): seq<Pair> {
    if headers == [] then []
    else (if IsTransport(headers[0].name) then [] else [headers[0]]) + Kept(headers[1..])
  }

  /** The headers on the wire, in order. */
  function Sent(r: Response, c: Connection, length: nat): seq<Pair> {
    Kept(r.headers) + [Pair(LengthName(), Digits(length)), Pair(ConnectionName(), ConnectionValue(c))]
  }

  function HeadLines(r: Response, c: Connection, length: nat): seq<Bytes> {
    [StatusLine(r.status)] + HeaderLines(Sent(r, c, length))
  }

  function Head(r: Response, c: Connection, length: nat): Bytes {
    Wire(HeadLines(r, c, length)) + CRLF
  }

  // ---- The encoder as the source runs it -------------------------------------

  lemma {:induction false} HeaderLinesAppend(a: seq<Pair>, b: seq<Pair>)
    ensures HeaderLines(a + b) == HeaderLines(a) + HeaderLines(b)
  {
  }

  /** One more line. */
  lemma WireOne(lines: seq<Bytes>, line: Bytes)
    ensures Wire(lines + [line]) == Wire(lines) + line + CRLF
  {
    WireAppend(lines, [line]);
    assert Wire([line][1..]) == [];
    assert Wire([line]) == line + CRLF;
    assert Wire(lines) + (line + CRLF) == Wire(lines) + line + CRLF;
  }

  method AppendHeader(out: Bytes, name: Bytes, value: Bytes, ghost lines: seq<Bytes>, ghost front: Bytes)
      returns (r: Bytes)
    requires out == front + Wire(lines)
    ensures r == front + Wire(lines + [HeaderLine(Pair(name, value))])
  {
    r := out + name;
    r := r + [COLON, SPACE];
    r := r + value;
    r := r + CRLF;
    var line := HeaderLine(Pair(name, value));
    WireOne(lines, line);
    assert r == front + (Wire(lines) + line + CRLF);
  }

  lemma KeptStep(headers: seq<Pair>, i: nat)
    requires i < |headers|
    ensures Kept(headers[..i + 1]) == Kept(headers[..i]) + if IsTransport(headers[i].name) then [] else [headers[i]]
  {
    KeptAppend(headers[..i], [headers[i]]);
    assert headers[..i + 1] == headers[..i] + [headers[i]];
    var one := [headers[i]];
    assert one[1..] == [];
  }

  lemma {:induction false} KeptAppend(a: seq<Pair>, b: seq<Pair>)
    ensures Kept(a + b) == Kept(a) + Kept(b)
  {
    if a == [] {
      assert a + b == b;
    } else {
      KeptAppend(a[1..], b);
      assert (a + b)[1..] == a[1..] + b;
      Assoc(if IsTransport(a[0].name) then [] else [a[0]], Kept(a[1..]), Kept(b));
    }
  }

  lemma StatusLineShape(out: Bytes, version: Bytes, digits: Bytes, text: Bytes)
    ensures out + version + [SPACE] + digits + [SPACE] + text + CRLF ==
            out + Wire([version + [SPACE] + (digits + [SPACE] + text)])
  {
    var line := version + [SPACE] + (digits + [SPACE] + text);
    WireOne([], line);
    assert [] + [line] == [line];
  }

  /** Appends the status line and the response's own headers. */
  method EncodeOwn(out: Bytes, r: Response) returns (out': Bytes)
    requires r.status < 0x1_0000
    ensures out' == out + Wire([StatusLine(r.status)] + HeaderLines(Kept(r.headers)))
  {
    var digits := Itoa(r.status);
    out' := out + VersionText() + [SPACE] + digits + [SPACE];
    out' := out' + StatusText(r.status);
    out' := out' + CRLF;
    StatusLineShape(out, VersionText(), digits, StatusText(r.status));
    out' := EncodeKept(out', r.headers, StatusLine(r.status), out);
  }

  /** Appends the headers that are not the transport's. */
  method EncodeKept(out: Bytes, headers: seq<Pair>, ghost line: Bytes, ghost front: Bytes) returns (out': Bytes)
    requires out == front + Wire([line])
    ensures out' == front + Wire([line] + HeaderLines(Kept(headers)))
  {
    out' := out;
    assert [line] + HeaderLines(Kept(headers[..0])) == [line];
    for i := 0 to |headers|
      invariant out' == front + Wire([line] + HeaderLines(Kept(headers[..i])))
    {
      KeptLines(line, headers, i);
      if !IsTransport(headers[i].name) {
        out' := AppendHeader(out', headers[i].name, headers[i].value, [line] + HeaderLines(Kept(headers[..i])), front);
      }
    }
    assert headers[..|headers|] == headers;
  }

  lemma KeptLines(line: Bytes, headers: seq<Pair>, i: nat)
    requires i < |headers|
    ensures IsTransport(headers[i].name) ==> Kept(headers[..i + 1]) == Kept(headers[..i])
    ensures !IsTransport(headers[i].name) ==>
      [line] + HeaderLines(Kept(headers[..i + 1])) ==
        [line] + HeaderLines(Kept(headers[..i])) + [HeaderLine(headers[i])]
  {
    KeptStep(headers, i);
    var kept, p := Kept(headers[..i]), headers[i];
    if IsTransport(p.name) { assert kept + [] == kept; } else { HeaderLinesAppend(kept, [p]); }
  }

  lemma SentLines(line: Bytes, kept: seq<Pair>, a: Pair, b: Pair)
    ensures [line] + HeaderLines(kept + [a, b]) == [line] + HeaderLines(kept) + [HeaderLine(a)] + [HeaderLine(b)]
  {
    HeaderLinesAppend(kept, [a, b]);
  }

  method EncodeHeadInto(out: Bytes, r: Response, c: Connection, length: nat) returns (out': Bytes)
    requires r.status < 0x1_0000 && length <= USIZE_MAX
    ensures out' == out + Head(r, c, length)
  {
    out' := EncodeOwn(out, r);
    var digits := Itoa(length);
    ghost var line, kept := StatusLine(r.status), Kept(r.headers);
    ghost var own := [line] + HeaderLines(kept);
    ghost var first := Pair(LengthName(), digits);
    out' := AppendHeader(out', LengthName(), digits, own, out);
    out' := AppendHeader(out', ConnectionName(), ConnectionValue(c), own + [HeaderLine(first)], out);
    SentLines(line, kept, first, Pair(ConnectionName(), ConnectionValue(c)));
    out' := out' + CRLF;
    Assoc(out, Wire(HeadLines(r, c, length)), CRLF);
  }

  method EncodeResponse(r: Response, c: Connection) returns (out: Bytes)
    requires r.status < 0x1_0000 && |r.body| <= USIZE_MAX
    ensures out == Head(r, c, |r.body|) + r.body
  {
    out := EncodeHeadInto([], r, c, |r.body|);
    assert [] + Head(r, c, |r.body|) == Head(r, c, |r.body|);
    out := out + r.body;
  }
}
