/**
 The client's response reader (crates/kernway-http-client/src/lib.rs:1054-1121, 1160-1247,
 crates/kernway-http-client/src/compress.rs:12-34): it waits for the blank line, cuts the
 head into spans, decides how the body is framed, reads it and undoes its encoding.
 */
module HttpClient {
  import opened Common
  import opened Text
  import opened Fields
  import opened HttpWire
  import S = Streams
  import Chunked

  const BLANK_LINE: Bytes := [13, 10, 13, 10]
  const U16_MAX: nat := 0xFFFF

  // ---- Trimming --------------------------------------------------------------

  predicate Blank(b: byte) {
    b == SPACE || b == TAB
  }

  function SkipBlank(s: Bytes): Bytes {
    if s != [] && Blank(s[0]) then SkipBlank(s[1..]) else s
  }

  function DropBlank(s: Bytes): Bytes {
    if s != [] && Blank(s[|s| - 1]) then DropBlank(s[..|s| - 1]) else s
  }

  function TrimBlank(s: Bytes): Bytes {
    DropBlank(SkipBlank(s))
  }

  datatype Span = Span(start: nat, end: nat)

  /** The range without the spaces and tabs around it. */
  method TrimRange(block: Bytes, start: nat, end: nat) returns (r: Span)
    requires start <= end <= |block|
    ensures start <= r.start <= r.end <= end && block[r.start..r.end] == TrimBlank(block[start..end])
  {
    var a, b := start, end;
    while a < b && Blank(block[a])
      invariant start <= a <= b && SkipBlank(block[a..b]) == SkipBlank(block[start..end])
    {
      assert block[a..b][1..] == block[a + 1..b];
      a := a + 1;
    }
    assert SkipBlank(block[a..b]) == block[a..b];
    while b > a && Blank(block[b - 1])
      invariant a <= b <= end && DropBlank(block[a..b]) == TrimBlank(block[start..end])
    {
      assert block[a..b][..b - a - 1] == block[a..b - 1];
      b := b - 1;
    }
    return Span(a, b);
  }

  // ---- The head --------------------------------------------------------------

  /** The code from a status line: the token after the version. */
  function ParseStatus(line: Bytes): Option<nat> {
    var version := Before(line, SPACE);
    if |version| == |line| then None
    else
      var code := Before(line[|version| + 1..], SPACE);
      if Utf8(code) then ParseUnsigned(code, 10, U16_MAX) else None
  }

  /** The header on a line; one without a colon is dropped. */
  function FieldOf(line: Bytes): seq<Pair> {
    var name := Before(line, COLON);
    if |name| == |line| then [] else [Pair(TrimBlank(name), TrimBlank(line[|name| + 1..]))]
  }

  /** The headers of the lines up to a blank one or an unfinished one. */
  function FieldsOf(s: Bytes): seq<Pair>
    decreases |s|
  {
    match Find(s, CRLF)
    case None => []
    case Some(i) => if i == 0 then [] else FieldOf(s[..i]) + FieldsOf(s[i + 2..])
  }

  datatype HttpError = ClosedBeforeHead | BadStatusLine | BadEncoding | Broken(error: S.ReadError)

  datatype ReplyHead = ReplyHead(status: nat, headers: seq<Pair>)

  function ParseHead(block: Bytes): Result<ReplyHead, HttpError> {
    match Find(block, CRLF)
    case None => Err(BadStatusLine)
    case Some(i) =>
      match ParseStatus(block[..i])
      case None => Err(BadStatusLine)
      case Some(code) => Ok(ReplyHead(code, FieldsOf(block[i + 2..])))
  }

  /** The first value of that name. */
  function FirstMatch(headers: seq<Pair>, name: Bytes): Option<Bytes> {
    if headers == [] then None
    else if SameIgnoringCase(headers[0].name, name) then Some(headers[0].value)
    else FirstMatch(headers[1..], name)
  }

  predicate SaysChunked(headers: seq<Pair>) {
    var v := FirstMatch(headers, Ascii("transfer-encoding"));
    v.Some? && SameIgnoringCase(v.value, Ascii("chunked"))
  }

  /** The length a value declares. */
  function DeclaredLength(value: Option<Bytes>): Option<nat> {
    if value.Some? && Utf8(value.value) then ParseUnsigned(Trim(value.value), 10, USIZE_MAX) else None
  }

  function PlanOf(headers: seq<Pair>): S.BodyPlan {
    if SaysChunked(headers) then S.ChunkedBody
    else
      match DeclaredLength(FirstMatch(headers, Ascii("content-length")))
      case Some(n) => S.Length(n)
      case None => S.UntilClose
  }

  // ---- Reading ---------------------------------------------------------------

  datatype HeadRead = HeadRead(head: Bytes, leftover: Bytes, feed: seq<S.Read>)

  /** Reads until the blank line is there; what came after it is the start of the body. */
  function ReadHead(buf: Bytes, feed: seq<S.Read>): Result<HeadRead, HttpError>
    decreases |feed|
  {
    match Find(buf, BLANK_LINE)
    case Some(i) => Ok(HeadRead(buf[..i + 4], buf[i + 4..], feed))
    case None =>
      if feed == [] then Err(ClosedBeforeHead)
      else if feed[0].Failed? then Err(Broken(S.IoError))
      else ReadHead(buf + feed[0].bytes, feed[1..])
  }

  // ---- Decompression ---------------------------------------------------------

  /** What the codecs make of a body in a coding, if it is not corrupt. */
  type Codec = (Bytes, Bytes) -> Option<Bytes>

  function EncodingHeader(): Bytes {
    Ascii("content-encoding")
  }

  /** The coding a response names. */
  function CodingOf(headers: seq<Pair>): Bytes {
    match FirstMatch(headers, EncodingHeader())
    case None => []
    case Some(v) => if Utf8(v) then LowerAll(Trim(v)) else []
  }

  /** One of the codings the client undoes; it leaves `identity` and unknown ones alone. */
  predicate IsEncoded(headers: seq<Pair>) {
    CodingOf(headers) in [Ascii("gzip"), Ascii("x-gzip"), Ascii("deflate"), Ascii("br")]
  }

  /** The headers without the two that no longer hold. */
  function Decoded(headers: seq<Pair>): seq<Pair> {
    if headers == [] then []
    else if SameIgnoringCase(headers[0].name, EncodingHeader()) ||
            SameIgnoringCase(headers[0].name, Ascii("content-length"))
    then Decoded(headers[1..])
    else [headers[0]] + Decoded(headers[1..])
  }

  /** A response, and whether its body was framed, so that the connection can be kept. */
  datatype Reply = Reply(status: nat, headers: seq<Pair>, body: Bytes, keepable: bool)

  function Decompress(codec: Codec, r: Reply): Result<Reply, HttpError> {
    if !IsEncoded(r.headers) then Ok(r)
    else
      match codec(CodingOf(r.headers), r.body)
      case None => Err(BadEncoding)
      case Some(body) => Ok(r.(headers := Decoded(r.headers), body := body))
  }

  /** The response as it is on the wire, its body not yet decompressed. */
  function ReadEncoded(feed: seq<S.Read>): Result<Reply, HttpError> {
    match ReadHead([], feed)
    case Err(e) => Err(e)
    case Ok(HeadRead(block, leftover, rest)) =>
      match ParseHead(block)
      case Err(e) => Err(e)
      case Ok(ReplyHead(status, headers)) =>
        match S.Buffered(Chunked.ParseSize, PlanOf(headers), leftover, rest)
        case Err(e) => Err(Broken(e))
        case Ok(body) => Ok(Reply(status, headers, body, !PlanOf(headers).UntilClose?))
  }

  function ReadResponse(codec: Codec, feed: seq<S.Read>): Result<Reply, HttpError> {
    match ReadEncoded(feed)
    case Err(e) => Err(e)
    case Ok(r) => Decompress(codec, r)
  }

  /** The response asked to close the connection. */
  predicate SaysClose(headers: seq<Pair>) {
    var v := FirstMatch(headers, Ascii("connection"));
    v.Some? && SameIgnoringCase(v.value, Ascii("close"))
  }

  /**
   A response reported keepable leaves the connection at a clean boundary, all of its body
   read, exactly if the chunks of a chunked one are closed by CRLF and a blank line was read
   behind the zero line: the reader does not wait for it.
   */
  lemma KeepableIsCleanIff(feed: seq<S.Read>)
    requires ReadEncoded(feed).Ok? && ReadEncoded(feed).value.keepable
    ensures var r, head := ReadEncoded(feed).value, ReadHead([], feed).value;
            var plan := PlanOf(r.headers);
            var received := S.StopOf(Chunked.ParseSize, plan, head.leftover, head.feed).received;
            S.AllHere(Chunked.ParseSize, plan, received, r.body) <==> S.EndArrived(Chunked.ParseSize, plan, received)
  {
    var r, head := ReadEncoded(feed).value, ReadHead([], feed).value;
    BoundaryIsCleanIff(PlanOf(r.headers), head.leftover, head.feed, r.body);
  }

  lemma BoundaryIsCleanIff(plan: S.BodyPlan, leftover: Bytes, feed: seq<S.Read>, body: Bytes)
    requires S.Buffered(Chunked.ParseSize, plan, leftover, feed) == Ok(body) && !plan.UntilClose?
    ensures var received := S.StopOf(Chunked.ParseSize, plan, leftover, feed).received;
            S.AllHere(Chunked.ParseSize, plan, received, body) <==> S.EndArrived(Chunked.ParseSize, plan, received)
  {
    var stop := S.StopOf(Chunked.ParseSize, plan, leftover, feed);
    S.StopIsReady(Chunked.ParseSize, plan, leftover, feed);
    S.ReadyIsAllHereIff(Chunked.ParseSize, plan, stop.received, stop.feed == [], body);
  }

  // ---- The reader as the source runs it --------------------------------------

  method ReadHeadLoop(feed: seq<S.Read>) returns (r: Result<HeadRead, HttpError>)
    ensures r == ReadHead([], feed)
  {
    var buf: Bytes, next := [], 0;
    assert feed[0..] == feed;
    while true
      invariant 0 <= next <= |feed| && ReadHead(buf, feed[next..]) == ReadHead([], feed)
      decreases |feed| - next
    {
      var pos := Find(buf, BLANK_LINE);
      if pos.Some? {
        var end := pos.value + 4;
        return Ok(HeadRead(buf[..end], buf[end..], feed[next..]));
      }
      if next == |feed| { return Err(ClosedBeforeHead); }
      if feed[next].Failed? { return Err(Broken(S.IoError)); }
      assert feed[next..][1..] == feed[next + 1..];
      buf, next := buf + feed[next].bytes, next + 1;
    }
  }

  /** A header as two ranges of the head block. */
  datatype HeaderSpan = HeaderSpan(name: Span, value: Span)

  predicate SpanIn(h: HeaderSpan, n: nat) {
    h.name.start <= h.name.end <= n && h.value.start <= h.value.end <= n
  }

  predicate SpansIn(block: Bytes, spans: seq<HeaderSpan>) {
    forall i :: 0 <= i < |spans| ==> SpanIn(spans[i], |block|)
  }

  function TextOf(block: Bytes, h: HeaderSpan): Pair
    requires SpanIn(h, |block|)
  {
    Pair(block[h.name.start..h.name.end], block[h.value.start..h.value.end])
  }

  function TextsOf(block: Bytes, spans: seq<HeaderSpan>): (pairs: seq<Pair>)
    requires SpansIn(block, spans)
    ensures |pairs| == |spans| && forall i :: 0 <= i < |spans| ==> pairs[i] == TextOf(block, spans[i])
  {
    seq(|spans|, i requires 0 <= i < |spans| => TextOf(block, spans[i]))
  }

  /** The spans of one line. */
  method LineSpans(block: Bytes, pos: nat, end: nat) returns (spans: seq<HeaderSpan>)
    requires pos <= end <= |block|
    ensures SpansIn(block, spans)
    ensures TextsOf(block, spans) == FieldOf(block[pos..end])
  {
    var line := block[pos..end];
    var colon := |Before(line, COLON)|;
    BeforeIs(line, COLON);
    if colon == |line| { return []; }
    var name := TrimRange(block, pos, pos + colon);
    var value := TrimRange(block, pos + colon + 1, end);
    assert block[pos..pos + colon] == Before(line, COLON);
    assert block[pos + colon + 1..end] == line[colon + 1..];
    return [HeaderSpan(name, value)];
  }

  lemma FieldsStep(block: Bytes, pos: nat, i: nat)
    requires pos <= |block| && Find(block[pos..], CRLF) == Some(i) && i > 0
    ensures FieldsOf(block[pos..]) == FieldOf(block[pos..pos + i]) + FieldsOf(block[pos + i + 2..])
  {
    LineCut(block, pos, i);
    FieldsUnfold(block[pos..], i, block[pos..pos + i], block[pos + i + 2..]);
  }

  lemma LineCut(block: Bytes, pos: nat, i: nat)
    requires pos + i + 2 <= |block|
    ensures block[pos..][..i] == block[pos..pos + i] && block[pos..][i + 2..] == block[pos + i + 2..]
  {
  }

  lemma FieldsUnfold(s: Bytes, i: nat, line: Bytes, rest: Bytes)
    requires Find(s, CRLF) == Some(i) && i > 0 && s[..i] == line && s[i + 2..] == rest
    ensures FieldsOf(s) == FieldOf(line) + FieldsOf(rest)
  {
  }

  /** Cuts every header line; the spans say the same as the lines' texts. */
  method SpansFrom(block: Bytes, start: nat) returns (spans: seq<HeaderSpan>)
    requires start <= |block|
    ensures SpansIn(block, spans)
    ensures TextsOf(block, spans) == FieldsOf(block[start..])
  {
    spans := [];
    var pos := start;
    ghost var all := FieldsOf(block[start..]);
    ghost var left := all;
    assert TextsOf(block, spans) + left == all;
    while pos < |block|
      invariant start <= pos <= |block|
      invariant SpansIn(block, spans)
      invariant left == FieldsOf(block[pos..]) && TextsOf(block, spans) + left == all
      decreases |block| - pos
    {
      assert TextsOf(block, spans) + [] == TextsOf(block, spans);
      var found := Find(block[pos..], CRLF);
      if found.None? || found.value == 0 { return; }
      var end := pos + found.value;
      FieldsStep(block, pos, found.value);
      var more := LineSpans(block, pos, end);
      left := FieldsOf(block[end + 2..]);
      TextsAppend(block, spans, more, left);
      spans := spans + more;
      pos := end + 2;
    }
    assert TextsOf(block, spans) + [] == TextsOf(block, spans);
  }

  lemma TextsAppend(block: Bytes, a: seq<HeaderSpan>, b: seq<HeaderSpan>, rest: seq<Pair>)
    requires SpansIn(block, a) && SpansIn(block, b)
    ensures SpansIn(block, a + b) && TextsOf(block, a + b) + rest == TextsOf(block, a) + (TextsOf(block, b) + rest)
  {
    assert TextsOf(block, a + b) == TextsOf(block, a) + TextsOf(block, b);
  }

  method ParseHeadSpans(block: Bytes) returns (status: nat, spans: seq<HeaderSpan>, error: Option<HttpError>)
    ensures SpansIn(block, spans)
    ensures ParseHead(block) == if error.Some? then Err(error.value) else Ok(ReplyHead(status, TextsOf(block, spans)))
  {
    var lineEnd := Find(block, CRLF);
    if lineEnd.None? { return 0, [], Some(BadStatusLine); }
    var code := ParseStatus(block[..lineEnd.value]);
    if code.None? { return 0, [], Some(BadStatusLine); }
    spans := SpansFrom(block, lineEnd.value + 2);
    return code.value, spans, None;
  }

  /** `retain`: the headers that still hold after decompression. */
  method DropStale(headers: seq<Pair>) returns (kept: seq<Pair>)
    ensures kept == Decoded(headers)
  {
    kept := [];
    assert headers[0..] == headers;
    for i := 0 to |headers|
      invariant kept + Decoded(headers[i..]) == Decoded(headers)
    {
      assert headers[i..][1..] == headers[i + 1..];
      var stale := SameIgnoringCase(headers[i].name, EncodingHeader()) ||
        SameIgnoringCase(headers[i].name, Ascii("content-length"));
      if !stale {
        Assoc(kept, [headers[i]], Decoded(headers[i + 1..]));
        kept := kept + [headers[i]];
      }
    }
    assert kept + [] == kept;
  }

  method Inflate(codec: Codec, r: Reply) returns (out: Result<Reply, HttpError>)
    ensures out == Decompress(codec, r)
  {
    if !IsEncoded(r.headers) { return Ok(r); }
    var body := codec(CodingOf(r.headers), r.body);
    if body.None? { return Err(BadEncoding); }
    var kept := DropStale(r.headers);
    return Ok(r.(headers := kept, body := body.value));
  }

  method ReceiveEncoded(feed: seq<S.Read>) returns (r: Result<Reply, HttpError>)
    ensures r == ReadEncoded(feed)
  {
    var head := ReadHeadLoop(feed);
    if head.Err? { return Err(head.error); }
    var status, spans, error := ParseHeadSpans(head.value.head);
    if error.Some? { return Err(error.value); }
    var headers := TextsOf(head.value.head, spans);
    var plan := PlanOf(headers);
    var body := S.ReadBody(Chunked.ParseSize, plan, head.value.leftover, head.value.feed);
    if body.Err? { return Err(Broken(body.error)); }
    return Ok(Reply(status, headers, body.value, !plan.UntilClose?));
  }

  method Receive(codec: Codec, feed: seq<S.Read>) returns (r: Result<Reply, HttpError>)
    ensures r == ReadResponse(codec, feed)
  {
    r := ReceiveEncoded(feed);
    if r.Ok? { r := Inflate(codec, r.value); }
  }
}
