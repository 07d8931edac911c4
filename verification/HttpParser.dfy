/**
 The HTTP/1.1 request parser (crates/kernway-http/src/parser.rs:84-237, 313-337): it
 decodes a request from a buffer that may not hold all of it yet.

 The head is decoded as a function of its own bytes; the results are that more bytes
 never change what is decoded, so a pipelined stream gives the same requests however it
 arrives.
 */
module HttpParser {
  import opened Common
  import opened Text
  import opened Fields

  const MAX_HEAD_BYTES: nat := 8192
  const MAX_BODY_BYTES: nat := 10_485_760
  const QUESTION: byte := 63
  const AMPERSAND: byte := 38
  const EQUALS_SIGN: byte := 61

  datatype ParseError = BadRequestLine | TooLarge

  datatype Version = Http10 | Http11

  datatype Request = Request(verb: Bytes, path: Bytes, version: Version, query: seq<Pair>, headers: seq<Pair>,
      body: Bytes)

  // ---- Lines -----------------------------------------------------------------

  /** The bytes after the first `sep`. */
  function Beyond(s: Bytes, sep: byte): (r: Bytes)
    ensures |r| <= |s|
  {
    var first := Before(s, sep);
    if |first| < |s| then s[|first| + 1..] else []
  }

  datatype HeadEnd = HeadEnd(length: nat, lines: nat)

  function StripCR(line: Bytes): Bytes {
    if line != [] && line[|line| - 1] == CR then line[..|line| - 1] else line
  }

  predicate IsBlankLine(line: Bytes) {
    line == [] || line == [CR]
  }

  /** The length of a head up to and including its blank line, and how many lines come before it. */
  function FindHead(s: Bytes): (r: Option<HeadEnd>)
    ensures r.Some? ==> 0 < r.value.length <= |s|
    decreases |s|
  {
    var line := Before(s, LF);
    if |line| == |s| then None
    else if IsBlankLine(line) then Some(HeadEnd(|line| + 1, 0))
    else
      match FindHead(s[|line| + 1..])
      case None => None
      case Some(HeadEnd(n, k)) => Some(HeadEnd(|line| + 1 + n, k + 1))
  }

  /** `str::lines`, each line with its carriage return, which trimming removes. */
  function Lines(s: Bytes): seq<Bytes>
    decreases |s|
  {
    if s == [] then []
    else
      var line := Before(s, LF);
      if |line| == |s| then [line] else [line] + Lines(s[|line| + 1..])
  }

  // ---- The request line ------------------------------------------------------

  datatype RequestLine = RequestLine(verb: Bytes, path: Bytes, query: seq<Pair>, version: Version)

  function UpperAll(s: Bytes): (r: Bytes)
    ensures |r| == |s|
  {
    seq(|s|, i requires 0 <= i < |s| => Upper(s[i]))
  }

  function HTTP10(): Bytes {
    Ascii("HTTP/1.0")
  }

  function ParseRequestLine(line: Bytes): Result<RequestLine, ParseError> {
    var verb := Before(line, SPACE);
    if |verb| == |line| || verb == [] then Err(BadRequestLine)
    else
      var rest := line[|verb| + 1..];
      var target := Before(rest, SPACE);
      Ok(RequestLine(UpperAll(verb), Before(target, QUESTION), ParseQuery(Beyond(target, QUESTION)),
        VersionOf(rest, target)))
  }

  /** The version behind the target; a missing one counts as 1.0. */
  function VersionOf(rest: Bytes, target: Bytes): Version
    requires |target| <= |rest|
  {
    if |target| == |rest| || Trim(rest[|target| + 1..]) == HTTP10() then Http10 else Http11
  }

  /** One `key=value` of a query string; one without a key is dropped. */
  function QueryPair(part: Bytes): seq<Pair> {
    var key := Before(part, EQUALS_SIGN);
    if key == [] then [] else [Pair(key, Beyond(part, EQUALS_SIGN))]
  }

  function QueryPairs(parts: seq<Bytes>): seq<Pair> {
    if parts == [] then [] else QueryPair(parts[0]) + QueryPairs(parts[1..])
  }

  function ParseQuery(query: Bytes): seq<Pair> {
    QueryPairs(Split(query, AMPERSAND))
  }

  // ---- The headers -----------------------------------------------------------

  /** The pair on a trimmed header line; a line without a colon is dropped. */
  function HeaderPair(line: Bytes): seq<Pair> {
    var name := Before(line, COLON);
    if |name| == |line| then [] else [Pair(LowerAll(Trim(name)), Trim(line[|name| + 1..]))]
  }

  /** Header lines up to the first that is blank. */
  function HeaderPairs(lines: seq<Bytes>): seq<Pair> {
    if lines == [] || Trim(lines[0]) == [] then []
    else HeaderPair(Trim(lines[0])) + HeaderPairs(lines[1..])
  }

  function ContentLengthName(): Bytes {
    Ascii("content-length")
  }

  /** The declared body length: the last such header, 0 if it is absent or no number. */
  function ContentLength(headers: seq<Pair>): nat {
    match Lookup(true, headers, ContentLengthName())
    case None => 0
    case Some(v) =>
      match ParseUnsigned(v, 10, USIZE_MAX)
      case None => 0
      case Some(n) => n
  }

  // ---- A request in a buffer -------------------------------------------------

  /** Decodes a whole head, as a function of its bytes alone. */
  function DecodeHead(head: Bytes): Result<Request, ParseError> {
    if !Utf8(head) then Err(BadRequestLine)
    else
      var lines := Lines(head);
      match ParseRequestLine(Trim(if lines == [] then [] else lines[0]))
      case Err(e) => Err(e)
      case Ok(RequestLine(verb, path, query, version)) =>
        Ok(Request(verb, path, version, query, HeaderPairs(if lines == [] then [] else lines[1..]), []))
  }

  datatype Outcome = Complete(request: Request, consumed: nat) | Incomplete | Failed(error: ParseError)

  /** Adds the body of `len` bytes after a head of `n`. */
  function WithBody(buf: Bytes, n: nat, request: Request, len: nat): (o: Outcome)
    requires 0 < n <= |buf|
    ensures o.Complete? ==> 0 < o.consumed <= |buf|
  {
    if len > MAX_BODY_BYTES then Failed(TooLarge)
    else if |buf| < n + len then Incomplete
    else Complete(request.(body := buf[n..n + len]), n + len)
  }

  function WithHead(buf: Bytes, n: nat, head: Result<Request, ParseError>): (o: Outcome)
    requires 0 < n <= |buf|
    ensures o.Complete? ==> 0 < o.consumed <= |buf|
  {
    match head
    case Err(e) => Failed(e)
    case Ok(request) => WithBody(buf, n, request, ContentLength(request.headers))
  }

  function ParseBytes(buf: Bytes): (o: Outcome)
    ensures o.Complete? ==> 0 < o.consumed <= |buf|
  {
    match FindHead(buf)
    case None => if |buf| > MAX_HEAD_BYTES then Failed(TooLarge) else Incomplete
    case Some(HeadEnd(n, _)) =>
      if n > MAX_HEAD_BYTES then Failed(TooLarge) else WithHead(buf, n, DecodeHead(buf[..n]))
  }

  // ---- More bytes change nothing ---------------------------------------------

  /** The head end of a buffer, given that of what follows its first `pos` bytes and `lines` lines. */
  function Later(rest: Option<HeadEnd>, pos: nat, lines: nat): Option<HeadEnd> {
    if rest.None? then None else Some(HeadEnd(pos + rest.value.length, lines + rest.value.lines))
  }

  lemma FindHeadUnfold(line: Bytes, rest: Bytes)
    requires LF !in line
    ensures FindHead(line + [LF] + rest) ==
            if IsBlankLine(line) then Some(HeadEnd(|line| + 1, 0)) else Later(FindHead(rest), |line| + 1, 1)
  {
    BeforeStops(line, LF, rest);
    assert (line + [LF] + rest)[|line| + 1..] == rest;
  }

  /** A buffer with a head has a first line. */
  lemma FirstLine(s: Bytes) returns (line: Bytes, rest: Bytes)
    requires FindHead(s).Some?
    ensures s == line + [LF] + rest && LF !in line
    ensures FindHead(s) ==
            if IsBlankLine(line) then Some(HeadEnd(|line| + 1, 0)) else Later(FindHead(rest), |line| + 1, 1)
  {
    line := Before(s, LF);
    rest := s[|line| + 1..];
    BeforeIs(s, LF);
    BeforeIsNext(s, LF);
  }

  lemma {:induction false} FindHeadExtends(s: Bytes, more: Bytes)
    requires FindHead(s).Some?
    ensures FindHead(s + more) == FindHead(s)
    decreases |s|
  {
    var line, rest := FirstLine(s);
    assert s + more == line + [LF] + (rest + more);
    FindHeadUnfold(line, rest + more);
    if !IsBlankLine(line) { FindHeadExtends(rest, more); }
  }

  /** With the head at hand, only a wait for the body can end differently with more bytes. */
  lemma WithHeadExtends(buf: Bytes, more: Bytes, n: nat, head: Result<Request, ParseError>)
    requires 0 < n <= |buf|
    ensures WithHead(buf, n, head) != Incomplete ==> WithHead(buf + more, n, head) == WithHead(buf, n, head)
    ensures WithHead(buf + more, n, head).Complete? && |buf| < WithHead(buf + more, n, head).consumed ==>
      WithHead(buf, n, head) == Incomplete
  {
    if head.Ok? {
      var len := ContentLength(head.value.headers);
      if n + len <= |buf| { assert (buf + more)[n..n + len] == buf[n..n + len]; }
    }
  }

  /** A completed parse is the same with any bytes behind it. */
  lemma CompleteExtends(buf: Bytes, more: Bytes)
    requires ParseBytes(buf).Complete?
    ensures ParseBytes(buf + more) == ParseBytes(buf)
  {
    FindHeadExtends(buf, more);
    var n := FindHead(buf).value.length;
    assert (buf + more)[..n] == buf[..n];
    WithHeadExtends(buf, more, n, DecodeHead(buf[..n]));
  }

  /** So is a failed one. */
  lemma FailedExtends(buf: Bytes, more: Bytes)
    requires ParseBytes(buf).Failed?
    ensures ParseBytes(buf + more) == ParseBytes(buf)
  {
    if FindHead(buf).Some? {
      FindHeadExtends(buf, more);
      var n := FindHead(buf).value.length;
      assert (buf + more)[..n] == buf[..n];
      WithHeadExtends(buf, more, n, DecodeHead(buf[..n]));
    } else if FindHead(buf + more).Some? {
      LaterHead(buf, more);
    }
  }

  /** A head that is not there yet ends beyond the bytes at hand. */
  lemma LaterHead(buf: Bytes, more: Bytes)
    requires FindHead(buf).None? && FindHead(buf + more).Some?
    ensures FindHead(buf + more).value.length > |buf|
  {
    assert (buf + more)[..|buf|] == buf;
    if FindHead(buf + more).value.length <= |buf| { EarlierHead(buf + more, |buf|); }
  }

  lemma EarlierHead(s: Bytes, k: nat)
    requires FindHead(s).Some? && FindHead(s).value.length <= k <= |s|
    ensures FindHead(s[..k]) == FindHead(s)
  {
    var n := FindHead(s).value.length;
    HeadStandsAlone(s);
    FindHeadExtends(s[..n], s[n..k]);
    CutAt(s, n, k);
  }

  /** A head is found in its own bytes. */
  lemma {:induction false} HeadStandsAlone(s: Bytes)
    requires FindHead(s).Some?
    ensures FindHead(s[..FindHead(s).value.length]) == FindHead(s)
    decreases |s|
  {
    var line, rest := FirstLine(s);
    var n := FindHead(s).value.length;
    var m := n - |line| - 1;
    if IsBlankLine(line) {
      FindHeadUnfold(line, []);
      assert s[..n] == line + [LF] + [];
    } else {
      HeadStandsAlone(rest);
      FindHeadUnfold(line, rest[..m]);
      assert s[..n] == line + [LF] + rest[..m];
    }
  }

  /** Before the last byte of a request has arrived, the parser waits. */
  lemma PrefixIsIncomplete(buf: Bytes, k: nat)
    requires ParseBytes(buf).Complete? && k < ParseBytes(buf).consumed
    ensures ParseBytes(buf[..k]) == Incomplete
  {
    var n, start := FindHead(buf).value.length, buf[..k];
    assert buf == start + buf[k..];
    if FindHead(start).Some? {
      FindHeadExtends(start, buf[k..]);
      assert start[..n] == buf[..n];
      HeadWaits(start, buf[k..], n, DecodeHead(buf[..n]));
    } else {
      LaterHead(start, buf[k..]);
    }
  }

  /** With the head there but not all of the body, the parser waits. */
  lemma HeadWaits(start: Bytes, more: Bytes, n: nat, head: Result<Request, ParseError>)
    requires FindHead(start).Some? && FindHead(start).value.length == n <= MAX_HEAD_BYTES &&
      DecodeHead(start[..n]) == head
    requires WithHead(start + more, n, head).Complete? && |start| < WithHead(start + more, n, head).consumed
    ensures ParseBytes(start) == Incomplete
  {
    WithHeadExtends(start, more, n, head);
  }

  // ---- The parser as the source runs it --------------------------------------

  lemma LineShape(buf: Bytes, pos: nat, end: nat)
    requires pos <= end < |buf| && end - pos == |Before(buf[pos..], LF)|
    ensures LF !in buf[pos..end] && buf[pos..] == buf[pos..end] + [LF] + buf[end + 1..]
  {
    var s := buf[pos..];
    BeforeIs(s, LF);
    BeforeIsNext(s, LF);
    assert Before(s, LF) == buf[pos..end] && s[end - pos + 1..] == buf[end + 1..];
  }

  lemma FindHeadStep(buf: Bytes, pos: nat, lines: nat, end: nat)
    requires pos <= end <= |buf| && end - pos == |Before(buf[pos..], LF)|
    ensures Later(FindHead(buf[pos..]), pos, lines) ==
            if end == |buf| then None
            else if IsBlankLine(buf[pos..end]) then Some(HeadEnd(end + 1, lines))
            else Later(FindHead(buf[end + 1..]), end + 1, lines + 1)
  {
    if end < |buf| {
      LineShape(buf, pos, end);
      FindHeadUnfold(buf[pos..end], buf[end + 1..]);
    }
  }

  lemma StripCRBlank(line: Bytes)
    ensures StripCR(line) == [] <==> IsBlankLine(line)
  {
    if line != [] && line[|line| - 1] == CR { assert line == line[..|line| - 1] + [CR]; }
  }

  method FindHeadEnd(buf: Bytes) returns (r: Option<HeadEnd>)
    ensures r == FindHead(buf)
  {
    var pos: nat, lines: nat := 0, 0;
    assert buf[0..] == buf;
    ghost var found := FindHead(buf);
    while true
      invariant pos <= |buf| && Later(FindHead(buf[pos..]), pos, lines) == found
      decreases |buf| - pos
    {
      var done;
      done, pos, lines := LineTurn(buf, pos, lines, found);
      if done.Some? { return done.value; }
    }
    assert false;
  }

  /** Once round the scan: the answer, or a line further. */
  method LineTurn(buf: Bytes, pos: nat, lines: nat, ghost found: Option<HeadEnd>)
      returns (done: Option<Option<HeadEnd>>, pos': nat, lines': nat)
    requires pos <= |buf| && Later(FindHead(buf[pos..]), pos, lines) == found
    ensures done.Some? ==> done.value == found
    ensures done.None? ==> pos < pos' <= |buf| && Later(FindHead(buf[pos'..]), pos', lines') == found
  {
    var end := pos + |Before(buf[pos..], LF)|;
    FindHeadStep(buf, pos, lines, end);
    if end == |buf| { return Some(None), pos, lines; }
    var line := StripCR(buf[pos..end]);
    StripCRBlank(buf[pos..end]);
    if line == [] { return Some(Some(HeadEnd(end + 1, lines))), pos, lines; }
    return None, end + 1, lines + 1;
  }

  /** Appends one `key=value`. */
  method AddParam(params: FieldSet, part: Bytes)
    requires params.Valid() && !params.ignoreCase && |params.buf| + |part| < MAX_TEXT
    modifies params
    ensures params.Valid() && params.Pairs() == old(params.Pairs()) + QueryPair(part)
    ensures |params.buf| <= old(|params.buf|) + |part|
  {
    var key := Before(part, EQUALS_SIGN);
    if key != [] {
      params.AppendPair(key, Beyond(part, EQUALS_SIGN));
    }
  }

  method ParseQueryString(query: Bytes) returns (params: FieldSet)
    requires |query| < MAX_TEXT
    ensures fresh(params) && params.Valid() && !params.ignoreCase && params.Pairs() == ParseQuery(query)
  {
    params := new FieldSet(false);
    var parts := Split(query, AMPERSAND);
    SplitLength(query, AMPERSAND);
    assert parts[0..] == parts;
    AddParams(params, parts);
    assert [] + QueryPairs(parts) == QueryPairs(parts);
  }

  /** Appends every part. */
  method AddParams(params: FieldSet, parts: seq<Bytes>)
    requires params.Valid() && !params.ignoreCase && |params.buf| + TotalLength(parts) < MAX_TEXT
    modifies params
    ensures params.Valid() && params.Pairs() == old(params.Pairs()) + QueryPairs(parts)
  {
    ghost var goal := params.Pairs() + QueryPairs(parts);
    assert parts[0..] == parts;
    for i := 0 to |parts|
      invariant params.Valid() && params.Pairs() + QueryPairs(parts[i..]) == goal
      invariant |params.buf| + TotalLength(parts[i..]) < MAX_TEXT
    {
      assert parts[i..][1..] == parts[i + 1..];
      AppendThen(params.Pairs(), QueryPair(parts[i]), QueryPairs(parts[i + 1..]));
      if parts[i] != [] { AddParam(params, parts[i]); }
    }
    assert params.Pairs() + [] == params.Pairs();
  }

  ghost function TotalLength(parts: seq<Bytes>): nat {
    if parts == [] then 0 else |parts[0]| + TotalLength(parts[1..])
  }

  lemma {:induction false} SplitLength(s: Bytes, sep: byte)
    ensures TotalLength(Split(s, sep)) <= |s|
    decreases |s|
  {
    var first := Before(s, sep);
    if |first| < |s| {
      SplitLength(s[|first| + 1..], sep);
      assert Split(s, sep)[1..] == Split(s[|first| + 1..], sep);
    }
  }

  /** Appends the pair on one trimmed line. */
  method AddHeader(headers: FieldSet, trimmed: Bytes)
    requires headers.Valid() && headers.ignoreCase && |headers.buf| + |trimmed| < MAX_TEXT
    modifies headers
    ensures headers.Valid() && headers.Pairs() == old(headers.Pairs()) + HeaderPair(trimmed)
    ensures |headers.buf| <= old(|headers.buf|) + |trimmed|
  {
    var name := Before(trimmed, COLON);
    if |name| < |trimmed| {
      headers.AppendPair(Trim(name), Trim(trimmed[|name| + 1..]));
    }
  }

  method ParseHeaderLines(lines: seq<Bytes>) returns (headers: FieldSet)
    requires TotalLength(lines) < MAX_TEXT
    ensures fresh(headers) && headers.Valid() && headers.ignoreCase && headers.Pairs() == HeaderPairs(lines)
  {
    headers := new FieldSet(true);
    var i := 0;
    ghost var all := HeaderPairs(lines);
    assert lines[0..] == lines;
    while i < |lines|
      invariant 0 <= i <= |lines|
      invariant fresh(headers) && headers.Valid() && headers.ignoreCase
      invariant headers.Pairs() + HeaderPairs(lines[i..]) == all
      invariant |headers.buf| + TotalLength(lines[i..]) <= TotalLength(lines)
    {
      var trimmed := Trim(lines[i]);
      assert headers.Pairs() + [] == headers.Pairs();
      if trimmed == [] { return; }
      assert lines[i..][1..] == lines[i + 1..];
      AppendThen(headers.Pairs(), HeaderPair(trimmed), HeaderPairs(lines[i + 1..]));
      AddHeader(headers, trimmed);
      i := i + 1;
    }
    assert headers.Pairs() + [] == headers.Pairs();
  }

  lemma AppendThen(a: seq<Pair>, b: seq<Pair>, c: seq<Pair>)
    ensures a + (b + c) == a + b + c
  {}

  lemma {:induction false} LinesLength(s: Bytes)
    ensures TotalLength(Lines(s)) <= |s|
    decreases |s|
  {
    var line := Before(s, LF);
    if |line| < |s| {
      LinesLength(s[|line| + 1..]);
      assert Lines(s)[1..] == Lines(s[|line| + 1..]);
    }
  }

  method ParseLine(line: Bytes) returns (r: Result<RequestLine, ParseError>)
    requires |line| < MAX_TEXT
    ensures r == ParseRequestLine(line)
  {
    var verb := Before(line, SPACE);
    if |verb| == |line| || verb == [] { return Err(BadRequestLine); }
    var rest := line[|verb| + 1..];
    var target := Before(rest, SPACE);
    var query := ParseQueryString(Beyond(target, QUESTION));
    return Ok(RequestLine(UpperAll(verb), Before(target, QUESTION), query.Pairs(), VersionOf(rest, target)));
  }

  /** The request of a whole head and the body length it declares. */
  method ParseHead(head: Bytes) returns (r: Result<Request, ParseError>, contentLength: nat)
    requires |head| <= MAX_HEAD_BYTES
    ensures r == DecodeHead(head)
    ensures r.Ok? ==> contentLength == ContentLength(r.value.headers)
  {
    contentLength := 0;
    if !Utf8(head) { return Err(BadRequestLine), 0; }
    var lines := Lines(head);
    LinesLength(head);
    var line := ParseLine(Trim(if lines == [] then [] else lines[0]));
    if line.Err? { return Err(line.error), 0; }
    var headers := ParseHeaderLines(if lines == [] then [] else lines[1..]);
    var declared := headers.Get(ContentLengthName());
    if declared.Some? {
      var n := ParseUnsigned(declared.value, 10, USIZE_MAX);
      if n.Some? { contentLength := n.value; }
    }
    r := Ok(Request(line.value.verb, line.value.path, line.value.version, line.value.query, headers.Pairs(), []));
  }

  /** Takes the body behind a head of `n` bytes, if it is all there. */
  method TakeBody(buf: Bytes, n: nat, request: Request, len: nat) returns (o: Outcome)
    requires 0 < n <= |buf|
    ensures o == WithBody(buf, n, request, len)
  {
    if len > MAX_BODY_BYTES { return Failed(TooLarge); }
    var total := n + len;
    if |buf| < total { return Incomplete; }
    return Complete(request.(body := buf[n..total]), total);
  }

  method ParseAfter(buf: Bytes, n: nat) returns (o: Outcome)
    requires 0 < n <= |buf| && n <= MAX_HEAD_BYTES
    ensures o == WithHead(buf, n, DecodeHead(buf[..n]))
  {
    var head, len := ParseHead(buf[..n]);
    if head.Err? { return Failed(head.error); }
    o := TakeBody(buf, n, head.value, len);
  }

  method Parse(buf: Bytes) returns (o: Outcome)
    ensures o == ParseBytes(buf)
  {
    var end := FindHeadEnd(buf);
    if end.None? { return if |buf| > MAX_HEAD_BYTES then Failed(TooLarge) else Incomplete; }
    if end.value.length > MAX_HEAD_BYTES { return Failed(TooLarge); }
    o := ParseAfter(buf, end.value.length);
  }
}
