/**
 What the server's encoder writes, the client reads back: the status, the headers, the
 framing and the body, however the bytes arrive (crates/kernway-http/src/writer.rs:63-105,
 crates/kernway-http-client/src/lib.rs:1054-1121).
 */
module ResponseRoundTrip {
  import opened Common
  import opened Text
  import opened Fields
  import opened HttpWire
  import opened HttpWriter
  import opened HttpClient
  import S = Streams
  import Chunked

  /** A header whose line says only what the header says. */
  predicate CleanHeader(p: Pair) {
    OneLine(p.name) && OneLine(p.value) && COLON !in p.name && BareEdges(p.name) && BareEdges(p.value)
  }

  /** No space or tab at either end. */
  predicate BareEdges(s: Bytes) {
    s == [] || (!Blank(s[0]) && !Blank(s[|s| - 1]))
  }

  predicate CleanHeaders(headers: seq<Pair>) {
    forall i :: 0 <= i < |headers| ==> CleanHeader(headers[i])
  }

  // ---- Finding the lines -----------------------------------------------------

  /** A first line without a carriage return ends at the first CRLF. */
  lemma FirstLine(line: Bytes, rest: Bytes)
    requires CR !in line
    ensures Find(line + CRLF + rest, CRLF) == Some(|line|)
    ensures (line + CRLF + rest)[..|line|] == line && (line + CRLF + rest)[|line| + 2..] == rest
  {
    var s := line + CRLF + rest;
    assert s[|line|..|line| + 2] == CRLF;
    forall j: nat | j < |line| ensures !OccursAt(s, CRLF, j) {
      assert s[j..j + 2][0] == s[j] == line[j];
    }
    FindIs(s, CRLF, |line|);
  }

  /** CRLFCRLF begins at a carriage return, with another two bytes on. */
  lemma NoBlankLine(s: Bytes, j: nat)
    requires j + 4 <= |s| ==> s[j] != CR || s[j + 2] != CR
    ensures !OccursAt(s, BLANK_LINE, j)
  {
    if j + 4 <= |s| {
      var four := s[j..j + 4];
      assert four[0] == s[j] && four[2] == s[j + 2];
    }
  }

  lemma NotBefore(line: Bytes, next: Bytes, j: nat)
    requires CR !in line && next != [] && next[0] != CR && j < |line| + 2
    ensures !OccursAt(line + CRLF + next, BLANK_LINE, j)
  {
    var s := line + CRLF + next;
    if j < |line| { assert s[j] == line[j]; }
    if j == |line| { assert s[j + 2] == next[0]; }
    NoBlankLine(s, j);
  }

  lemma Shifted(front: Bytes, s: Bytes, j: nat)
    requires |front| <= j
    ensures OccursAt(front + s, BLANK_LINE, j) <==> OccursAt(s, BLANK_LINE, j - |front|)
  {
    var k := j - |front|;
    if k + 4 <= |s| { assert (front + s)[j..j + 4] == s[k..k + 4]; }
  }

  lemma LastLineEnds(line: Bytes)
    requires CR !in line
    ensures Find(line + BLANK_LINE, BLANK_LINE) == Some(|line|)
  {
    var s := line + BLANK_LINE;
    assert s[|line|..|line| + 4] == BLANK_LINE;
    forall j: nat | j < |line| ensures !OccursAt(s, BLANK_LINE, j) {
      assert s[j] == line[j];
      NoBlankLine(s, j);
    }
    FindIs(s, BLANK_LINE, |line|);
  }

  lemma MoreLinesEnd(line: Bytes, rest: Bytes, end: nat)
    requires CR !in line && rest != [] && rest[0] != CR && Find(rest, BLANK_LINE) == Some(end)
    ensures Find(line + CRLF + rest, BLANK_LINE) == Some(|line| + 2 + end)
  {
    var front := line + CRLF;
    var s, n := front + rest, |front| + end;
    FindIsFirst(rest, BLANK_LINE);
    forall j: nat | j < n ensures !OccursAt(s, BLANK_LINE, j) {
      if j < |front| { NotBefore(line, rest, j); } else { Shifted(front, rest, j); }
    }
    Shifted(front, rest, n);
    FindIs(s, BLANK_LINE, n);
  }

  /** The blank line that ends a head is the first one in it. */
  lemma {:induction false} HeadEnds(lines: seq<Bytes>)
    requires lines != [] && Plain(lines)
    ensures var s := Wire(lines) + CRLF; |s| >= 4 && Find(s, BLANK_LINE) == Some(|s| - 4)
    decreases |lines|
  {
    var line := lines[0];
    if |lines| == 1 {
      assert Wire(lines[1..]) == [];
      assert Wire(lines) + CRLF == line + BLANK_LINE;
      LastLineEnds(line);
    } else {
      var rest := Wire(lines[1..]) + CRLF;
      assert Wire(lines) + CRLF == line + CRLF + rest;
      HeadEnds(lines[1..]);
      assert rest[0] == lines[1][0];
      MoreLinesEnd(line, rest, |rest| - 4);
    }
  }

  /** However the bytes arrive, the reader stops at the head's end and keeps what follows. */
  lemma {:induction false} HeadIsRead(buf: Bytes, feed: seq<S.Read>, head: Bytes, rest: Bytes)
    requires forall r :: r in feed ==> r.Got?
    requires |head| >= 4 && Find(head, BLANK_LINE) == Some(|head| - 4)
    requires buf + S.Joined(feed) == head + rest
    ensures var r := ReadHead(buf, feed);
            && r.Ok? && r.value.head == head && (forall x :: x in r.value.feed ==> x.Got?)
            && r.value.leftover + S.Joined(r.value.feed) == rest
    decreases |feed|
  {
    FindExtends(head, rest, BLANK_LINE);
    if feed == [] { assert buf + S.Joined(feed) == buf; }
    if Find(buf, BLANK_LINE).Some? {
      FindExtends(buf, S.Joined(feed), BLANK_LINE);
      var n := |head|;
      assert buf[..n] == (head + rest)[..n] == head;
      assert buf[n..] + S.Joined(feed) == (head + rest)[n..] == rest;
    } else {
      assert buf + feed[0].bytes + S.Joined(feed[1..]) == head + rest;
      HeadIsRead(buf + feed[0].bytes, feed[1..], head, rest);
    }
  }

  // ---- Reading the lines -----------------------------------------------------

  lemma BareIsTrimmed(s: Bytes)
    requires BareEdges(s)
    ensures TrimBlank(s) == s && TrimBlank([SPACE] + s) == s
  {
    assert ([SPACE] + s)[1..] == s;
  }

  lemma HeaderIsRead(p: Pair)
    requires CleanHeader(p)
    ensures FieldOf(HeaderLine(p)) == [p]
  {
    var line, after := HeaderLine(p), [SPACE] + p.value;
    assert line == p.name + [COLON] + after;
    BeforeStops(p.name, COLON, after);
    assert line[|p.name| + 1..] == after;
    BareIsTrimmed(p.name);
    BareIsTrimmed(p.value);
  }

  lemma {:induction false} HeadersAreRead(headers: seq<Pair>)
    requires CleanHeaders(headers)
    ensures FieldsOf(Wire(HeaderLines(headers)) + CRLF) == headers
    decreases |headers|
  {
    var s := Wire(HeaderLines(headers)) + CRLF;
    if headers == [] {
      assert s == [] + CRLF + [];
      FirstLine([], []);
    } else {
      var line, rest := HeaderLine(headers[0]), Wire(HeaderLines(headers[1..])) + CRLF;
      assert HeaderLines(headers)[1..] == HeaderLines(headers[1..]);
      assert s == line + CRLF + rest;
      FirstLine(line, rest);
      HeaderIsRead(headers[0]);
      HeadersAreRead(headers[1..]);
      assert headers == [headers[0]] + headers[1..];
    }
  }

  lemma VersionIsPlain()
    ensures VersionText() != [] && OneLine(VersionText()) && SPACE !in VersionText()
  {
  }

  lemma DigitsArePlain(n: nat)
    ensures var s := Digits(n); OneLine(s) && SPACE !in s && BareEdges(s) && Utf8(s) && Trim(s) == s
  {
    DigitsRead(n);
    AsciiIsUtf8(Digits(n));
  }

  lemma CodeIsRead(version: Bytes, digits: Bytes, text: Bytes, code: nat)
    requires OneLine(version) && SPACE !in version && OneLine(digits) && SPACE !in digits && Utf8(digits) &&
      OneLine(text)
    requires ParseUnsigned(digits, 10, U16_MAX) == Some(code)
    ensures var line := version + [SPACE] + (digits + [SPACE] + text);
            ParseStatus(line) == Some(code) && line != [] && OneLine(line)
  {
    var rest := digits + [SPACE] + text;
    var line := version + [SPACE] + rest;
    BeforeStops(version, SPACE, rest);
    assert line[|version| + 1..] == rest;
    BeforeStops(digits, SPACE, text);
  }

  lemma StatusIsRead(code: nat)
    requires code <= U16_MAX
    ensures ParseStatus(StatusLine(code)) == Some(code)
    ensures StatusLine(code) != [] && OneLine(StatusLine(code))
  {
    VersionIsPlain();
    DigitsArePlain(code);
    DigitsParse(code, U16_MAX);
    AsciiIsPlain(StatusWords(code));
    CodeIsRead(VersionText(), Digits(code), StatusText(code), code);
  }

  // ---- Headers and framing ---------------------------------------------------

  lemma {:induction false} KeptIsClean(headers: seq<Pair>)
    requires CleanHeaders(headers)
    ensures CleanHeaders(Kept(headers))
  {
    if headers != [] { KeptIsClean(headers[1..]); }
  }

  /** Nothing the response set stands in the way of the transport's two headers. */
  lemma {:induction false} KeptLeavesRoom(headers: seq<Pair>, more: seq<Pair>, name: Bytes)
    ensures FirstMatch(Kept(headers) + more, name) ==
            if FirstMatch(Kept(headers), name).Some? then FirstMatch(Kept(headers), name) else FirstMatch(more, name)
    ensures IsTransport(name) ==> FirstMatch(Kept(headers), name).None?
    ensures !IsTransport(name) ==> FirstMatch(Kept(headers), name) == FirstMatch(headers, name)
  {
    if headers == [] {
      assert [] + more == more;
    } else {
      KeptLeavesRoom(headers[1..], more, name);
      var kept := Kept(headers[1..]);
      var one := [headers[0]];
      assert one + kept + more == one + (kept + more);
      assert (one + kept)[1..] == kept && (one + (kept + more))[1..] == kept + more;
      assert [] + kept == kept;
    }
  }

  function TransferName(): Bytes {
    Ascii("transfer-encoding")
  }

  /** The three names differ. */
  lemma NamesDiffer()
    ensures !SameIgnoringCase(LengthName(), ConnectionName()) && !SameIgnoringCase(ConnectionName(), LengthName())
    ensures !SameIgnoringCase(LengthName(), TransferName()) && !SameIgnoringCase(ConnectionName(), TransferName())
    ensures !IsTransport(TransferName())
  {
    assert |LengthName()| == 14 && |ConnectionName()| == 10 && |TransferName()| == 17;
  }

  lemma FirstOfTwo(a: Pair, b: Pair, name: Bytes)
    ensures FirstMatch([a, b], name) ==
            if SameIgnoringCase(a.name, name) then Some(a.value)
            else if SameIgnoringCase(b.name, name) then Some(b.value) else None
  {
    assert [a, b][1..] == [b] && [b][1..] == [];
    assert FirstMatch([b], name) == if SameIgnoringCase(b.name, name) then Some(b.value) else None;
  }

  /** The first header of each name among those sent. */
  lemma SentMatches(r: Response, c: Connection, n: nat)
    ensures FirstMatch(Sent(r, c, n), LengthName()) == Some(Digits(n))
    ensures FirstMatch(Sent(r, c, n), ConnectionName()) == Some(ConnectionValue(c))
    ensures FirstMatch(Sent(r, c, n), TransferName()) == FirstMatch(r.headers, TransferName())
  {
    var a, b := Pair(LengthName(), Digits(n)), Pair(ConnectionName(), ConnectionValue(c));
    NamesDiffer();
    KeptLeavesRoom(r.headers, [a, b], LengthName());
    FirstOfTwo(a, b, LengthName());
    KeptLeavesRoom(r.headers, [a, b], ConnectionName());
    FirstOfTwo(a, b, ConnectionName());
    KeptLeavesRoom(r.headers, [a, b], TransferName());
    FirstOfTwo(a, b, TransferName());
  }

  /** The client frames the body by the written length, unless the response claims to be chunked. */
  lemma PlanIsRead(r: Response, c: Connection, n: nat)
    requires n <= USIZE_MAX
    ensures PlanOf(Sent(r, c, n)) == if SaysChunked(r.headers) then S.ChunkedBody else S.Length(n)
  {
    SentMatches(r, c, n);
    DigitsArePlain(n);
    DigitsParse(n, USIZE_MAX);
    assert DeclaredLength(Some(Digits(n))) == Some(n);
  }

  lemma NamesAreClean()
    ensures CleanHeader(Pair(LengthName(), []))
    ensures CleanHeader(Pair(ConnectionName(), []))
  {
  }

  lemma ConnectionValueIsClean(c: Connection)
    ensures OneLine(ConnectionValue(c)) && BareEdges(ConnectionValue(c))
  {
  }

  lemma SentIsClean(r: Response, c: Connection, n: nat)
    requires CleanHeaders(r.headers)
    ensures CleanHeaders(Sent(r, c, n))
  {
    KeptIsClean(r.headers);
    DigitsArePlain(n);
    NamesAreClean();
    ConnectionValueIsClean(c);
  }

  lemma LinesReadBack(line: Bytes, code: nat, headers: seq<Pair>, rest: Bytes)
    requires OneLine(line) && ParseStatus(line) == Some(code) && FieldsOf(rest) == headers
    ensures ParseHead(line + CRLF + rest) == Ok(ReplyHead(code, headers))
  {
    FirstLine(line, rest);
  }

  /** A whole head, nothing behind it, that is read so. */
  predicate IsHead(s: Bytes, code: nat, headers: seq<Pair>) {
    ParseHead(s) == Ok(ReplyHead(code, headers)) && |s| >= 4 && Find(s, BLANK_LINE) == Some(|s| - 4)
  }

  /** A head of plain lines is read as its status and its headers, and ends where it should. */
  lemma BlockReadsBack(line: Bytes, code: nat, headers: seq<Pair>)
    requires line != [] && OneLine(line) && ParseStatus(line) == Some(code) && CleanHeaders(headers)
    ensures IsHead(Wire([line] + HeaderLines(headers)) + CRLF, code, headers)
  {
    HeadersAreRead(headers);
    LinesReadBack(line, code, headers, Wire(HeaderLines(headers)) + CRLF);
    HeadShape(line, HeaderLines(headers));
    PlainLines(line, headers);
    HeadEnds([line] + HeaderLines(headers));
  }

  lemma HeadShape(line: Bytes, lines: seq<Bytes>)
    ensures Wire([line] + lines) + CRLF == line + CRLF + (Wire(lines) + CRLF)
  {
    assert ([line] + lines)[1..] == lines;
    Regroup(line, CRLF, Wire(lines), CRLF);
  }

  lemma PlainLines(line: Bytes, headers: seq<Pair>)
    requires line != [] && OneLine(line) && CleanHeaders(headers)
    ensures Plain([line] + HeaderLines(headers))
  {
    forall i | 0 <= i < |headers| ensures OneLine(HeaderLine(headers[i])) && HeaderLine(headers[i]) != [] {
      assert CleanHeader(headers[i]);
    }
  }

  /** A response of plain lines and a body of the declared length, however it arrives. */
  lemma ReplyReadsBack(head: Bytes, code: nat, headers: seq<Pair>, body: Bytes, feed: seq<S.Read>, more: Bytes)
    requires IsHead(head, code, headers) && PlanOf(headers) == S.Length(|body|)
    requires forall x :: x in feed ==> x.Got?
    requires S.Joined(feed) == head + body + more
    ensures ReadEncoded(feed) == Ok(Reply(code, headers, body, true))
  {
    assert [] + S.Joined(feed) == head + (body + more);
    HeadIsRead([], feed, head, body + more);
    var read := ReadHead([], feed).value;
    LengthIsRead(read.leftover, read.feed, body, more);
  }

  lemma LengthIsRead(leftover: Bytes, feed: seq<S.Read>, body: Bytes, more: Bytes)
    requires (forall x :: x in feed ==> x.Got?) && leftover + S.Joined(feed) == body + more
    ensures S.Buffered(Chunked.ParseSize, S.Length(|body|), leftover, feed) == Ok(body)
  {
    assert (body + more)[..|body|] == body;
    S.BufferedGetsReady(Chunked.ParseSize, S.Length(|body|), leftover, feed, body);
  }

  lemma EncodingIsKept(r: Response, c: Connection, n: nat)
    ensures FirstMatch(Sent(r, c, n), EncodingHeader()) == FirstMatch(r.headers, EncodingHeader())
  {
    var a, b := Pair(LengthName(), Digits(n)), Pair(ConnectionName(), ConnectionValue(c));
    assert |LengthName()| == 14 && |ConnectionName()| == 10 && |EncodingHeader()| == 16;
    KeptLeavesRoom(r.headers, [a, b], EncodingHeader());
    FirstOfTwo(a, b, EncodingHeader());
  }

  lemma CloseIsSaid(c: Connection)
    ensures SameIgnoringCase(ConnectionValue(c), Ascii("close")) <==> c.Close?
  {
    assert |ConnectionValue(KeepAlive)| == 10 && |Ascii("close")| == 5;
  }

  /**
   A clean response written by the server is read by the client as the same status, the
   same headers with the transport's two in place of any the response set, and the same
   body, whatever the reads and whatever follows on the connection. The client may keep the
   connection exactly when the server said it would. The response must not claim to be chunked,
   nor to be encoded in a way the client undoes.
   */
  lemma ResponseReadsBack(codec: Codec, r: Response, c: Connection, feed: seq<S.Read>, more: Bytes)
    requires r.status <= U16_MAX && |r.body| <= USIZE_MAX && CleanHeaders(r.headers)
    requires !SaysChunked(r.headers) && !IsEncoded(r.headers)
    requires forall x :: x in feed ==> x.Got?
    requires S.Joined(feed) == Head(r, c, |r.body|) + r.body + more
    ensures ReadResponse(codec, feed) == Ok(Reply(r.status, Sent(r, c, |r.body|), r.body, true))
    ensures SaysClose(Sent(r, c, |r.body|)) <==> c.Close?
  {
    EncodedReadsBack(r, c, feed, more);
    EncodingIsKept(r, c, |r.body|);
    SentMatches(r, c, |r.body|);
    CloseIsSaid(c);
  }

  /** What is read before any decoding. */
  lemma EncodedReadsBack(r: Response, c: Connection, feed: seq<S.Read>, more: Bytes)
    requires r.status <= U16_MAX && |r.body| <= USIZE_MAX && CleanHeaders(r.headers) && !SaysChunked(r.headers)
    requires forall x :: x in feed ==> x.Got?
    requires S.Joined(feed) == Head(r, c, |r.body|) + r.body + more
    ensures ReadEncoded(feed) == Ok(Reply(r.status, Sent(r, c, |r.body|), r.body, true))
  {
    HeadReadsBack(r, c, |r.body|);
    PlanIsRead(r, c, |r.body|);
    ReplyReadsBack(Head(r, c, |r.body|), r.status, Sent(r, c, |r.body|), r.body, feed, more);
  }

  /** The head alone. */
  lemma HeadReadsBack(r: Response, c: Connection, n: nat)
    requires r.status <= U16_MAX && CleanHeaders(r.headers)
    ensures IsHead(Head(r, c, n), r.status, Sent(r, c, n))
  {
    StatusIsRead(r.status);
    SentIsClean(r, c, n);
    BlockReadsBack(StatusLine(r.status), r.status, Sent(r, c, n));
  }
}
