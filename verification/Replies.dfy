/**
 What the client makes of a response, from its bytes (crates/kernway-http-client/src/lib.rs:1054-1247,
 crates/kernway-http-client/src/compress.rs:12-34, section 6.3 of RFC 9112): any status line
 and any header lines, however spaced, and a body framed in each of the three ways.
 */
module Replies {
  import opened Common
  import opened Text
  import opened Fields
  import opened HttpWire
  import opened HttpClient
  import R = ResponseRoundTrip
  import G = ChunkGrammar
  import S = Streams
  import Chunked

  // ---- Heads as they are spelled ---------------------------------------------

  /** Spaces and tabs. */
  predicate Gap(s: Bytes) {
    forall i :: 0 <= i < |s| ==> s[i] == 32 || s[i] == 9
  }

  /** A header line: the name, a colon, and the value with any gaps around it. */
  datatype Line = Line(name: Bytes, before: Bytes, value: Bytes, after: Bytes)

  predicate LineOk(l: Line) {
    && OneLine(l.name) && COLON !in l.name && l.name != [] && R.BareEdges(l.name)
    && OneLine(l.value) && R.BareEdges(l.value) && Gap(l.before) && Gap(l.after)
  }

  predicate LinesOk(lines: seq<Line>) {
    forall i :: 0 <= i < |lines| ==> LineOk(lines[i])
  }

  function LineText(l: Line): Bytes {
    l.name + [COLON] + (l.before + l.value + l.after)
  }

  function LineTexts(lines: seq<Line>): seq<Bytes> {
    if lines == [] then [] else [LineText(lines[0])] + LineTexts(lines[1..])
  }

  function Pairs(lines: seq<Line>): seq<Pair> {
    if lines == [] then [] else [Pair(lines[0].name, lines[0].value)] + Pairs(lines[1..])
  }

  /** `HTTP/1.1 200 OK`, with any version and any reason. */
  datatype Status = Status(version: Bytes, code: nat, reason: Bytes)

  predicate StatusOk(s: Status) {
    OneLine(s.version) && SPACE !in s.version && OneLine(s.reason) && s.code <= U16_MAX
  }

  function StatusText(s: Status): Bytes {
    s.version + [SPACE] + (Digits(s.code) + [SPACE] + s.reason)
  }

  function HeadText(s: Status, lines: seq<Line>): Bytes {
    Wire([StatusText(s)] + LineTexts(lines)) + CRLF
  }

  // ---- Reading a head --------------------------------------------------------

  lemma {:induction false} GapSkips(gap: Bytes, s: Bytes)
    requires Gap(gap)
    ensures SkipBlank(gap + s) == SkipBlank(s)
  {
    if gap == [] {
      assert gap + s == s;
    } else {
      GapSkips(gap[1..], s);
      assert (gap + s)[1..] == gap[1..] + s;
    }
  }

  lemma {:induction false} GapDrops(s: Bytes, gap: Bytes)
    requires Gap(gap)
    ensures DropBlank(s + gap) == DropBlank(s)
    decreases |gap|
  {
    if gap == [] {
      assert s + gap == s;
    } else {
      GapDrops(s, gap[..|gap| - 1]);
      assert (s + gap)[..|s + gap| - 1] == s + gap[..|gap| - 1];
    }
  }

  lemma ValueIsTrimmed(before: Bytes, value: Bytes, after: Bytes)
    requires Gap(before) && Gap(after) && R.BareEdges(value)
    ensures TrimBlank(before + value + after) == value
  {
    assert before + value + after == before + (value + after);
    GapSkips(before, value + after);
    if value == [] {
      assert value + after == after + [];
      GapSkips(after, []);
    } else {
      assert (value + after)[0] == value[0];
      GapDrops(value, after);
    }
  }

  lemma LineIsRead(l: Line)
    requires LineOk(l)
    ensures FieldOf(LineText(l)) == [Pair(l.name, l.value)]
  {
    var behind := l.before + l.value + l.after;
    BeforeStops(l.name, COLON, behind);
    assert LineText(l)[|l.name| + 1..] == behind;
    R.BareIsTrimmed(l.name);
    ValueIsTrimmed(l.before, l.value, l.after);
  }

  lemma LineIsPlain(l: Line)
    requires LineOk(l)
    ensures OneLine(LineText(l)) && LineText(l) != []
  {
  }

  lemma {:induction false} LinesAreRead(lines: seq<Line>)
    requires LinesOk(lines)
    ensures FieldsOf(Wire(LineTexts(lines)) + CRLF) == Pairs(lines)
    ensures Plain(LineTexts(lines))
    decreases |lines|
  {
    if lines == [] {
      assert Wire(LineTexts(lines)) + CRLF == [] + CRLF + [];
      R.FirstLine([], []);
    } else {
      var line, rest := LineText(lines[0]), Wire(LineTexts(lines[1..])) + CRLF;
      LinesAreRead(lines[1..]);
      LineIsPlain(lines[0]);
      LineIsRead(lines[0]);
      assert LineTexts(lines)[1..] == LineTexts(lines[1..]);
      R.HeadShape(line, LineTexts(lines[1..]));
      R.FirstLine(line, rest);
    }
  }

  lemma StatusIsRead(s: Status)
    requires StatusOk(s)
    ensures ParseStatus(StatusText(s)) == Some(s.code) && StatusText(s) != [] && OneLine(StatusText(s))
  {
    R.DigitsArePlain(s.code);
    DigitsParse(s.code, U16_MAX);
    R.CodeIsRead(s.version, Digits(s.code), s.reason, s.code);
  }

  /** A head is read as its status and its headers, the gaps gone, and ends where it should. */
  lemma HeadIsRead(s: Status, lines: seq<Line>)
    requires StatusOk(s) && LinesOk(lines)
    ensures R.IsHead(HeadText(s, lines), s.code, Pairs(lines))
  {
    StatusIsRead(s);
    LinesAreRead(lines);
    R.LinesReadBack(StatusText(s), s.code, Pairs(lines), Wire(LineTexts(lines)) + CRLF);
    R.HeadShape(StatusText(s), LineTexts(lines));
    R.HeadEnds([StatusText(s)] + LineTexts(lines));
  }

  // ---- Headers by name -------------------------------------------------------

  /** Header `i` is the first of that name, in any case. */
  ghost predicate FirstOf(headers: seq<Pair>, name: Bytes, i: nat) {
    && i < |headers| && SameIgnoringCase(headers[i].name, name)
    && forall j :: 0 <= j < i ==> !SameIgnoringCase(headers[j].name, name)
  }

  ghost predicate NoneOf(headers: seq<Pair>, name: Bytes) {
    forall j :: 0 <= j < |headers| ==> !SameIgnoringCase(headers[j].name, name)
  }

  lemma {:induction false} FirstIsMatch(headers: seq<Pair>, name: Bytes, i: nat)
    requires FirstOf(headers, name, i)
    ensures FirstMatch(headers, name) == Some(headers[i].value)
  {
    if i > 0 {
      assert FirstOf(headers[1..], name, i - 1) by {
        forall j | 0 <= j < i - 1 ensures !SameIgnoringCase(headers[1..][j].name, name) {
          assert headers[1..][j] == headers[j + 1];
        }
      }
      FirstIsMatch(headers[1..], name, i - 1);
    }
  }

  lemma {:induction false} NoneIsNoMatch(headers: seq<Pair>, name: Bytes)
    requires NoneOf(headers, name)
    ensures FirstMatch(headers, name) == None
  {
    if headers != [] {
      forall j | 0 <= j < |headers[1..]| ensures !SameIgnoringCase(headers[1..][j].name, name) {
        assert headers[1..][j] == headers[j + 1];
      }
      NoneIsNoMatch(headers[1..], name);
    }
  }

  const TRANSFER: string := "transfer-encoding"
  const LENGTH: string := "content-length"
  const CODING: string := "content-encoding"

  /** The first `transfer-encoding` is `chunked`, in any case. */
  ghost predicate IsChunked(headers: seq<Pair>) {
    exists i: nat :: FirstOf(headers, Ascii(TRANSFER), i) && SameIgnoringCase(headers[i].value, Ascii("chunked"))
  }

  /** There is none, or the first is something else. */
  ghost predicate IsUnchunked(headers: seq<Pair>) {
    NoneOf(headers, Ascii(TRANSFER)) ||
    exists i: nat :: FirstOf(headers, Ascii(TRANSFER), i) && !SameIgnoringCase(headers[i].value, Ascii("chunked"))
  }

  /** The first `content-length` is that number. */
  ghost predicate IsCounted(headers: seq<Pair>, n: nat) {
    exists i: nat :: FirstOf(headers, Ascii(LENGTH), i) && headers[i].value == Digits(n)
  }

  // ---- Framing ---------------------------------------------------------------

  lemma ChunkedPlan(headers: seq<Pair>)
    requires IsChunked(headers)
    ensures PlanOf(headers) == S.ChunkedBody
  {
    var i: nat :| FirstOf(headers, Ascii(TRANSFER), i) && SameIgnoringCase(headers[i].value, Ascii("chunked"));
    FirstIsMatch(headers, Ascii(TRANSFER), i);
  }

  lemma Unchunked(headers: seq<Pair>)
    requires IsUnchunked(headers)
    ensures !SaysChunked(headers)
  {
    if NoneOf(headers, Ascii(TRANSFER)) {
      NoneIsNoMatch(headers, Ascii(TRANSFER));
    } else {
      var i: nat :| FirstOf(headers, Ascii(TRANSFER), i) && !SameIgnoringCase(headers[i].value, Ascii("chunked"));
      FirstIsMatch(headers, Ascii(TRANSFER), i);
    }
  }

  lemma CountedPlan(headers: seq<Pair>, n: nat)
    requires IsUnchunked(headers) && IsCounted(headers, n) && n <= USIZE_MAX
    ensures PlanOf(headers) == S.Length(n)
  {
    Unchunked(headers);
    var i: nat :| FirstOf(headers, Ascii(LENGTH), i) && headers[i].value == Digits(n);
    FirstIsMatch(headers, Ascii(LENGTH), i);
    R.DigitsArePlain(n);
    DigitsParse(n, USIZE_MAX);
  }

  lemma OpenPlan(headers: seq<Pair>)
    requires IsUnchunked(headers) && NoneOf(headers, Ascii(LENGTH))
    ensures PlanOf(headers) == S.UntilClose
  {
    Unchunked(headers);
    NoneIsNoMatch(headers, Ascii(LENGTH));
  }

  /** Reading a head and a body that its framing gives, however they arrive. */
  lemma FramedIsRead(head: Bytes, code: nat, headers: seq<Pair>, rest: Bytes, body: Bytes, feed: seq<S.Read>)
    requires R.IsHead(head, code, headers) && (forall x :: x in feed ==> x.Got?) && S.Joined(feed) == head + rest
    requires S.Ready(Chunked.ParseSize, PlanOf(headers), rest, true) == Some(body)
    ensures ReadEncoded(feed) == Ok(Reply(code, headers, body, !PlanOf(headers).UntilClose?))
  {
    assert [] + S.Joined(feed) == head + rest;
    R.HeadIsRead([], feed, head, rest);
    var read := ReadHead([], feed).value;
    S.BufferedGetsReady(Chunked.ParseSize, PlanOf(headers), read.leftover, read.feed, body);
  }

  /**
   A response that is chunked, whatever length it declares: its body is the data that the
   text behind the head spells, whatever follows, and the connection can be kept.
   */
  lemma ChunkedIsRead(s: Status, lines: seq<Line>, text: Bytes, data: Bytes, more: Bytes, feed: seq<S.Read>)
    requires StatusOk(s) && LinesOk(lines) && IsChunked(Pairs(lines)) && G.Spells(Chunked.ParseSize, text, data)
    requires (forall x :: x in feed ==> x.Got?) && S.Joined(feed) == HeadText(s, lines) + (text + more)
    ensures ReadEncoded(feed) == Ok(Reply(s.code, Pairs(lines), data, true))
  {
    var m :| G.MessageOk(Chunked.ParseSize, m) && G.MessageText(m) == text && G.MessageData(m) == data;
    HeadIsRead(s, lines);
    ChunkedPlan(Pairs(lines));
    G.MessageIsDecoded(Chunked.ParseSize, m, more);
    FramedIsRead(HeadText(s, lines), s.code, Pairs(lines), text + more, data, feed);
  }

  /** One that is not chunked and declares a length: its body is as many bytes, and the connection can be kept. */
  lemma CountedIsRead(s: Status, lines: seq<Line>, body: Bytes, more: Bytes, feed: seq<S.Read>)
    requires StatusOk(s) && LinesOk(lines) && |body| <= USIZE_MAX
    requires IsUnchunked(Pairs(lines)) && IsCounted(Pairs(lines), |body|)
    requires (forall x :: x in feed ==> x.Got?) && S.Joined(feed) == HeadText(s, lines) + (body + more)
    ensures ReadEncoded(feed) == Ok(Reply(s.code, Pairs(lines), body, true))
  {
    HeadIsRead(s, lines);
    CountedPlan(Pairs(lines), |body|);
    assert (body + more)[..|body|] == body;
    FramedIsRead(HeadText(s, lines), s.code, Pairs(lines), body + more, body, feed);
  }

  /** One with neither: its body is all there is up to the end of the connection, which is used up. */
  lemma OpenIsRead(s: Status, lines: seq<Line>, body: Bytes, feed: seq<S.Read>)
    requires StatusOk(s) && LinesOk(lines) && IsUnchunked(Pairs(lines)) && NoneOf(Pairs(lines), Ascii(LENGTH))
    requires (forall x :: x in feed ==> x.Got?) && S.Joined(feed) == HeadText(s, lines) + body
    ensures ReadEncoded(feed) == Ok(Reply(s.code, Pairs(lines), body, false))
  {
    HeadIsRead(s, lines);
    OpenPlan(Pairs(lines));
    FramedIsRead(HeadText(s, lines), s.code, Pairs(lines), body, body, feed);
  }

  // ---- Codings ---------------------------------------------------------------

  /** The headers of that name, in any case, in their order. */
  function Named(headers: seq<Pair>, name: Bytes): seq<Pair> {
    if headers == [] then []
    else (if SameIgnoringCase(headers[0].name, name) then [headers[0]] else []) + Named(headers[1..], name)
  }

  /** The first `content-encoding` names that coding, in any case and with any blanks around it. */
  ghost predicate IsCoded(headers: seq<Pair>, coding: Bytes) {
    exists i: nat :: FirstOf(headers, Ascii(CODING), i) && Names(headers[i].value, coding)
  }

  predicate Names(value: Bytes, coding: Bytes) {
    Utf8(value) && LowerAll(Trim(value)) == coding
  }

  /** The codings a client undoes. */
  predicate Undone(coding: Bytes) {
    coding == Ascii("gzip") || coding == Ascii("x-gzip") || coding == Ascii("deflate") || coding == Ascii("br")
  }

  lemma SameNames(a: Bytes, b: Bytes, name: Bytes)
    requires SameIgnoringCase(a, b)
    ensures SameIgnoringCase(a, name) == SameIgnoringCase(b, name)
  {
  }

  /** The two stale headers are gone, and those of every other name stay, in their order. */
  lemma {:induction false} StaleAreDropped(headers: seq<Pair>, name: Bytes)
    ensures Named(Decoded(headers), name) ==
            if SameIgnoringCase(name, Ascii(CODING)) || SameIgnoringCase(name, Ascii(LENGTH)) then []
            else Named(headers, name)
  {
    if headers != [] {
      StaleAreDropped(headers[1..], name);
      var a, kept := headers[0].name, Decoded(headers[1..]);
      if SameIgnoringCase(a, name) {
        SameNames(a, name, Ascii(CODING));
        SameNames(a, name, Ascii(LENGTH));
      }
      assert ([headers[0]] + kept)[1..] == kept;
    }
  }

  lemma CodingAt(headers: seq<Pair>, value: Bytes, coding: Bytes)
    requires FirstMatch(headers, EncodingHeader()) == Some(value) && Names(value, coding)
    ensures CodingOf(headers) == coding
  {
  }

  lemma CodingFirst(headers: seq<Pair>, i: nat, coding: Bytes)
    requires FirstOf(headers, EncodingHeader(), i) && Names(headers[i].value, coding)
    ensures CodingOf(headers) == coding
  {
    FirstIsMatch(headers, EncodingHeader(), i);
    CodingAt(headers, headers[i].value, coding);
  }

  lemma CodingIsNamed()
    ensures EncodingHeader() == Ascii(CODING)
  {
  }

  lemma CodingIsRead(headers: seq<Pair>, coding: Bytes)
    requires IsCoded(headers, coding)
    ensures CodingOf(headers) == coding
  {
    CodingIsNamed();
    var i: nat :| FirstOf(headers, Ascii(CODING), i) && Names(headers[i].value, coding);
    CodingFirst(headers, i, coding);
  }

  lemma UndoneIsEncoded(headers: seq<Pair>)
    ensures IsEncoded(headers) <==> Undone(CodingOf(headers))
  {
    var coding := CodingOf(headers);
    var known := [Ascii("gzip"), Ascii("x-gzip"), Ascii("deflate"), Ascii("br")];
    assert known[0] == Ascii("gzip") && known[1] == Ascii("x-gzip") && known[2] == Ascii("deflate");
    assert coding in known <==> Undone(coding);
  }

  lemma EmptyIsNotUndone()
    ensures !Undone([])
  {
    assert |Ascii("gzip")| == 4 && |Ascii("x-gzip")| == 6 && |Ascii("deflate")| == 7 && |Ascii("br")| == 2;
  }

  /** Of the headers those of the two stale names are gone, and those of every other name are all there. */
  ghost predicate Survive(kept: seq<Pair>, headers: seq<Pair>) {
    forall name ::
      Named(kept, name) == if SameIgnoringCase(name, Ascii(CODING)) || SameIgnoringCase(name, Ascii(LENGTH)) then []
                           else Named(headers, name)
  }

  lemma DecodedSurvive(headers: seq<Pair>)
    ensures Survive(Decoded(headers), headers)
  {
    forall name ensures Named(Decoded(headers), name) ==
                        if SameIgnoringCase(name, Ascii(CODING)) || SameIgnoringCase(name, Ascii(LENGTH)) then []
                        else Named(headers, name) {
      StaleAreDropped(headers, name);
    }
  }

  lemma DecompressIs(codec: Codec, r: Reply, coding: Bytes)
    requires IsCoded(r.headers, coding) && Undone(coding)
    ensures Decompress(codec, r) == match codec(coding, r.body)
                                    case None => Err(BadEncoding)
                                    case Some(body) => Ok(r.(headers := Decoded(r.headers), body := body))
  {
    CodingIsRead(r.headers, coding);
    UndoneIsEncoded(r.headers);
  }

  /** A response in a coding the client undoes: what the codec makes of its body, without the two stale headers. */
  lemma CodedIsRead(codec: Codec, feed: seq<S.Read>, r: Reply, coding: Bytes)
    requires ReadEncoded(feed) == Ok(r) && IsCoded(r.headers, coding) && Undone(coding)
    ensures match codec(coding, r.body)
            case None => ReadResponse(codec, feed) == Err(BadEncoding)
            case Some(body) =>
              var reply := ReadResponse(codec, feed);
              && reply.Ok? && reply.value.status == r.status && reply.value.body == body
              && reply.value.keepable == r.keepable && Survive(reply.value.headers, r.headers)
  {
    DecompressIs(codec, r, coding);
    DecodedSurvive(r.headers);
  }

  lemma UncodedIsPlain(headers: seq<Pair>)
    requires NoneOf(headers, Ascii(CODING)) || exists coding :: IsCoded(headers, coding) && !Undone(coding)
    ensures !IsEncoded(headers)
  {
    UndoneIsEncoded(headers);
    EmptyIsNotUndone();
    if NoneOf(headers, Ascii(CODING)) {
      NoneIsNoMatch(headers, Ascii(CODING));
    } else {
      var coding :| IsCoded(headers, coding) && !Undone(coding);
      CodingIsRead(headers, coding);
    }
  }

  /** One in no coding, or in one the client does not know, is left alone. */
  lemma UncodedIsRead(codec: Codec, feed: seq<S.Read>, r: Reply)
    requires ReadEncoded(feed) == Ok(r)
    requires NoneOf(r.headers, Ascii(CODING)) || exists coding :: IsCoded(r.headers, coding) && !Undone(coding)
    ensures ReadResponse(codec, feed) == Ok(r)
  {
    UncodedIsPlain(r.headers);
  }
}
