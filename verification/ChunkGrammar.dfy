/**
 Chunked bodies as section 7.1 of RFC 9112 spells them, said without the decoder: chunks
 of a size line, the data and CRLF, a zero line, trailer fields, and a blank line. The
 results say what the decoder makes of such a spelling, and exactly when the point where it
 stops is the end of one.
 */
module ChunkGrammar {
  import opened Common
  import opened Text
  import opened Chunked

  // ---- Lines -----------------------------------------------------------------

  /** No CRLF inside. */
  ghost predicate IsLine(s: Bytes) {
    forall j: nat :: !OccursAt(s, CRLF, j)
  }

  ghost predicate SizeLine(size: SizeReader, line: Bytes, n: nat) {
    IsLine(line) && size(line) == Some(n)
  }

  /** A line ends at the first CRLF, whatever follows. */
  lemma LineEnds(line: Bytes, rest: Bytes)
    requires IsLine(line)
    ensures var s := line + CRLF + rest;
            Find(s, CRLF) == Some(|line|) && s[..|line|] == line && s[|line| + 2..] == rest
  {
    var s := line + CRLF + rest;
    assert s[|line|..|line| + 2] == CRLF;
    forall j: nat | j < |line| ensures !OccursAt(s, CRLF, j) {
      if j + 2 <= |line| {
        assert s[j..j + 2] == line[j..j + 2];
        assert !OccursAt(line, CRLF, j);
      } else {
        assert s[j..j + 2][1] == s[j + 1] == CR;
      }
    }
    FindIs(s, CRLF, |line|);
  }

  /** What stands before the first CRLF is a line. */
  lemma FoundIsLine(s: Bytes)
    requires Find(s, CRLF).Some?
    ensures var i := Find(s, CRLF).value; IsLine(s[..i]) && s == s[..i] + CRLF + s[i + 2..]
  {
    var i := Find(s, CRLF).value;
    FindIsFirst(s, CRLF);
    forall j: nat ensures !OccursAt(s[..i], CRLF, j) {
      if j + 2 <= i {
        assert s[..i][j..j + 2] == s[j..j + 2];
        assert !OccursAt(s, CRLF, j);
      }
    }
    assert s[i..i + 2] == CRLF;
  }

  // ---- The decoder's frames --------------------------------------------------

  /** A chunk as the decoder takes it: after the data it skips two bytes unread. */
  datatype Chunk = Chunk(line: Bytes, data: Bytes, close: Bytes)

  /** Everything up to `Done`: after the zero line the decoder takes one line, whatever is on it. */
  datatype Frame = Frame(chunks: seq<Chunk>, zero: Bytes, final: Bytes)

  ghost predicate ChunkOk(size: SizeReader, c: Chunk) {
    SizeLine(size, c.line, |c.data|) && c.data != [] && |c.close| == 2
  }

  ghost predicate FrameOk(size: SizeReader, f: Frame) {
    SizeLine(size, f.zero, 0) && IsLine(f.final) && forall i :: 0 <= i < |f.chunks| ==> ChunkOk(size, f.chunks[i])
  }

  function ChunkText(c: Chunk): Bytes {
    c.line + CRLF + c.data + c.close
  }

  function FrameText(f: Frame): Bytes
    decreases |f.chunks|
  {
    if f.chunks == [] then f.zero + CRLF + f.final + CRLF
    else ChunkText(f.chunks[0]) + FrameText(f.(chunks := f.chunks[1..]))
  }

  function FrameData(f: Frame): Bytes
    decreases |f.chunks|
  {
    if f.chunks == [] then [] else f.chunks[0].data + FrameData(f.(chunks := f.chunks[1..]))
  }

  /** One chunk and what follows it. */
  lemma ChunkPulls(size: SizeReader, c: Chunk, rest: Bytes)
    requires ChunkOk(size, c)
    ensures PullFrom(size, Size, ChunkText(c) + rest) == Prepend(c.data, PullFrom(size, Size, rest))
  {
    var n, tail := |c.data|, c.close + rest;
    var s := c.line + CRLF + (c.data + tail);
    assert ChunkText(c) + rest == s;
    LineEnds(c.line, c.data + tail);
    assert TurnOf(size, Size, s) == Go(Data(n), [], |c.line| + 2);
    PrependNothing(PullFrom(size, Data(n), c.data + tail));
    DataPulls(size, c.data, c.close, rest);
  }

  lemma DataPulls(size: SizeReader, data: Bytes, close: Bytes, rest: Bytes)
    requires data != [] && |close| == 2
    ensures PullFrom(size, Data(|data|), data + (close + rest)) == Prepend(data, PullFrom(size, Size, rest))
  {
    var s, tail := data + (close + rest), close + rest;
    assert s[..|data|] == data && s[|data|..] == tail && tail[2..] == rest;
    assert TurnOf(size, Data(|data|), s) == Go(DataCrlf, data, |data|);
    assert TurnOf(size, DataCrlf, tail) == Go(Size, [], 2);
    PrependNothing(PullFrom(size, Size, rest));
  }

  lemma EndPulls(size: SizeReader, zero: Bytes, final: Bytes, rest: Bytes)
    requires SizeLine(size, zero, 0) && IsLine(final)
    ensures PullFrom(size, Size, zero + CRLF + (final + CRLF + rest)) == Pulled(Done, [], rest)
  {
    var tail := final + CRLF + rest;
    LineEnds(zero, tail);
    assert TurnOf(size, Size, zero + CRLF + tail) == Go(Trailer, [], |zero| + 2);
    LineEnds(final, rest);
    assert TurnOf(size, Trailer, tail) == Go(Done, [], |final| + 2);
    assert PullFrom(size, Done, rest) == Pulled(Done, [], rest);
    PrependNothing(Pulled(Done, [], rest));
    assert PullFrom(size, Trailer, tail) == Pulled(Done, [], rest);
  }

  lemma FrameUnfolds(f: Frame, rest: Bytes)
    requires f.chunks != []
    ensures FrameText(f) + rest == ChunkText(f.chunks[0]) + (FrameText(f.(chunks := f.chunks[1..])) + rest)
  {
  }

  /** Every frame is decoded to its data, up to its end. */
  lemma {:induction false} FrameIsDecoded(size: SizeReader, f: Frame, rest: Bytes)
    requires FrameOk(size, f)
    ensures PullFrom(size, Size, FrameText(f) + rest) == Pulled(Done, FrameData(f), rest)
    decreases |f.chunks|
  {
    if f.chunks == [] {
      EndText(f, rest);
      EndPulls(size, f.zero, f.final, rest);
    } else {
      var others := f.(chunks := f.chunks[1..]);
      FrameUnfolds(f, rest);
      ChunkPulls(size, f.chunks[0], FrameText(others) + rest);
      FrameIsDecoded(size, others, rest);
    }
  }

  /** And whenever the decoder is done, it has read a frame. */
  lemma {:induction false} DoneIsFrame(size: SizeReader, buf: Bytes) returns (f: Frame)
    requires PullFrom(size, Size, buf).Pulled? && PullFrom(size, Size, buf).state == Done
    ensures FrameOk(size, f) && buf == FrameText(f) + PullFrom(size, Size, buf).rest &&
      FrameData(f) == PullFrom(size, Size, buf).out
    decreases |buf|
  {
    FoundIsLine(buf);
    var i := Find(buf, CRLF).value;
    var line, tail := buf[..i], buf[i + 2..];
    var n := size(line).value;
    if n == 0 {
      f := DoneAfterZero(size, line, tail);
    } else {
      var c, rest := DoneAfterSize(size, line, n, tail);
      ChunkPulls(size, c, rest);
      var others := DoneIsFrame(size, rest);
      f := others.(chunks := [c] + others.chunks);
      assert f.chunks[1..] == others.chunks;
      FrameUnfolds(f, PullFrom(size, Size, rest).rest);
    }
  }

  /** Behind the zero line the decoder is done once it has a line. */
  lemma TrailerDone(size: SizeReader, line: Bytes, tail: Bytes)
    requires SizeLine(size, line, 0) && Find(tail, CRLF).None?
    ensures PullFrom(size, Size, line + CRLF + tail) == Pulled(Trailer, [], tail)
  {
    LineEnds(line, tail);
    assert TurnOf(size, Size, line + CRLF + tail) == Go(Trailer, [], |line| + 2);
    PrependNothing(Pulled(Trailer, [], tail));
  }

  lemma EndText(f: Frame, rest: Bytes)
    requires f.chunks == []
    ensures FrameText(f) + rest == f.zero + CRLF + (f.final + CRLF + rest)
  {
  }

  lemma DoneAfterZero(size: SizeReader, line: Bytes, tail: Bytes) returns (f: Frame)
    requires SizeLine(size, line, 0)
    requires PullFrom(size, Size, line + CRLF + tail).Pulled? && PullFrom(size, Size, line + CRLF + tail).state == Done
    ensures FrameOk(size, f) && f.chunks == []
    ensures var p := PullFrom(size, Size, line + CRLF + tail);
            line + CRLF + tail == FrameText(f) + p.rest && p.out == []
  {
    if Find(tail, CRLF).None? { TrailerDone(size, line, tail); }
    FoundIsLine(tail);
    var i := Find(tail, CRLF).value;
    f := Frame([], line, tail[..i]);
    EndPulls(size, line, tail[..i], tail[i + 2..]);
    EndText(f, tail[i + 2..]);
  }

  lemma DoneAfterSize(size: SizeReader, line: Bytes, n: nat, tail: Bytes) returns (c: Chunk, rest: Bytes)
    requires SizeLine(size, line, n) && n > 0
    requires PullFrom(size, Size, line + CRLF + tail).Pulled? && PullFrom(size, Size, line + CRLF + tail).state == Done
    ensures ChunkOk(size, c) && c.line == line && line + CRLF + tail == ChunkText(c) + rest
  {
    LineEnds(line, tail);
    assert TurnOf(size, Size, line + CRLF + tail) == Go(Data(n), [], |line| + 2);
    if |tail| < n + 2 { ShortData(size, n, tail); }
    c, rest := Chunk(line, tail[..n], tail[n..n + 2]), tail[n + 2..];
  }

  /** Data that is cut short is not yet done. */
  lemma ShortData(size: SizeReader, n: nat, tail: Bytes)
    requires n > 0 && |tail| < n + 2
    ensures PullFrom(size, Data(n), tail).Pulled? && PullFrom(size, Data(n), tail).state != Done
  {
    if tail != [] {
      var take := Min(n, |tail|);
      var next := TurnOf(size, Data(n), tail).next;
      assert TurnOf(size, Data(n), tail) == Go(next, tail[..take], take);
      assert TurnOf(size, next, tail[take..]) == Wait;
    }
  }

  // ---- Messages --------------------------------------------------------------

  datatype Part = Part(line: Bytes, data: Bytes)

  /** A chunked body: its chunks, the zero line, and its trailer fields. */
  datatype Message = Message(parts: seq<Part>, zero: Bytes, trailers: seq<Bytes>)

  ghost predicate MessageOk(size: SizeReader, m: Message) {
    && (forall i :: 0 <= i < |m.parts| ==> m.parts[i].data != [] && SizeLine(size, m.parts[i].line, |m.parts[i].data|))
    && SizeLine(size, m.zero, 0)
    && forall i :: 0 <= i < |m.trailers| ==> m.trailers[i] != [] && IsLine(m.trailers[i])
  }

  /** Trailer fields and the blank line. */
  function TrailerText(trailers: seq<Bytes>): Bytes {
    if trailers == [] then CRLF else trailers[0] + CRLF + TrailerText(trailers[1..])
  }

  function MessageText(m: Message): Bytes
    decreases |m.parts|
  {
    if m.parts == [] then m.zero + CRLF + TrailerText(m.trailers)
    else m.parts[0].line + CRLF + m.parts[0].data + CRLF + MessageText(m.(parts := m.parts[1..]))
  }

  function MessageData(m: Message): Bytes
    decreases |m.parts|
  {
    if m.parts == [] then [] else m.parts[0].data + MessageData(m.(parts := m.parts[1..]))
  }

  /** What the decoder leaves of a message when it is done: all but the first line of the trailer section. */
  function Unread(m: Message): Bytes {
    if m.trailers == [] then [] else TrailerText(m.trailers[1..])
  }

  /** The frame the decoder takes a message for. */
  function FrameOf(m: Message): Frame {
    Frame(Closed(m.parts), m.zero, if m.trailers == [] then [] else m.trailers[0])
  }

  function Closed(parts: seq<Part>): (chunks: seq<Chunk>)
    ensures |chunks| == |parts|
    ensures forall i :: 0 <= i < |parts| ==> chunks[i] == Chunk(parts[i].line, parts[i].data, CRLF)
  {
    seq(|parts|, i requires 0 <= i < |parts| => Chunk(parts[i].line, parts[i].data, CRLF))
  }

  lemma EmptyIsLine()
    ensures IsLine([])
  {
  }

  lemma {:induction false} FrameOfMessage(m: Message)
    ensures MessageText(m) == FrameText(FrameOf(m)) + Unread(m) && MessageData(m) == FrameData(FrameOf(m))
    decreases |m.parts|
  {
    var f := FrameOf(m);
    if m.parts == [] {
      assert MessageText(m) == f.zero + CRLF + f.final + CRLF + Unread(m);
    } else {
      var others := m.(parts := m.parts[1..]);
      FrameOfMessage(others);
      assert f.(chunks := f.chunks[1..]) == FrameOf(others);
      FrameUnfolds(f, Unread(m));
    }
  }

  /**
   A message with any bytes behind it is decoded to its data. The decoder stops behind the
   first line of the trailer section.
   */
  lemma MessageIsDecoded(size: SizeReader, m: Message, rest: Bytes)
    requires MessageOk(size, m)
    ensures PullFrom(size, Size, MessageText(m) + rest) == Pulled(Done, MessageData(m), Unread(m) + rest)
  {
    FrameOfMessage(m);
    FrameOfMessageOk(size, m);
    DecodedWithin(size, FrameOf(m), MessageText(m), Unread(m), rest);
  }

  lemma FrameOfMessageOk(size: SizeReader, m: Message)
    requires MessageOk(size, m)
    ensures FrameOk(size, FrameOf(m))
  {
    EmptyIsLine();
  }

  lemma DecodedWithin(size: SizeReader, f: Frame, text: Bytes, unread: Bytes, rest: Bytes)
    requires FrameOk(size, f) && text == FrameText(f) + unread
    ensures PullFrom(size, Size, text + rest) == Pulled(Done, FrameData(f), unread + rest)
  {
    FrameIsDecoded(size, f, unread + rest);
    Assoc(FrameText(f), unread, rest);
  }

  /** So the decoder stops at the end of a message exactly if the message has no trailer fields. */
  lemma StopsAtEndIff(size: SizeReader, m: Message, rest: Bytes)
    requires MessageOk(size, m)
    ensures PullFrom(size, Size, MessageText(m) + rest) == Pulled(Done, MessageData(m), rest) <==> m.trailers == []
  {
    MessageIsDecoded(size, m, rest);
    if m.trailers == [] { assert [] + rest == rest; } else { TrailerTextIsLong(m.trailers[1..]); }
  }

  lemma TrailerTextIsLong(trailers: seq<Bytes>)
    ensures |TrailerText(trailers)| >= 2
  {
  }

  // ---- When the decoder's stop is a message's end ----------------------------

  /** `text` spells a whole chunked body with that data. */
  ghost predicate Spells(size: SizeReader, text: Bytes, data: Bytes) {
    exists m :: MessageOk(size, m) && MessageText(m) == text && MessageData(m) == data
  }

  /** Every chunk's data is followed by CRLF, and the zero line by a blank line. */
  predicate Regular(size: SizeReader, buf: Bytes)
    decreases |buf|
  {
    match Find(buf, CRLF)
    case None => false
    case Some(i) =>
      match size(buf[..i])
      case None => false
      case Some(n) =>
        var tail := buf[i + 2..];
        if n == 0 then CRLF <= tail
        else n + 2 <= |tail| && tail[n..n + 2] == CRLF && Regular(size, tail[n + 2..])
  }

  ghost predicate AllClosed(chunks: seq<Chunk>) {
    forall i :: 0 <= i < |chunks| ==> chunks[i].close == CRLF
  }

  lemma ChunkRegular(size: SizeReader, c: Chunk, rest: Bytes)
    requires ChunkOk(size, c)
    ensures Regular(size, ChunkText(c) + rest) <==> c.close == CRLF && Regular(size, rest)
  {
    var n, tail := |c.data|, c.data + c.close + rest;
    ChunkShape(c, rest);
    LineEnds(c.line, tail);
    assert tail[n..n + 2] == c.close && tail[n + 2..] == rest;
  }

  lemma ChunkShape(c: Chunk, rest: Bytes)
    ensures ChunkText(c) + rest == c.line + CRLF + (c.data + c.close + rest)
  {
  }

  lemma EndRegular(size: SizeReader, zero: Bytes, final: Bytes, rest: Bytes)
    requires SizeLine(size, zero, 0) && IsLine(final)
    ensures Regular(size, zero + CRLF + (final + CRLF + rest)) <==> final == []
  {
    var tail := final + CRLF + rest;
    LineEnds(zero, tail);
    LineEnds(final, rest);
    FindIsFirst(tail, CRLF);
    assert CRLF <= tail <==> OccursAt(tail, CRLF, 0);
  }

  lemma {:induction false} FrameRegular(size: SizeReader, f: Frame, rest: Bytes)
    requires FrameOk(size, f)
    ensures Regular(size, FrameText(f) + rest) <==> AllClosed(f.chunks) && f.final == []
    decreases |f.chunks|
  {
    if f.chunks == [] {
      EndText(f, rest);
      EndRegular(size, f.zero, f.final, rest);
    } else {
      var others := f.(chunks := f.chunks[1..]);
      FrameUnfolds(f, rest);
      ChunkRegular(size, f.chunks[0], FrameText(others) + rest);
      FrameRegular(size, others, rest);
      assert AllClosed(f.chunks) <==> f.chunks[0].close == CRLF && AllClosed(others.chunks) by {
        AllClosedStep(f.chunks);
      }
    }
  }

  lemma AllClosedStep(chunks: seq<Chunk>)
    requires chunks != []
    ensures AllClosed(chunks) <==> chunks[0].close == CRLF && AllClosed(chunks[1..])
  {
    if chunks[0].close == CRLF && AllClosed(chunks[1..]) {
      forall i | 0 <= i < |chunks| ensures chunks[i].close == CRLF {
        if i > 0 { assert chunks[i] == chunks[1..][i - 1]; }
      }
    }
  }

  function PartsOf(chunks: seq<Chunk>): (parts: seq<Part>)
    ensures |parts| == |chunks| && forall i :: 0 <= i < |chunks| ==> parts[i] == Part(chunks[i].line, chunks[i].data)
  {
    seq(|chunks|, i requires 0 <= i < |chunks| => Part(chunks[i].line, chunks[i].data))
  }

  lemma FrameIsMessage(size: SizeReader, f: Frame)
    requires FrameOk(size, f) && AllClosed(f.chunks) && f.final == []
    ensures Spells(size, FrameText(f), FrameData(f))
  {
    var m := Message(PartsOf(f.chunks), f.zero, []);
    assert Closed(m.parts) == f.chunks;
    assert FrameOf(m) == f;
    FrameOfMessage(m);
    assert FrameText(f) + [] == FrameText(f);
    assert MessageOk(size, m);
  }

  lemma MessageIsFrame(size: SizeReader, m: Message, f: Frame)
    requires MessageOk(size, m) && FrameOk(size, f) && MessageText(m) == FrameText(f)
    ensures AllClosed(f.chunks) && f.final == []
  {
    NoTrailers(size, m, f);
    FrameOfMessageOk(size, m);
    SameText(m, f);
    FrameRegular(size, FrameOf(m), []);
    FrameRegular(size, f, []);
  }

  lemma SameText(m: Message, f: Frame)
    requires m.trailers == [] && MessageText(m) == FrameText(f)
    ensures FrameText(FrameOf(m)) == FrameText(f)
  {
    FrameOfMessage(m);
    assert FrameText(FrameOf(m)) + [] == FrameText(FrameOf(m));
  }

  lemma NoTrailers(size: SizeReader, m: Message, f: Frame)
    requires MessageOk(size, m) && FrameOk(size, f) && MessageText(m) == FrameText(f)
    ensures m.trailers == []
  {
    StopsAtEndIff(size, m, []);
    MessageIsDecoded(size, m, []);
    FrameIsDecoded(size, f, []);
  }

  /**
   When the decoder is done, the bytes it has consumed spell a whole body with the data it
   has decoded exactly if every chunk was closed by CRLF and a blank line followed the zero
   line.
   */
  lemma DoneIsEndIff(size: SizeReader, consumed: Bytes, rest: Bytes, out: Bytes)
    requires PullFrom(size, Size, consumed + rest) == Pulled(Done, out, rest)
    ensures Spells(size, consumed, out) <==> Regular(size, consumed + rest)
  {
    var f := DoneIsFrame(size, consumed + rest);
    assert |consumed + rest| == |FrameText(f) + rest|;
    assert consumed == (consumed + rest)[..|consumed|] == FrameText(f);
    FrameRegular(size, f, rest);
    if Regular(size, consumed + rest) { FrameIsMessage(size, f); }
    if m :| MessageOk(size, m) && MessageText(m) == consumed && MessageData(m) == out { MessageIsFrame(size, m, f); }
  }

  /** A malformed body begins with no whole one. */
  lemma MalformedSpellsNothing(size: SizeReader, text: Bytes, rest: Bytes, data: Bytes)
    requires PullFrom(size, Size, text + rest) == Malformed
    ensures !Spells(size, text, data)
  {
    if m :| MessageOk(size, m) && MessageText(m) == text && MessageData(m) == data { MessageIsDecoded(size, m, rest); }
  }

  // ---- A buffer that holds a whole message -----------------------------------

  /** What follows the first blank line. */
  function TrailerRest(s: Bytes): Option<Bytes>
    decreases |s|
  {
    match Find(s, CRLF)
    case None => None
    case Some(i) => if i == 0 then Some(s[2..]) else TrailerRest(s[i + 2..])
  }

  /**
   What follows the body at the front of a buffer, by a scan: over chunks closed by CRLF to
   the zero line, and from there to a blank line.
   */
  function MessageRest(size: SizeReader, buf: Bytes): Option<Bytes>
    decreases |buf|
  {
    match Find(buf, CRLF)
    case None => None
    case Some(i) =>
      match size(buf[..i])
      case None => None
      case Some(n) =>
        var tail := buf[i + 2..];
        if n == 0 then TrailerRest(tail)
        else if n + 2 <= |tail| && tail[n..n + 2] == CRLF then MessageRest(size, tail[n + 2..])
        else None
  }

  /** Every chunk in the buffer is closed by CRLF, and a blank line is among the bytes behind the zero line. */
  predicate HoldsMessage(size: SizeReader, buf: Bytes) {
    MessageRest(size, buf).Some?
  }

  lemma {:induction false} TrailerIsHeld(trailers: seq<Bytes>, rest: Bytes)
    requires forall i :: 0 <= i < |trailers| ==> trailers[i] != [] && IsLine(trailers[i])
    ensures TrailerRest(TrailerText(trailers) + rest) == Some(rest)
    decreases |trailers|
  {
    if trailers == [] {
      EmptyIsLine();
      LineEnds([], rest);
      assert TrailerText(trailers) + rest == [] + CRLF + rest;
    } else {
      var more := TrailerText(trailers[1..]);
      TrailerIsHeld(trailers[1..], rest);
      LineEnds(trailers[0], more + rest);
      Assoc(trailers[0] + CRLF, more, rest);
    }
  }

  lemma {:induction false} HeldTrailer(s: Bytes) returns (trailers: seq<Bytes>, rest: Bytes)
    requires TrailerRest(s).Some?
    ensures forall i :: 0 <= i < |trailers| ==> trailers[i] != [] && IsLine(trailers[i])
    ensures s == TrailerText(trailers) + rest
    decreases |s|
  {
    var i := Find(s, CRLF).value;
    FoundIsLine(s);
    if i == 0 {
      trailers, rest := [], s[2..];
    } else {
      var line, more := s[..i], s[i + 2..];
      var others;
      others, rest := HeldTrailer(more);
      trailers := [line] + others;
      assert trailers[1..] == others;
      Assoc(line + CRLF, TrailerText(others), rest);
    }
  }

  lemma ChunkHeld(size: SizeReader, c: Chunk, rest: Bytes)
    requires ChunkOk(size, c)
    ensures MessageRest(size, ChunkText(c) + rest) == if c.close == CRLF then MessageRest(size, rest) else None
  {
    var n, tail := |c.data|, c.data + c.close + rest;
    ChunkShape(c, rest);
    LineEnds(c.line, tail);
    assert tail[n..n + 2] == c.close && tail[n + 2..] == rest;
  }

  lemma PartUnfolds(m: Message, rest: Bytes)
    requires m.parts != []
    ensures MessageText(m) + rest ==
            ChunkText(Chunk(m.parts[0].line, m.parts[0].data, CRLF)) + (MessageText(m.(parts := m.parts[1..])) + rest)
  {
  }

  lemma {:induction false} MessageIsHeld(size: SizeReader, m: Message, rest: Bytes)
    requires MessageOk(size, m)
    ensures MessageRest(size, MessageText(m) + rest) == Some(rest)
    decreases |m.parts|
  {
    if m.parts == [] {
      var tail := TrailerText(m.trailers) + rest;
      Assoc(m.zero + CRLF, TrailerText(m.trailers), rest);
      LineEnds(m.zero, tail);
      TrailerIsHeld(m.trailers, rest);
    } else {
      var others := m.(parts := m.parts[1..]);
      MessageIsHeld(size, others, rest);
      PartUnfolds(m, rest);
      ChunkHeld(size, Chunk(m.parts[0].line, m.parts[0].data, CRLF), MessageText(others) + rest);
    }
  }

  lemma {:induction false} HeldMessage(size: SizeReader, buf: Bytes) returns (m: Message, rest: Bytes)
    requires HoldsMessage(size, buf)
    ensures MessageOk(size, m) && buf == MessageText(m) + rest
    decreases |buf|
  {
    var line, n, data, tail := HeldFirst(size, buf);
    if n == 0 {
      m, rest := HeldEnd(size, line, tail);
    } else {
      var others;
      others, rest := HeldMessage(size, tail);
      m := PartFirst(size, line, data, others, rest);
    }
  }

  /** A held buffer begins with a size line, and for a chunk with its data and CRLF. */
  lemma HeldFirst(size: SizeReader, buf: Bytes) returns (line: Bytes, n: nat, data: Bytes, tail: Bytes)
    requires HoldsMessage(size, buf)
    ensures SizeLine(size, line, n) && |data| == n && |tail| < |buf|
    ensures n == 0 ==> buf == line + CRLF + tail && TrailerRest(tail).Some?
    ensures n > 0 ==> buf == line + CRLF + (data + CRLF + tail) && HoldsMessage(size, tail)
  {
    FoundIsLine(buf);
    var i := Find(buf, CRLF).value;
    var rest := buf[i + 2..];
    line, n := buf[..i], size(buf[..i]).value;
    if n == 0 {
      data, tail := [], rest;
    } else {
      data, tail := rest[..n], rest[n + 2..];
      DataClosed(rest, n);
    }
  }

  lemma DataClosed(s: Bytes, n: nat)
    requires n + 2 <= |s| && s[n..n + 2] == CRLF
    ensures s == s[..n] + CRLF + s[n + 2..]
  {
  }

  lemma HeldEnd(size: SizeReader, line: Bytes, tail: Bytes) returns (m: Message, rest: Bytes)
    requires SizeLine(size, line, 0) && TrailerRest(tail).Some?
    ensures MessageOk(size, m) && line + CRLF + tail == MessageText(m) + rest
  {
    var trailers;
    trailers, rest := HeldTrailer(tail);
    m := Message([], line, trailers);
    Assoc(line + CRLF, TrailerText(trailers), rest);
  }

  lemma PartFirst(size: SizeReader, line: Bytes, data: Bytes, others: Message, rest: Bytes) returns (m: Message)
    requires SizeLine(size, line, |data|) && data != [] && MessageOk(size, others)
    ensures MessageOk(size, m) && line + CRLF + (data + CRLF + (MessageText(others) + rest)) == MessageText(m) + rest
  {
    m := others.(parts := [Part(line, data)] + others.parts);
    assert m.parts[1..] == others.parts;
    PartUnfolds(m, rest);
    ChunkShape(Chunk(line, data, CRLF), MessageText(others) + rest);
  }

  /** The scan is exact: it succeeds on just the buffers that begin with a message. */
  lemma HeldIff(size: SizeReader, buf: Bytes)
    ensures HoldsMessage(size, buf) <==> exists m, rest :: MessageOk(size, m) && buf == MessageText(m) + rest
  {
    if HoldsMessage(size, buf) { var m, rest := HeldMessage(size, buf); }
    if m, rest :| MessageOk(size, m) && buf == MessageText(m) + rest { MessageIsHeld(size, m, rest); }
  }

  /** And it stops where the message ends. */
  lemma RestIff(size: SizeReader, text: Bytes, rest: Bytes)
    ensures MessageRest(size, text + rest) == Some(rest) <==> exists data :: Spells(size, text, data)
  {
    if MessageRest(size, text + rest) == Some(rest) { var data := HeldIsSpelt(size, text, rest); }
    if data :| Spells(size, text, data) { SpeltIsHeld(size, text, rest, data); }
  }

  lemma HeldIsSpelt(size: SizeReader, text: Bytes, rest: Bytes) returns (data: Bytes)
    requires MessageRest(size, text + rest) == Some(rest)
    ensures Spells(size, text, data)
  {
    var m, tail := HeldMessage(size, text + rest);
    MessageIsHeld(size, m, tail);
    SameFront(text, MessageText(m), rest);
    data := MessageData(m);
  }

  lemma SameFront(a: Bytes, b: Bytes, rest: Bytes)
    requires a + rest == b + rest
    ensures a == b
  {
    assert |a| == |b|;
    assert a == (a + rest)[..|a|] == b;
  }

  lemma SpeltIsHeld(size: SizeReader, text: Bytes, rest: Bytes, data: Bytes)
    requires Spells(size, text, data)
    ensures MessageRest(size, text + rest) == Some(rest)
  {
    var m :| MessageOk(size, m) && MessageText(m) == text && MessageData(m) == data;
    MessageIsHeld(size, m, rest);
  }

  /** More bytes stand behind what the scan leaves. */
  lemma RestGrows(size: SizeReader, buf: Bytes, more: Bytes)
    requires HoldsMessage(size, buf)
    ensures MessageRest(size, buf + more) == Some(MessageRest(size, buf).value + more)
  {
    var m, rest := HeldMessage(size, buf);
    MessageIsHeld(size, m, rest);
    MessageIsHeld(size, m, rest + more);
    Assoc(MessageText(m), rest, more);
  }

  lemma {:induction false} RegularIsHeld(size: SizeReader, buf: Bytes)
    requires Regular(size, buf)
    ensures HoldsMessage(size, buf)
    decreases |buf|
  {
    var i := Find(buf, CRLF).value;
    var n, tail := size(buf[..i]).value, buf[i + 2..];
    if n == 0 {
      FindIsFirst(tail, CRLF);
      assert OccursAt(tail, CRLF, 0);
    } else {
      RegularIsHeld(size, tail[n + 2..]);
    }
  }

  lemma MalformedHoldsNothing(size: SizeReader, buf: Bytes)
    requires PullFrom(size, Size, buf) == Malformed
    ensures !HoldsMessage(size, buf)
  {
    if HoldsMessage(size, buf) {
      var m, rest := HeldMessage(size, buf);
      MessageIsDecoded(size, m, rest);
    }
  }

  // ---- Writing a body --------------------------------------------------------

  function HexDigit(n: nat): byte
    requires n < 16
  {
    if n < 10 then 48 + n else 87 + n
  }

  function Hex(n: nat): Bytes {
    if n < 16 then [HexDigit(n)] else Hex(n / 16) + [HexDigit(n % 16)]
  }

  predicate AllHex(s: Bytes) {
    forall i :: 0 <= i < |s| ==> Digit(s[i]).Some?
  }

  lemma {:induction false} HexRead(n: nat)
    ensures Hex(n) != [] && AllHex(Hex(n)) && DigitsValue(Hex(n), 16) == Some(n)
  {
    var s := Hex(n);
    if n < 16 {
      assert s[..0] == [];
    } else {
      HexRead(n / 16);
      assert s[..|s| - 1] == Hex(n / 16);
    }
  }

  lemma {:induction false} HexIsUtf8(s: Bytes)
    requires AllHex(s)
    ensures Utf8(s)
  {
    if s != [] { HexIsUtf8(s[1..]); }
  }

  /**
   A size line of the standard is hexadecimal digits, and an extension after a semicolon or
   none. The source takes it for its number exactly if it is UTF-8 and the number fits.
   */
  lemma HexLineIsSizeIff(digits: Bytes, ext: Bytes, n: nat)
    requires digits != [] && AllHex(digits) && (ext == [] || ext[0] == SEMICOLON) && IsLine(digits + ext)
    ensures SizeLine(ParseSize, digits + ext, n) <==>
              Utf8(digits + ext) && DigitsValue(digits, 16) == Some(n) && n <= USIZE_MAX
  {
    BeforeExtension(digits, ext);
    HexIsTrimmed(digits);
    HexIsUnsigned(digits);
  }

  lemma BeforeExtension(digits: Bytes, ext: Bytes)
    requires AllHex(digits) && (ext == [] || ext[0] == SEMICOLON)
    ensures Before(digits + ext, SEMICOLON) == digits
  {
    assert SEMICOLON !in digits;
    if ext == [] {
      assert digits + ext == digits;
      BeforeStops(digits, SEMICOLON, []);
    } else {
      BeforeStops(digits, SEMICOLON, ext[1..]);
      assert digits + ext == digits + [SEMICOLON] + ext[1..];
    }
  }

  lemma HexIsTrimmed(digits: Bytes)
    requires digits != [] && AllHex(digits)
    ensures Trim(digits) == digits
  {
    assert Digit(digits[0]).Some? && Digit(digits[|digits| - 1]).Some?;
    assert SpaceAtStart(digits) == 0 && SpaceAtEnd(digits) == 0;
  }

  lemma HexIsUnsigned(digits: Bytes)
    requires digits != [] && AllHex(digits)
    ensures var v := DigitsValue(digits, 16);
            ParseUnsigned(digits, 16, USIZE_MAX) == if v.Some? && v.value <= USIZE_MAX then v else None
  {
    assert Digit(digits[0]).Some?;
  }

  lemma HexIsSize(n: nat)
    requires n <= USIZE_MAX
    ensures SizeLine(ParseSize, Hex(n), n)
  {
    HexRead(n);
    HexIsUtf8(Hex(n));
    assert Hex(n) + [] == Hex(n);
    forall j: nat ensures !OccursAt(Hex(n), CRLF, j) {
      if j + 2 <= |Hex(n)| { assert Hex(n)[j..j + 2][0] == Hex(n)[j]; }
    }
    HexLineIsSizeIff(Hex(n), [], n);
  }

  /** The plain spelling of some chunks of data. */
  function Written(datas: seq<Bytes>): Message {
    Message(seq(|datas|, i requires 0 <= i < |datas| => Part(Hex(|datas[i]|), datas[i])), Hex(0), [])
  }

  lemma {:induction false} WrittenData(datas: seq<Bytes>)
    ensures MessageData(Written(datas)) == Concat(datas)
    decreases |datas|
  {
    if datas != [] {
      WrittenData(datas[1..]);
      assert Written(datas).(parts := Written(datas).parts[1..]) == Written(datas[1..]);
    }
  }

  /** Writing chunks and decoding them, with any bytes behind, gives their data and exactly those bytes. */
  lemma WrittenIsDecoded(datas: seq<Bytes>, rest: Bytes)
    requires forall i :: 0 <= i < |datas| ==> 0 < |datas[i]| <= USIZE_MAX
    ensures PullFrom(ParseSize, Size, MessageText(Written(datas)) + rest) == Pulled(Done, Concat(datas), rest)
  {
    var m := Written(datas);
    HexIsSize(0);
    forall i | 0 <= i < |datas|
      ensures SizeLine(ParseSize, m.parts[i].line, |m.parts[i].data|)
    {
      HexIsSize(|datas[i]|);
    }
    WrittenData(datas);
    StopsAtEndIff(ParseSize, m, rest);
  }
}
