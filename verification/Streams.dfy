/**
 Reading a response body (crates/kernway-http-client/src/lib.rs:819-1121, section 6.3 of
 RFC 9112): piece by piece through `ResponseStream`, or all at once in `read_response`.

 A socket is the list of its future reads; after the last one it reports end of file.
 */
module Streams {
  import opened Common
  import opened Text
  import opened Chunked
  import opened ChunkGrammar
  import opened Pool

  datatype BodyPlan = Length(n: nat) | ChunkedBody | UntilClose

  /** `StreamPlan`: the plan and where the reader is in it. */
  datatype Cursor = LengthLeft(rem: nat) | ChunksFrom(state: ChunkState) | ToClose

  function Start(plan: BodyPlan): Cursor {
    match plan
    case Length(n) => LengthLeft(n)
    case ChunkedBody => ChunksFrom(Size)
    case UntilClose => ToClose
  }

  // ---- The end of a body -----------------------------------------------------

  /** What a reader has when it reports the end: the body, and the bytes `left` over. */
  predicate Ended(size: SizeReader, plan: BodyPlan, received: Bytes, left: Bytes, eof: bool, body: Bytes) {
    match plan
    case Length(n) => n <= |received| && body == received[..n] && left == received[n..]
    case ChunkedBody => PullFrom(size, Size, received) == Pulled(Done, body, left)
    case UntilClose => eof && body == received && left == []
  }

  /** `text` is exactly the framed body: `n` bytes, or a whole chunked message. */
  ghost predicate Framed(size: SizeReader, plan: BodyPlan, text: Bytes, body: Bytes) {
    match plan
    case Length(n) => |text| == n && body == text
    case ChunkedBody => Spells(size, text, body)
    case UntilClose => false
  }

  /** A chunked body keeps to CRLF after its chunks and has no trailer fields; any other framing is plain. */
  predicate Plainly(size: SizeReader, plan: BodyPlan, received: Bytes) {
    plan.ChunkedBody? ==> Regular(size, received)
  }

  function Consumed(received: Bytes, left: Bytes): Bytes {
    if |left| <= |received| then received[..|received| - |left|] else []
  }

  /** A reader that reports the end has consumed exactly the framed body, if and only if the body is plain. */
  lemma EndedIsFramedIff(size: SizeReader, plan: BodyPlan, received: Bytes, left: Bytes, eof: bool, body: Bytes)
    requires Ended(size, plan, received, left, eof, body) && !plan.UntilClose?
    ensures Framed(size, plan, Consumed(received, left), body) <==> Plainly(size, plan, received)
  {
    if plan.ChunkedBody? { ChunkedIsFramedIff(size, received, left, body); }
  }

  lemma ChunkedIsFramedIff(size: SizeReader, received: Bytes, left: Bytes, body: Bytes)
    requires PullFrom(size, Size, received) == Pulled(Done, body, left)
    ensures Spells(size, Consumed(received, left), body) <==> Regular(size, received)
  {
    RestIsEnd(size, Size, received);
    ConsumedThenLeft(received, left);
    DoneIsEndIff(size, Consumed(received, left), left, body);
  }

  lemma ConsumedThenLeft(received: Bytes, left: Bytes)
    requires |left| <= |received| && left == received[|received| - |left|..]
    ensures received == Consumed(received, left) + left
  {
  }

  // ---- One pass of `chunk` over the buffered bytes ---------------------------

  datatype Step =
    | Yield(part: Bytes, cursor: Cursor, rest: Bytes)
    | Finish(rest: Bytes)
    | NeedMore(cursor: Cursor, rest: Bytes)
    | Broken(cursor: Cursor)

  function StepOf(size: SizeReader, cursor: Cursor, buf: Bytes): Step {
    match cursor
    case LengthLeft(rem) =>
      if rem == 0 then Finish(buf)
      else if buf != [] then
        var take := Min(rem, |buf|);
        Yield(buf[..take], LengthLeft(rem - take), buf[take..])
      else NeedMore(cursor, buf)
    case ChunksFrom(state) =>
      (match PullFrom(size, state, buf)
       case Malformed => Broken(ChunksFrom(Size))
       case Pulled(s, out, rest) =>
         if out != [] then Yield(out, ChunksFrom(s), rest)
         else if s.Done? then Finish(rest)
         else NeedMore(ChunksFrom(s), rest))
    case ToClose => if buf != [] then Yield(buf, cursor, []) else NeedMore(cursor, buf)
  }

  /** How what was delivered, the cursor and the buffer account for everything received. */
  ghost predicate Accounts(size: SizeReader, plan: BodyPlan, received: Bytes, delivered: Bytes, cursor: Cursor,
                           buf: Bytes) {
    match plan
    case Length(n) =>
      cursor.LengthLeft? && cursor.rem <= n && |delivered| == n - cursor.rem && delivered + buf == received
    case ChunkedBody =>
      cursor.ChunksFrom? && Prepend(delivered, PullFrom(size, cursor.state, buf)) == PullFrom(size, Size, received)
    case UntilClose =>
      cursor.ToClose? && delivered + buf == received
  }

  lemma StartAccounts(size: SizeReader, plan: BodyPlan, leftover: Bytes)
    ensures Accounts(size, plan, leftover, [], Start(plan), leftover)
  {
    PrependNothing(PullFrom(size, Size, leftover));
    assert [] + leftover == leftover;
  }

  /** A pass keeps the account; it only ends the stream when the framed body is complete. */
  lemma StepAccounts(size: SizeReader, plan: BodyPlan, received: Bytes, delivered: Bytes, cursor: Cursor, buf: Bytes)
    requires Accounts(size, plan, received, delivered, cursor, buf)
    ensures var step := StepOf(size, cursor, buf);
            && (step.Yield? ==>
              step.part != [] && Accounts(size, plan, received, delivered + step.part, step.cursor, step.rest))
            && (step.Finish? ==>
              !plan.UntilClose? && forall eof :: Ended(size, plan, received, step.rest, eof, delivered))
            && (step.NeedMore? ==> Accounts(size, plan, received, delivered, step.cursor, step.rest))
            && (step.NeedMore? && plan.UntilClose? ==> delivered == received)
            && (step.Broken? ==> plan.ChunkedBody? && PullFrom(size, Size, received) == Malformed)
  {
    match plan
    case Length(n) =>
      if cursor.rem == 0 {
        assert received[..n] == delivered;
      } else if buf != [] {
        var take := Min(cursor.rem, |buf|);
        assert delivered + buf[..take] + buf[take..] == received;
      }
    case ChunkedBody =>
      var p := PullFrom(size, cursor.state, buf);
      if p.Pulled? {
        assert PullFrom(size, p.state, p.rest) == Pulled(p.state, [], p.rest) by { PullStops(size, cursor.state, buf); }
        assert delivered + p.out + [] == delivered + p.out;
        if p.out == [] { assert delivered + [] == delivered; }
      }
    case UntilClose =>
      if buf != [] { assert delivered + buf + [] == received; } else { assert delivered + [] == delivered; }
  }

  /** A pull stops where no further turn is possible. */
  lemma {:induction false} PullStops(size: SizeReader, s: ChunkState, buf: Bytes)
    requires PullFrom(size, s, buf).Pulled?
    ensures var p := PullFrom(size, s, buf);
            TurnOf(size, p.state, p.rest) == Wait && PullFrom(size, p.state, p.rest) == Pulled(p.state, [], p.rest)
    decreases |buf|, Rank(s)
  {
    var t := TurnOf(size, s, buf);
    if t.Go? { PullStops(size, t.next, buf[t.used..]); }
  }

  lemma FillAccounts(size: SizeReader, plan: BodyPlan, received: Bytes, delivered: Bytes, cursor: Cursor, buf: Bytes,
                     more: Bytes)
    requires Accounts(size, plan, received, delivered, cursor, buf)
    ensures Accounts(size, plan, received + more, delivered, cursor, buf + more)
  {
    assert delivered + (buf + more) == delivered + buf + more;
    if plan.ChunkedBody? {
      PullSplit(size, Size, received, more);
      PullSplit(size, cursor.state, buf, more);
      ThenPrepend(size, delivered, PullFrom(size, cursor.state, buf), more);
    }
  }

  /** The received bytes hold a malformed chunk, so no body is complete. */
  predicate SpoiltBody(size: SizeReader, plan: BodyPlan, received: Bytes) {
    plan.ChunkedBody? && PullFrom(size, Size, received) == Malformed
  }

  lemma SpoiltStays(size: SizeReader, plan: BodyPlan, received: Bytes, more: Bytes)
    requires SpoiltBody(size, plan, received)
    ensures SpoiltBody(size, plan, received + more)
  {
    PullSplit(size, Size, received, more);
  }

  lemma SpoiltIsNotFramed(size: SizeReader, plan: BodyPlan, received: Bytes, left: Bytes, body: Bytes)
    requires SpoiltBody(size, plan, received)
    ensures !Framed(size, plan, Consumed(received, left), body)
  {
    var text := Consumed(received, left);
    assert received == text + received[|text|..];
    MalformedSpellsNothing(size, text, received[|text|..], body);
  }

  // ---- The buffered reader ---------------------------------------------------

  datatype Read = Got(bytes: Bytes) | Failed

  datatype ReadError = ClosedMidBody | BadChunk | IoError

  /** The bytes of reads that all succeed. */
  function Joined(feed: seq<Read>): Bytes
    requires forall r :: r in feed ==> r.Got?
  {
    if feed == [] then [] else feed[0].bytes + Joined(feed[1..])
  }

  /** The body part of `read_response`. */
  method ReadBody(size: SizeReader, plan: BodyPlan, leftover: Bytes, feed: seq<Read>)
      returns (r: Result<Bytes, ReadError>)
    ensures r == Buffered(size, plan, leftover, feed)
  {
    var body, next := leftover, 0;
    assert feed[0..] == feed;
    match plan
    case Length(n) =>
      while |body| < n
        invariant 0 <= next <= |feed| &&
          Buffered(size, plan, body, feed[next..]) == Buffered(size, plan, leftover, feed)
        decreases |feed| - next
      {
        if next == |feed| { return Err(ClosedMidBody); }
        if feed[next].Failed? { return Err(IoError); }
        assert feed[next..][1..] == feed[next + 1..];
        body, next := body + feed[next].bytes, next + 1;
      }
      return Ok(body[..n]);
    case ChunkedBody =>
      while true
        invariant 0 <= next <= |feed| &&
          Buffered(size, plan, body, feed[next..]) == Buffered(size, plan, leftover, feed)
        decreases |feed| - next
      {
        var decoded := DecodeChunked(size, body);
        if decoded.Some? { return Ok(decoded.value); }
        if next == |feed| { return Err(ClosedMidBody); }
        if feed[next].Failed? { return Err(IoError); }
        assert feed[next..][1..] == feed[next + 1..];
        body, next := body + feed[next].bytes, next + 1;
      }
    case UntilClose =>
      while next < |feed|
        invariant 0 <= next <= |feed| &&
          Buffered(size, plan, body, feed[next..]) == Buffered(size, plan, leftover, feed)
      {
        if feed[next].Failed? { return Err(IoError); }
        assert feed[next..][1..] == feed[next + 1..];
        body, next := body + feed[next].bytes, next + 1;
      }
      return Ok(body);
  }

  /** The body if `body` already holds it. */
  function Ready(size: SizeReader, plan: BodyPlan, body: Bytes, eof: bool): Option<Bytes> {
    match plan
    case Length(n) => if |body| < n then None else Some(body[..n])
    case ChunkedBody => Body(size, body)
    case UntilClose => if eof then Some(body) else None
  }

  function Buffered(size: SizeReader, plan: BodyPlan, body: Bytes, feed: seq<Read>): Result<Bytes, ReadError>
    decreases |feed|
  {
    var ready := Ready(size, plan, body, feed == []);
    if ready.Some? then Ok(ready.value)
    else if feed == [] then Err(ClosedMidBody)
    else if feed[0].Failed? then Err(IoError)
    else Buffered(size, plan, body + feed[0].bytes, feed[1..])
  }

  lemma {:induction false} BufferedGetsReady(size: SizeReader, plan: BodyPlan, body: Bytes, feed: seq<Read>,
                                             whole: Bytes)
    requires forall r :: r in feed ==> r.Got?
    requires Ready(size, plan, body + Joined(feed), true) == Some(whole)
    ensures Buffered(size, plan, body, feed) == Ok(whole)
    decreases |feed|
  {
    var ready := Ready(size, plan, body, feed == []);
    if feed == [] {
      assert body + Joined(feed) == body;
    } else {
      var first, rest := feed[0].bytes, Joined(feed[1..]);
      assert body + Joined(feed) == body + first + rest;
      if ready.Some? {
        if plan.Length? {
          assert (body + Joined(feed))[..plan.n] == body[..plan.n];
        } else {
          BodySurvivesExtension(size, body, Joined(feed));
        }
      } else {
        BufferedGetsReady(size, plan, body + first, feed[1..], whole);
      }
    }
  }

  /**
   Whenever a streamed body ends, the buffered reader gets the same body from the
   same bytes, however they are cut into reads and whatever follows what the stream read.
   */
  lemma StreamedIsBuffered(size: SizeReader, plan: BodyPlan, received: Bytes, left: Bytes, eof: bool, body: Bytes,
                           leftover: Bytes, feed: seq<Read>, more: Bytes)
    requires Ended(size, plan, received, left, eof, body)
    requires forall r :: r in feed ==> r.Got?
    requires leftover + Joined(feed) == received + more
    requires eof ==> more == []
    ensures Buffered(size, plan, leftover, feed) == Ok(body)
  {
    var all := received + more;
    match plan {
      case Length(n) => assert all[..n] == received[..n];
      case ChunkedBody => BodySurvivesExtension(size, received, more);
      case UntilClose => assert received + [] == received;
    }
    BufferedGetsReady(size, plan, leftover, feed, body);
  }

  /** Where the buffered reader stops: the bytes it has received, and the reads it leaves. */
  datatype Stop = Stop(received: Bytes, feed: seq<Read>)

  function StopOf(size: SizeReader, plan: BodyPlan, body: Bytes, feed: seq<Read>): Stop
    decreases |feed|
  {
    if Ready(size, plan, body, feed == []).Some? || feed == [] || feed[0].Failed? then Stop(body, feed)
    else StopOf(size, plan, body + feed[0].bytes, feed[1..])
  }

  lemma {:induction false} StopIsReady(size: SizeReader, plan: BodyPlan, body: Bytes, feed: seq<Read>)
    requires Buffered(size, plan, body, feed).Ok?
    ensures var stop := StopOf(size, plan, body, feed);
            Ready(size, plan, stop.received, stop.feed == []) == Some(Buffered(size, plan, body, feed).value)
    decreases |feed|
  {
    if Ready(size, plan, body, feed == []).None? { StopIsReady(size, plan, body + feed[0].bytes, feed[1..]); }
  }

  lemma {:induction false} StopReadsOn(size: SizeReader, plan: BodyPlan, body: Bytes, feed: seq<Read>)
    ensures body <= StopOf(size, plan, body, feed).received
    decreases |feed|
  {
    if Ready(size, plan, body, feed == []).None? && feed != [] && feed[0].Got? {
      StopReadsOn(size, plan, body + feed[0].bytes, feed[1..]);
    }
  }

  lemma {:induction false} StopKeepsBytes(size: SizeReader, plan: BodyPlan, body: Bytes, feed: seq<Read>)
    requires forall r :: r in feed ==> r.Got?
    ensures var stop := StopOf(size, plan, body, feed);
            (forall r :: r in stop.feed ==> r.Got?) && stop.received + Joined(stop.feed) == body + Joined(feed)
    decreases |feed|
  {
    if Ready(size, plan, body, feed == []).None? && feed != [] {
      StopKeepsBytes(size, plan, body + feed[0].bytes, feed[1..]);
      Assoc(body, feed[0].bytes, Joined(feed[1..]));
    }
  }

  /** The whole framed body is among the received bytes, so none of it is still to come. */
  ghost predicate AllHere(size: SizeReader, plan: BodyPlan, received: Bytes, body: Bytes) {
    match plan
    case Length(n) => n <= |received| && body == received[..n]
    case ChunkedBody =>
      exists m, rest :: MessageOk(size, m) && received == MessageText(m) + rest && MessageData(m) == body
    case UntilClose => false
  }

  /** Every chunk is closed by CRLF, and a blank line has arrived behind the zero line; only chunked bodies need it. */
  predicate EndArrived(size: SizeReader, plan: BodyPlan, received: Bytes) {
    plan.ChunkedBody? ==> HoldsMessage(size, received)
  }

  /**
   The buffered reader stops at the zero line of a chunked body, so the connection is at a
   clean boundary exactly if the blank line has arrived too and the chunks were closed.
   */
  lemma ReadyIsAllHereIff(size: SizeReader, plan: BodyPlan, received: Bytes, eof: bool, body: Bytes)
    requires Ready(size, plan, received, eof) == Some(body) && !plan.UntilClose?
    ensures AllHere(size, plan, received, body) <==> EndArrived(size, plan, received)
  {
    if plan.ChunkedBody? {
      HeldIff(size, received);
      if m, rest :| MessageOk(size, m) && received == MessageText(m) + rest { MessageIsDecoded(size, m, rest); }
    }
  }

  /**
   On a connection that carries a chunked body and then `rest`, the buffered reader gets the
   body, and what it leaves to be read is the rest, or the end of the body first.
   */
  lemma ReaderLeaves(size: SizeReader, m: Message, rest: Bytes, body: Bytes, feed: seq<Read>)
    requires MessageOk(size, m) && (forall r :: r in feed ==> r.Got?) && body + Joined(feed) == MessageText(m) + rest
    ensures Buffered(size, ChunkedBody, body, feed) == Ok(MessageData(m))
    ensures var stop := StopOf(size, ChunkedBody, body, feed);
            && (forall r :: r in stop.feed ==> r.Got?)
            && (EndArrived(size, ChunkedBody, stop.received) <==> |MessageText(m)| <= |stop.received|)
            && if |MessageText(m)| <= |stop.received|
               then rest == stop.received[|MessageText(m)|..] + Joined(stop.feed)
               else Joined(stop.feed) == MessageText(m)[|stop.received|..] + rest
  {
    var stop := StopOf(size, ChunkedBody, body, feed);
    MessageIsDecoded(size, m, rest);
    BufferedGetsReady(size, ChunkedBody, body, feed, MessageData(m));
    StopKeepsBytes(size, ChunkedBody, body, feed);
    CutOver(stop.received, Joined(stop.feed), MessageText(m), rest);
    HeldIsLong(size, m, rest, stop.received, Joined(stop.feed));
  }

  /** Two ways to cut one text. */
  lemma CutOver(a: Bytes, b: Bytes, c: Bytes, d: Bytes)
    requires a + b == c + d
    ensures if |c| <= |a| then a == c + a[|c|..] && d == a[|c|..] + b else b == c[|a|..] + d
  {
    if |c| <= |a| {
      assert c == (c + d)[..|c|] == a[..|c|];
      assert d == (c + d)[|c|..] == a[|c|..] + b;
    } else {
      assert b == (a + b)[|a|..] == c[|a|..] + d;
    }
  }

  lemma HeldIsLong(size: SizeReader, m: Message, rest: Bytes, received: Bytes, more: Bytes)
    requires MessageOk(size, m) && received + more == MessageText(m) + rest
    ensures HoldsMessage(size, received) <==> |MessageText(m)| <= |received|
  {
    CutOver(received, more, MessageText(m), rest);
    if |MessageText(m)| <= |received| { MessageIsHeld(size, m, received[|MessageText(m)|..]); }
    if HoldsMessage(size, received) {
      MessageIsHeld(size, m, rest);
      RestGrows(size, received, more);
      RestIsShort(size, received);
      assert |rest| == |MessageRest(size, received).value| + |more|;
    }
  }

  lemma RestIsShort(size: SizeReader, buf: Bytes)
    requires HoldsMessage(size, buf)
    ensures |MessageRest(size, buf).value| <= |buf|
  {
    var m, rest := HeldMessage(size, buf);
    MessageIsHeld(size, m, rest);
  }

  // ---- What follows a body ---------------------------------------------------

  /** What follows the framed body at the front of some bytes. */
  function BodyRest(size: SizeReader, plan: BodyPlan, s: Bytes): Option<Bytes> {
    match plan
    case Length(n) => if n <= |s| then Some(s[n..]) else None
    case ChunkedBody => MessageRest(size, s)
    case UntilClose => None
  }

  /** Behind `text` comes `rest`, whatever that is, exactly if `text` is a framed body. */
  lemma BodyRestIff(size: SizeReader, plan: BodyPlan, text: Bytes, rest: Bytes)
    ensures BodyRest(size, plan, text + rest) == Some(rest) <==> exists body :: Framed(size, plan, text, body)
  {
    match plan
    case Length(n) =>
      if |text| == n {
        assert Framed(size, plan, text, text) && (text + rest)[n..] == rest;
      } else if n <= |text + rest| {
        assert |(text + rest)[n..]| != |rest|;
      }
    case ChunkedBody =>
      RestIff(size, text, rest);
      if data :| Spells(size, text, data) { assert Framed(size, plan, text, data); }
      if body :| Framed(size, plan, text, body) { assert Spells(size, text, body); }
    case UntilClose =>
  }

  /**
   What the connection gives next is what follows the body, exactly if the reader received
   the framed body and nothing else.
   */
  lemma NextIsOwnIff(size: SizeReader, plan: BodyPlan, received: Bytes, next: Bytes)
    ensures BodyRest(size, plan, received + next) == Some(next) <==> BodyRest(size, plan, received) == Some([])
  {
    BodyRestIff(size, plan, received, next);
    BodyRestIff(size, plan, received, []);
    assert received + [] == received;
  }

  /** With the last CRLF in a read of its own, the reader reports the end and leaves it unread. */
  lemma ZeroLineStopsReader(size: SizeReader, zero: Bytes)
    requires SizeLine(size, zero, 0)
    ensures Buffered(size, ChunkedBody, zero + CRLF, [Got(CRLF)]) == Ok([])
    ensures StopOf(size, ChunkedBody, zero + CRLF, [Got(CRLF)]) == Stop(zero + CRLF, [Got(CRLF)])
    ensures !AllHere(size, ChunkedBody, zero + CRLF, [])
  {
    var received := zero + CRLF;
    assert received + [] == received;
    TrailerDone(size, zero, []);
    assert Ready(size, ChunkedBody, received, false) == Some([]);
    LineEnds(zero, []);
    ReadyIsAllHereIff(size, ChunkedBody, received, false, []);
  }

  // ---- The streaming reader --------------------------------------------------

  predicate Fits(plan: BodyPlan, cursor: Cursor) {
    match plan
    case Length(_) => cursor.LengthLeft?
    case ChunkedBody => cursor.ChunksFrom?
    case UntilClose => cursor.ToClose?
  }

  /** A stream's fields agree: it has met a malformed chunk, is in the middle of a body, or at its end. */
  ghost predicate StreamOk(size: SizeReader, plan: BodyPlan, received: Bytes, delivered: Bytes, eof: bool,
                           cursor: Cursor, buf: Bytes, open: bool, broken: bool) {
    && Fits(plan, cursor)
    && if broken then SpoiltBody(size, plan, received)
       else if open then Accounts(size, plan, received, delivered, cursor, buf)
       else Ended(size, plan, received, buf, eof, delivered)
  }

  /** Where a malformed chunk was met there is no end of a body to be found. */
  lemma SpoiltNeverEnds(size: SizeReader, plan: BodyPlan, received: Bytes)
    requires SpoiltBody(size, plan, received)
    ensures !Plainly(size, plan, received) && !EndArrived(size, plan, received)
  {
    MalformedHoldsNothing(size, received);
    if Regular(size, received) { RegularIsHeld(size, received); }
  }

  /** At the end of any stream, the consumed bytes are just the framed body exactly if the body is plain. */
  lemma EndIsFramedIff(size: SizeReader, plan: BodyPlan, received: Bytes, delivered: Bytes, eof: bool, cursor: Cursor,
                       buf: Bytes, broken: bool)
    requires StreamOk(size, plan, received, delivered, eof, cursor, buf, false, broken) && !plan.UntilClose?
    ensures Framed(size, plan, Consumed(received, buf), delivered) <==> Plainly(size, plan, received)
  {
    if broken {
      SpoiltNeverEnds(size, plan, received);
      SpoiltIsNotFramed(size, plan, received, buf, delivered);
    } else {
      EndedIsFramedIff(size, plan, received, buf, eof, delivered);
    }
  }

  /**
   And the whole framed body has been read exactly if its end has arrived, so that a counted
   body always has.
   */
  lemma EndIsAllHereIff(size: SizeReader, plan: BodyPlan, received: Bytes, delivered: Bytes, eof: bool, cursor: Cursor,
                        buf: Bytes, broken: bool)
    requires StreamOk(size, plan, received, delivered, eof, cursor, buf, false, broken) && !plan.UntilClose?
    ensures AllHere(size, plan, received, delivered) <==> EndArrived(size, plan, received)
  {
    if broken {
      SpoiltNeverEnds(size, plan, received);
      if m, rest :| MessageOk(size, m) && received == MessageText(m) + rest { MessageIsDecoded(size, m, rest); }
    } else {
      ReadyIsAllHereIff(size, plan, received, eof, delivered);
    }
  }

  /** What a pass leaves agrees as well. */
  lemma PassKeeps(size: SizeReader, plan: BodyPlan, received: Bytes, delivered: Bytes, eof: bool, cursor: Cursor,
                  buf: Bytes, broken: bool)
    requires StreamOk(size, plan, received, delivered, eof, cursor, buf, true, broken)
    ensures var step := StepOf(size, cursor, buf);
            && (step.Yield? ==>
              StreamOk(size, plan, received, delivered + step.part, eof, step.cursor, step.rest, true, broken))
            && (step.Finish? ==>
              !plan.UntilClose? &&
              forall e :: StreamOk(size, plan, received, delivered, e, cursor, step.rest, false, broken))
            && (step.NeedMore? ==> StreamOk(size, plan, received, delivered, eof, step.cursor, step.rest, true, broken))
            && (step.NeedMore? && plan.UntilClose? ==> delivered == received && step.rest == [])
            && (step.Broken? ==> StreamOk(size, plan, received, delivered, eof, step.cursor, buf, true, true))
  {
    if !broken { StepAccounts(size, plan, received, delivered, cursor, buf); }
  }

  lemma FillKeeps(size: SizeReader, plan: BodyPlan, received: Bytes, delivered: Bytes, eof: bool, cursor: Cursor,
                  buf: Bytes, broken: bool, more: Bytes)
    requires StreamOk(size, plan, received, delivered, eof, cursor, buf, true, broken)
    ensures StreamOk(size, plan, received + more, delivered, eof, cursor, buf + more, true, broken)
  {
    if broken {
      SpoiltStays(size, plan, received, more);
    } else {
      FillAccounts(size, plan, received, delivered, cursor, buf, more);
    }
  }

  datatype Refill = More | AtEnd | ReadFailed

  class ResponseStream {
    var conn: Option<Conn>
    var buf: Bytes
    var cursor: Cursor
    var feed: seq<Read>
    var dec: ChunkDecoder
    const size: SizeReader
    const pool: ConnPool
    const origin: Origin
    const thread: Thread
    const maxIdlePerHost: nat
    const close: bool

    ghost const plan: BodyPlan
    ghost var received: Bytes
    ghost var delivered: Bytes
    ghost var eof: bool
    /** A malformed chunk was met: the decoder and its buffer no longer agree. */
    ghost var broken: bool

    ghost predicate Valid()
      reads this, dec, pool
    {
      && pool.Valid()
      && dec.size == size && (cursor.ChunksFrom? ==> dec.state == cursor.state)
      && StreamOk(size, plan, received, delivered, eof, cursor, buf, conn.Some?, broken)
    }

    constructor (size: SizeReader, c: Conn, plan: BodyPlan, leftover: Bytes, feed: seq<Read>, pool: ConnPool,
                 origin: Origin, thread: Thread, maxIdlePerHost: nat, close: bool)
      requires pool.Valid()
      ensures Valid() && fresh(dec) && conn == Some(c) && !broken
      ensures this.size == size && this.plan == plan && received == leftover && delivered == [] && this.feed == feed &&
        this.pool == pool
    {
      conn, buf, cursor, this.feed := Some(c), leftover, Start(plan), feed;
      dec := new ChunkDecoder(size);
      this.size := size;
      this.pool, this.origin, this.thread := pool, origin, thread;
      this.maxIdlePerHost, this.close := maxIdlePerHost, close;
      this.plan, received, delivered, eof, broken := plan, leftover, [], false, false;
      StartAccounts(size, plan, leftover);
    }

    /** The pool after this stream has given its connection up. */
    ghost predicate GivenUp(before: Buckets, c: Conn, keepable: bool, now: nat)
      reads this, pool
    {
      if maxIdlePerHost > 0 && keepable && !close
      then SameBuckets(pool.idle, PutInto(before, Key(thread, origin), c, now, pool.maxPerOrigin))
      else pool.idle == before
    }

    /** Ends the stream: the connection goes back to the pool only if the body was framed and nobody asked to close. */
    method FinishStream(keepable: bool, now: nat)
      requires pool.Valid() && conn.Some?
      modifies this`conn, pool`idle
      ensures conn == None && pool.Valid() && GivenUp(old(pool.idle), old(conn).value, keepable, now)
    {
      var c := conn.value;
      conn := None;
      if maxIdlePerHost > 0 && keepable && !close {
        pool.Put(origin, thread, c, now);
      }
    }

    /** One pass over the buffer, the decoder included. */
    method Pass() returns (step: Step)
      requires Valid() && conn.Some?
      modifies this`buf, this`cursor, this`delivered, this`broken, dec
      ensures step == StepOf(size, old(cursor), old(buf)) && (cursor.ChunksFrom? ==> dec.state == cursor.state)
      ensures broken == (old(broken) || step.Broken?)
      ensures delivered == old(delivered) + if step.Yield? then step.part else []
      ensures !step.Finish? ==> Valid()
      ensures step.Finish? ==> StreamOk(size, plan, received, delivered, true, cursor, buf, false, broken)
      ensures step.Yield? ==> step.part != []
      ensures step.Finish? ==> !plan.UntilClose?
      ensures step.NeedMore? && plan.UntilClose? ==> delivered == received && buf == []
    {
      PassKeeps(size, plan, received, delivered, eof, cursor, buf, broken);
      assert delivered + [] == delivered;
      match cursor {
        case LengthLeft(_) => step := LengthPass();
        case ChunksFrom(_) => step := PullPass();
        case ToClose => step := ClosePass();
      }
    }

    /** The pass of a counted body: as much as there is, up to what remains. */
    method LengthPass() returns (step: Step)
      requires cursor.LengthLeft?
      modifies this`buf, this`cursor, this`delivered
      ensures step == StepOf(size, old(cursor), old(buf)) && cursor.LengthLeft? && !step.Broken?
      ensures delivered == old(delivered) + if step.Yield? then step.part else []
      ensures step.Yield? ==> step.part != []
      ensures step.Yield? || step.NeedMore? ==> buf == step.rest && cursor == step.cursor
      ensures step.Finish? ==> buf == step.rest && cursor == old(cursor)
    {
      assert delivered + [] == delivered;
      var rem := cursor.rem;
      if rem == 0 { return Finish(buf); }
      if buf == [] { return NeedMore(cursor, buf); }
      var take := Min(rem, |buf|);
      var part := buf[..take];
      cursor, buf, delivered := LengthLeft(rem - take), buf[take..], delivered + part;
      return Yield(part, cursor, buf);
    }

    /** The pass of a body that ends with the connection: everything there is. */
    method ClosePass() returns (step: Step)
      requires cursor.ToClose?
      modifies this`buf, this`delivered
      ensures step == StepOf(size, cursor, old(buf)) && (step.Yield? || step.NeedMore?)
      ensures delivered == old(delivered) + if step.Yield? then step.part else []
      ensures (step.Yield? ==> step.part != []) && buf == step.rest
    {
      assert delivered + [] == delivered;
      if buf == [] { return NeedMore(cursor, buf); }
      var part := buf;
      buf, delivered := [], delivered + part;
      return Yield(part, cursor, buf);
    }

    /** The chunked pass: one pull. */
    method PullPass() returns (step: Step)
      requires cursor.ChunksFrom? && dec.state == cursor.state && dec.size == size
      modifies this`buf, this`cursor, this`delivered, this`broken, dec
      ensures step == StepOf(size, old(cursor), old(buf)) && cursor == ChunksFrom(dec.state)
      ensures broken == (old(broken) || step.Broken?)
      ensures delivered == old(delivered) + if step.Yield? then step.part else []
      ensures step.Yield? ==> step.part != []
      ensures step.Broken? ==> buf == old(buf) && cursor == step.cursor
      ensures step.Yield? || step.NeedMore? ==> buf == step.rest && cursor == step.cursor
      ensures step.Finish? ==> buf == step.rest
    {
      var ok, rest, out := dec.Pull(buf, []);
      PrependNothing(PullFrom(size, cursor.state, buf));
      cursor := ChunksFrom(dec.state);
      if !ok {
        broken := true;
        return Broken(cursor);
      }
      buf := rest;
      if out != [] {
        delivered := delivered + out;
        return Yield(out, cursor, buf);
      }
      if dec.state.Done? { return Finish(buf); }
      return NeedMore(cursor, buf);
    }

    /** Reads more from the socket. */
    method Fill() returns (r: Refill)
      requires Valid() && conn.Some?
      modifies this`buf, this`received, this`feed
      ensures Valid() && old(received) <= received
      ensures r.More? ==> |feed| < |old(feed)|
      ensures r.AtEnd? ==> buf == old(buf) && received == old(received)
    {
      if feed == [] { return AtEnd; }
      var read := feed[0];
      feed := feed[1..];
      if read.Failed? { return ReadFailed; }
      FillKeeps(size, plan, received, delivered, eof, cursor, buf, broken, read.bytes);
      buf, received := buf + read.bytes, received + read.bytes;
      return More;
    }

    /**
     What `Chunk` says of an end: all that was sent; or just the framed body consumed if the
     body is plain, and all of it read if its end has arrived.
     */
    ghost predicate EndIs()
      reads this
    {
      if plan.UntilClose? then eof && delivered == received
      else
        && (Framed(size, plan, Consumed(received, buf), delivered) <==> Plainly(size, plan, received))
        && (AllHere(size, plan, received, delivered) <==> EndArrived(size, plan, received))
    }

    lemma EndHolds()
      requires Valid() && conn.None?
      ensures EndIs()
    {
      if !plan.UntilClose? {
        EndIsFramedIff(size, plan, received, delivered, eof, cursor, buf, broken);
        EndIsAllHereIff(size, plan, received, delivered, eof, cursor, buf, broken);
      }
    }

    /** The end of the stream, its body framed or not. */
    method End(keepable: bool, now: nat)
      requires pool.Valid() && dec.size == size && conn.Some? && (cursor.ChunksFrom? ==> dec.state == cursor.state)
      requires StreamOk(size, plan, received, delivered, true, cursor, buf, false, broken)
      modifies this`conn, this`eof, pool`idle
      ensures Valid() && conn == None && EndIs() && GivenUp(old(pool.idle), old(conn).value, keepable, now)
    {
      eof := true;
      FinishStream(keepable, now);
      EndHolds();
    }

    /**
     What an answer of `Chunk` says, given the stream as it was. A part is not empty, and is
     all that is added to what was delivered. `None` comes with the end of the body, and the
     connection is given up then and only then.
     */
    ghost predicate Answers(r: Result<Option<Bytes>, ReadError>, conn0: Option<Conn>, received0: Bytes,
                            delivered0: Bytes, broken0: bool, idle0: Buckets, now: nat)
      reads this, dec, pool
    {
      && Valid() && received0 <= received
      && broken == (broken0 || r == Err(BadChunk))
      && delivered == delivered0 + (if r.Ok? && r.value.Some? then r.value.value else [])
      && (r.Ok? && r.value.Some? ==> r.value.value != [])
      && (if r == Ok(None) then conn == None && EndIs() else conn == conn0)
      && if r == Ok(None) && conn0.Some? then GivenUp(idle0, conn0.value, !plan.UntilClose?, now)
         else pool.idle == idle0
    }

    /** The next part of the body, `None` at its end. */
    method Chunk(now: nat) returns (r: Result<Option<Bytes>, ReadError>)
      requires Valid()
      modifies this`buf, this`cursor, this`delivered, this`broken, this`received, this`eof, this`feed, this`conn, dec,
        pool`idle
      ensures Answers(r, old(conn), old(received), old(delivered), old(broken), old(pool.idle), now)
    {
      assert delivered + [] == delivered;
      while conn.Some?
        invariant Valid() && broken == old(broken)
        invariant conn == old(conn) && delivered == old(delivered) && pool.idle == old(pool.idle)
        invariant old(received) <= received
        decreases |feed|, conn.Some?
      {
        var turn := ChunkTurn(now);
        if turn.Some? { return turn.value; }
      }
      EndHolds();
      return Ok(None);
    }

    /** Once round: an answer, or more bytes to look at. */
    method ChunkTurn(now: nat) returns (r: Option<Result<Option<Bytes>, ReadError>>)
      requires Valid() && conn.Some?
      modifies this`buf, this`cursor, this`delivered, this`broken, this`received, this`eof, this`feed, this`conn, dec,
        pool`idle
      ensures r.Some? ==> Answers(r.value, old(conn), old(received), old(delivered), old(broken), old(pool.idle), now)
      ensures r.None? ==> Valid() && broken == old(broken) && conn == old(conn) && delivered == old(delivered)
      ensures r.None? ==> pool.idle == old(pool.idle) && old(received) <= received && |feed| < |old(feed)|
    {
      r := PassTurn(now);
      if r.None? { r := FillTurn(now); }
    }

    /** A pass: a part, an error, the end, or nothing to deliver yet. */
    method PassTurn(now: nat) returns (r: Option<Result<Option<Bytes>, ReadError>>)
      requires Valid() && conn.Some?
      modifies this`buf, this`cursor, this`delivered, this`broken, this`eof, this`conn, dec, pool`idle
      ensures r.Some? ==> Answers(r.value, old(conn), received, old(delivered), old(broken), old(pool.idle), now)
      ensures r.None? ==> Valid() && broken == old(broken) && conn == old(conn) && delivered == old(delivered)
      ensures r.None? ==>
        pool.idle == old(pool.idle) && (plan.UntilClose? ==> !broken && delivered == received && buf == [])
    {
      assert delivered + [] == delivered;
      var step := Pass();
      if step.NeedMore? { return None; }
      if step.Yield? { return Some(Ok(Some(step.part))); }
      if step.Broken? { return Some(Err(BadChunk)); }
      End(true, now);
      return Some(Ok(None));
    }

    /** Nothing to deliver yet: reads more, or meets the end of file. */
    method FillTurn(now: nat) returns (r: Option<Result<Option<Bytes>, ReadError>>)
      requires Valid() && conn.Some? && (plan.UntilClose? ==> !broken && delivered == received && buf == [])
      modifies this`buf, this`received, this`eof, this`feed, this`conn, pool`idle
      ensures r.Some? ==> Answers(r.value, old(conn), old(received), delivered, broken, old(pool.idle), now)
      ensures r.None? ==> Valid() && conn == old(conn) && pool.idle == old(pool.idle)
      ensures r.None? ==> old(received) <= received && |feed| < |old(feed)|
    {
      assert delivered + [] == delivered;
      var fill := Fill();
      if fill.More? { return None; }
      if fill.ReadFailed? { return Some(Err(IoError)); }
      if !cursor.ToClose? { return Some(Err(ClosedMidBody)); }
      End(false, now);
      return Some(Ok(None));
    }
  }
}
