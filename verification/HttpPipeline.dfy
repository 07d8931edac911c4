/**
 A pipelined stream of requests (crates/kernway-http/src/parser.rs:84-104): the caller
 keeps a buffer, asks the parser for a request, drops what it consumed and asks again; when
 the parser waits, it reads more.

 Any incremental parser that makes progress and does not change its mind gives one sequence
 of requests however the bytes arrive. The request parser is one.
 */
module HttpPipeline {
  import opened Text
  import P = HttpParser

  type Parser = Bytes -> P.Outcome

  /** A completed parse consumes something that is there. */
  ghost predicate Progresses(parse: Parser) {
    forall b :: parse(b).Complete? ==> 0 < parse(b).consumed <= |b|
  }

  /** An answer stands when more bytes arrive. */
  ghost predicate Stands(parse: Parser) {
    forall a, b :: parse(a) != P.Incomplete ==> parse(a + b) == parse(a)
  }

  datatype End = Waiting(rest: Bytes) | Stopped(error: P.ParseError)

  /** The requests of a buffer, one after the other, and how it ends. */
  datatype Drained = Drained(requests: seq<P.Request>, end: End)

  function Prepend(requests: seq<P.Request>, d: Drained): Drained {
    Drained(requests + d.requests, d.end)
  }

  ghost function Drain(parse: Parser, buf: Bytes): Drained
    requires Progresses(parse)
    decreases |buf|
  {
    match parse(buf)
    case Incomplete => Drained([], Waiting(buf))
    case Failed(e) => Drained([], Stopped(e))
    case Complete(request, consumed) => Prepend([request], Drain(parse, buf[consumed..]))
  }

  /** Goes on with `more`, unless the stream has failed. */
  ghost function Then(parse: Parser, d: Drained, more: Bytes): Drained
    requires Progresses(parse)
  {
    if d.end.Stopped? then d else Prepend(d.requests, Drain(parse, d.end.rest + more))
  }

  lemma PrependTwice(a: seq<P.Request>, b: seq<P.Request>, d: Drained)
    ensures Prepend(a, Prepend(b, d)) == Prepend(a + b, d)
  {
    assert a + (b + d.requests) == a + b + d.requests;
  }

  lemma {:induction false} DrainSplit(parse: Parser, a: Bytes, b: Bytes)
    requires Progresses(parse) && Stands(parse)
    ensures Drain(parse, a + b) == Then(parse, Drain(parse, a), b)
    decreases |a|
  {
    match parse(a)
    case Incomplete => assert Prepend([], Drain(parse, a + b)) == Drain(parse, a + b);
    case Failed(e) =>
    case Complete(request, consumed) =>
      DrainSplit(parse, a[consumed..], b);
      assert (a + b)[consumed..] == a[consumed..] + b;
      var d := Drain(parse, a[consumed..]);
      if d.end.Waiting? { PrependTwice([request], d.requests, Drain(parse, d.end.rest + b)); }
  }

  /** Feeds pieces as they arrive, keeping what is not yet a request. */
  ghost function Feed(parse: Parser, rest: Bytes, pieces: seq<Bytes>): Drained
    requires Progresses(parse)
    decreases |pieces|
  {
    if pieces == [] then Drained([], Waiting(rest))
    else
      var d := Drain(parse, rest + pieces[0]);
      if d.end.Stopped? then d else Prepend(d.requests, Feed(parse, d.end.rest, pieces[1..]))
  }

  /** A stream gives the same requests and the same end however it is cut into pieces. */
  lemma {:induction false} FeedIsDrain(parse: Parser, rest: Bytes, pieces: seq<Bytes>)
    requires Progresses(parse) && Stands(parse) && pieces != []
    ensures Feed(parse, rest, pieces) == Drain(parse, rest + Concat(pieces))
    decreases |pieces|
  {
    var first, more := rest + pieces[0], Concat(pieces[1..]);
    assert rest + Concat(pieces) == first + more;
    DrainSplit(parse, first, more);
    var d := Drain(parse, first);
    if d.end.Waiting? {
      if |pieces| == 1 {
        DrainSplit(parse, first, []);
        assert more == [] && first + [] == first;
        assert d.requests + [] == d.requests;
        DrainRests(parse, first);
      } else {
        FeedIsDrain(parse, d.end.rest, pieces[1..]);
      }
    }
  }

  /** What is left waiting holds no request. */
  lemma {:induction false} DrainRests(parse: Parser, buf: Bytes)
    requires Progresses(parse) && Drain(parse, buf).end.Waiting?
    ensures var rest := Drain(parse, buf).end.rest;
            parse(rest) == P.Incomplete && Drain(parse, rest) == Drained([], Waiting(rest))
    decreases |buf|
  {
    var o := parse(buf);
    if o.Complete? { DrainRests(parse, buf[o.consumed..]); }
  }

  /** Whole requests one after the other are drained one by one, with nothing left. */
  lemma {:induction false} DrainIsSequence(parse: Parser, texts: seq<Bytes>, requests: seq<P.Request>)
    requires Progresses(parse) && Stands(parse) && parse([]) == P.Incomplete
    requires |texts| == |requests|
    requires forall i :: 0 <= i < |texts| ==> parse(texts[i]) == P.Complete(requests[i], |texts[i]|)
    ensures Drain(parse, Concat(texts)) == Drained(requests, Waiting([]))
    decreases |texts|
  {
    if texts != [] {
      var first, rest := texts[0], Concat(texts[1..]);
      assert parse(first + rest) == parse(first);
      assert (first + rest)[|first|..] == rest;
      DrainIsSequence(parse, texts[1..], requests[1..]);
      assert requests == [requests[0]] + requests[1..];
    }
  }

  /** The request parser makes progress, and more bytes never change its answer. */
  lemma RequestParserStands()
    ensures Progresses(P.ParseBytes) && Stands(P.ParseBytes) && P.ParseBytes([]) == P.Incomplete
  {
    forall a, b | P.ParseBytes(a) != P.Incomplete ensures P.ParseBytes(a + b) == P.ParseBytes(a) {
      if P.ParseBytes(a).Complete? { P.CompleteExtends(a, b); } else { P.FailedExtends(a, b); }
    }
  }

  /** So its requests do not depend on how the stream arrives. */
  lemma ArrivalIsIrrelevant(pieces: seq<Bytes>, others: seq<Bytes>)
    requires pieces != [] && others != [] && Concat(pieces) == Concat(others)
    ensures Progresses(P.ParseBytes) && Feed(P.ParseBytes, [], pieces) == Feed(P.ParseBytes, [], others)
  {
    RequestParserStands();
    FeedIsDrain(P.ParseBytes, [], pieces);
    FeedIsDrain(P.ParseBytes, [], others);
  }
}
