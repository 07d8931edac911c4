/**
 The headers a response arrives with (crates/kernway-http/src/writer.rs:63-91), said of what
 the client reads and of what the handler set, name by name.
 */
module ResponseFields {
  import opened Common
  import opened Text
  import opened Fields
  import opened HttpWire
  import opened HttpWriter
  import R = ResponseRoundTrip
  import C = Replies
  import H = HttpClient
  import S = Streams

  const LENGTH: Bytes := [99, 111, 110, 116, 101, 110, 116, 45, 108, 101, 110, 103, 116, 104]
  const CONNECTION: Bytes := [99, 111, 110, 110, 101, 99, 116, 105, 111, 110]

  lemma NamesAre()
    ensures LengthName() == LENGTH && ConnectionName() == CONNECTION
    ensures LowerAll(LENGTH) == LENGTH && LowerAll(CONNECTION) == CONNECTION && LENGTH != CONNECTION
  {
    assert |LENGTH| == 14 && |CONNECTION| == 10;
  }

  lemma {:induction false} NamedBoth(a: seq<Pair>, b: seq<Pair>, name: Bytes)
    ensures C.Named(a + b, name) == C.Named(a, name) + C.Named(b, name)
  {
    if a == [] {
      assert a + b == b;
    } else {
      NamedBoth(a[1..], b, name);
      assert (a + b)[1..] == a[1..] + b && (a + b)[0] == a[0];
      Assoc(if SameIgnoringCase(a[0].name, name) then [a[0]] else [], C.Named(a[1..], name), C.Named(b, name));
    }
  }

  /** The two names that are the writer's own. */
  predicate Own(name: Bytes) {
    LowerAll(name) == LENGTH || LowerAll(name) == CONNECTION
  }

  lemma OwnIsTransport(name: Bytes)
    ensures Own(name) == IsTransport(name)
  {
    NamesAre();
  }

  lemma {:induction false} KeptByName(headers: seq<Pair>, name: Bytes)
    ensures C.Named(Kept(headers), name) == if Own(name) then [] else C.Named(headers, name)
  {
    OwnIsTransport(name);
    if headers != [] {
      KeptByName(headers[1..], name);
      OwnIsTransport(headers[0].name);
      NamedBoth(if IsTransport(headers[0].name) then [] else [headers[0]], Kept(headers[1..]), name);
      NamedOne(headers[0], name);
    }
  }

  lemma NamedOne(p: Pair, name: Bytes)
    ensures C.Named([p], name) == if SameIgnoringCase(p.name, name) then [p] else []
  {
    assert [p][1..] == [];
  }

  /** What arrives under a name: the writer's two, once each, and otherwise all the handler set, in order. */
  function Expected(r: Response, c: Connection, name: Bytes): seq<Pair> {
    if LowerAll(name) == LENGTH then [Pair(LENGTH, Digits(|r.body|))]
    else if LowerAll(name) == CONNECTION then [Pair(CONNECTION, Ascii(if c.Close? then "close" else "keep-alive"))]
    else C.Named(r.headers, name)
  }

  lemma SentByName(r: Response, c: Connection, name: Bytes)
    ensures C.Named(Sent(r, c, |r.body|), name) == Expected(r, c, name)
  {
    var a, b := Pair(LengthName(), Digits(|r.body|)), Pair(ConnectionName(), ConnectionValue(c));
    NamesAre();
    KeptByName(r.headers, name);
    assert [a, b] == [a] + [b];
    NamedBoth([a], [b], name);
    NamedOne(a, name);
    NamedOne(b, name);
    NamedBoth(Kept(r.headers), [a, b], name);
  }

  /**
   A clean response, in no coding and not chunked, arrives with its status and body, and under
   every name with just the headers expected there; the connection can be kept.
   */
  lemma ResponseArrives(codec: H.Codec, r: Response, c: Connection, feed: seq<S.Read>, more: Bytes)
      returns (reply: H.Reply)
    requires r.status <= H.U16_MAX && |r.body| <= USIZE_MAX && R.CleanHeaders(r.headers)
    requires !H.SaysChunked(r.headers) && !H.IsEncoded(r.headers)
    requires forall x :: x in feed ==> x.Got?
    requires S.Joined(feed) == Head(r, c, |r.body|) + r.body + more
    ensures H.ReadResponse(codec, feed) == Ok(reply)
    ensures reply.status == r.status && reply.body == r.body && reply.keepable
    ensures forall name :: C.Named(reply.headers, name) == Expected(r, c, name)
  {
    R.ResponseReadsBack(codec, r, c, feed, more);
    reply := H.Reply(r.status, Sent(r, c, |r.body|), r.body, true);
    forall name ensures C.Named(reply.headers, name) == Expected(r, c, name) { SentByName(r, c, name); }
  }
}
