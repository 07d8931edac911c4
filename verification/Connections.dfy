/**
 Who owns a connection, over whole runs of the client
 (crates/kernway-http-client/src/lib.rs:94-138, 559-587, 632-694, 882-1047).

 A world is the pool, the response streams, and for each connection ever dialed the one
 place it is in. `Next` is what one event does; the invariant holds after every run.
 */
module Connections {
  import opened Common
  import opened Text
  import opened Chunked
  import opened ChunkGrammar
  import opened Pool
  import opened Streams

  datatype Place = InPool(key: Key) | Held(stream: nat) | Closed

  /** A `ResponseStream` as a value. */
  datatype Live = Live(
    thread: Thread, origin: Origin, conn: Option<Conn>, close: bool,
    head: Bytes, plan: BodyPlan, cursor: Cursor, buf: Bytes, received: Bytes, delivered: Bytes, eof: bool, broken: bool)

  /**
   A connection handed back: the head and what was received behind it for this response, how
   much of that was `left` over, `buffered` if the body was read at once.
   */
  datatype Return = Return(
    stream: nat, conn: Conn, head: Bytes, plan: BodyPlan, received: Bytes, left: Bytes, delivered: Bytes, close: bool,
    buffered: bool)

  datatype Config = Config(cap: nat, maxIdlePerHost: nat, size: SizeReader)

  /** `wires` is all that was ever read from each connection. */
  datatype World = World(
    idle: Buckets, live: map<nat, Live>, place: map<Conn, Place>, handedBack: seq<Return>, wires: map<Conn, Bytes>)

  /** What the socket gives when it is asked for more. */
  datatype Arrival = Arrived(bytes: Bytes) | EndOfFile | Failure

  datatype Event =
    /** A request takes a pooled connection; a stale one is then dropped like any other stream. */
    | Reuse(stream: nat, thread: Thread, origin: Origin, now: nat,
            head: Bytes, plan: BodyPlan, leftover: Bytes, close: bool)
    /** A take that finds nothing fresh. */
    | Evict(thread: Thread, origin: Origin, now: nat)
    /** A request dials a new connection, on the thread that makes it. */
    | Dial(stream: nat, conn: Conn, head: Bytes, plan: BodyPlan, leftover: Bytes, close: bool)
    /** One pass of `chunk`. */
    | Poll(stream: nat, now: nat, arrival: Arrival)
    /** The buffered reader reads the whole body and returns the connection. */
    | Collect(stream: nat, now: nat, feed: seq<Read>)
    | Drop(stream: nat)

  function Opened(c: Conn, head: Bytes, plan: BodyPlan, leftover: Bytes, close: bool): Live {
    Live(c.home, c.origin, Some(c), close, head, plan, Start(plan), leftover, leftover, [], false, false)
  }

  /** All that was read from a connection. */
  function WireAt(wires: map<Conn, Bytes>, c: Conn): Bytes {
    if c in wires then wires[c] else []
  }

  function Heard(wires: map<Conn, Bytes>, c: Conn, bytes: Bytes): map<Conn, Bytes> {
    wires[c := WireAt(wires, c) + bytes]
  }

  /** The stream as it was opened. */
  function Untouched(l: Live): Live {
    l.(cursor := Start(l.plan), buf := l.received, delivered := [], eof := false, broken := false)
  }

  predicate Among(c: Conn, entries: seq<Idle>) {
    exists i :: 0 <= i < |entries| && entries[i].conn == c
  }

  function CloseAll(place: map<Conn, Place>, dropped: seq<Idle>): map<Conn, Place> {
    map c | c in place :: if Among(c, dropped) then Closed else place[c]
  }

  function FinishLive(cfg: Config, w: World, s: nat, l: Live, keepable: bool, now: nat, buffered: bool): World
    requires l.conn.Some?
  {
    var c, k := l.conn.value, Key(l.thread, l.origin);
    var live := w.live[s := l.(conn := None)];
    if cfg.maxIdlePerHost > 0 && keepable && !l.close then
      World(PutInto(w.idle, k, c, now, cfg.cap), live,
            w.place[c := if Room(w.idle, k, cfg.cap) then InPool(k) else Closed],
            w.handedBack + [ReturnOf(s, l, buffered)], w.wires)
    else
      w.(live := live, place := w.place[c := Closed])
  }

  function ReturnOf(s: nat, l: Live, buffered: bool): Return
    requires l.conn.Some?
  {
    Return(s, l.conn.value, l.head, l.plan, l.received, l.buf, l.delivered, l.close, buffered)
  }

  function CloseLive(w: World, s: nat, l: Live): World
    requires l.conn.Some?
  {
    w.(live := w.live[s := l.(conn := None)], place := w.place[l.conn.value := Closed])
  }

  /** What `later` has behind `sooner`. */
  function Added(sooner: Bytes, later: Bytes): Bytes {
    if |sooner| <= |later| then later[|sooner|..] else []
  }

  /** `read_response` and `maybe_return` on a connection nobody has polled. */
  function CollectLive(cfg: Config, w: World, s: nat, l: Live, now: nat, feed: seq<Read>): World
    requires l.conn.Some?
  {
    var received := StopOf(cfg.size, l.plan, l.received, feed).received;
    var w' := w.(wires := Heard(w.wires, l.conn.value, Added(l.received, received)));
    match Buffered(cfg.size, l.plan, l.received, feed)
    case Err(_) => CloseLive(w', s, l)
    case Ok(body) =>
      FinishLive(cfg, w', s, l.(received := received, delivered := body, buf := []), !l.plan.UntilClose?, now, true)
  }

  function PollLive(cfg: Config, w: World, s: nat, l: Live, now: nat, arrival: Arrival): World
    requires l.conn.Some?
  {
    match StepOf(cfg.size, l.cursor, l.buf)
    case Yield(part, c, rest) =>
      w.(live := w.live[s := l.(cursor := c, buf := rest, delivered := l.delivered + part)])
    case Finish(rest) => FinishLive(cfg, w, s, l.(buf := rest), true, now, false)
    case Broken(c) => w.(live := w.live[s := l.(cursor := c, broken := true)])
    case NeedMore(c, rest) =>
      match arrival
      case Arrived(bytes) =>
        w.(live := w.live[s := l.(cursor := c, buf := rest + bytes, received := l.received + bytes)],
           wires := Heard(w.wires, l.conn.value, bytes))
      case EndOfFile =>
        if c.ToClose? then FinishLive(cfg, w, s, l.(cursor := c, buf := rest, eof := true), false, now, false)
        else w.(live := w.live[s := l.(cursor := c, buf := rest, eof := true)])
      case Failure => w.(live := w.live[s := l.(cursor := c, buf := rest)])
  }

  /** The world after an event, if the event can happen. */
  function Next(cfg: Config, w: World, ev: Event): Option<World> {
    match ev
    case Reuse(s, thread, origin, now, head, plan, leftover, close) =>
      var k := Key(thread, origin);
      var t := TakeFrom(BucketAt(w.idle, k), now);
      if s in w.live || t.got.None? then None
      else
        var c := t.got.value;
        Some(World(w.idle[k := t.left], w.live[s := Opened(c, head, plan, leftover, close)],
                   CloseAll(w.place, t.dropped)[c := Held(s)], w.handedBack, Heard(w.wires, c, head + leftover)))
    case Evict(thread, origin, now) =>
      var k := Key(thread, origin);
      var t := TakeFrom(BucketAt(w.idle, k), now);
      if t.got.Some? then None
      else Some(w.(idle := w.idle[k := t.left], place := CloseAll(w.place, t.dropped)))
    case Dial(s, c, head, plan, leftover, close) =>
      if s in w.live || c in w.place then None
      else Some(w.(live := w.live[s := Opened(c, head, plan, leftover, close)], place := w.place[c := Held(s)],
                   wires := w.wires[c := head + leftover]))
    case Poll(s, now, arrival) =>
      if s !in w.live || w.live[s].conn.None? then None
      else Some(PollLive(cfg, w, s, w.live[s], now, arrival))
    case Collect(s, now, feed) =>
      if s !in w.live || w.live[s].conn.None? || w.live[s] != Untouched(w.live[s]) then None
      else Some(CollectLive(cfg, w, s, w.live[s], now, feed))
    case Drop(s) =>
      if s !in w.live || w.live[s].conn.None? then None
      else Some(CloseLive(w, s, w.live[s]))
  }

  function Run(cfg: Config, w: World, evs: seq<Event>): Option<World> {
    if evs == [] then Some(w)
    else
      var w' := Run(cfg, w, evs[..|evs| - 1]);
      if w'.None? then None else Next(cfg, w'.value, evs[|evs| - 1])
  }

  const START: World := World(map[], map[], map[], [], map[])

  // ---- The invariant ---------------------------------------------------------

  /** A pooled connection is in the bucket of its own thread and origin. */
  ghost predicate Filed(idle: Buckets, place: map<Conn, Place>) {
    forall k, i :: k in idle && 0 <= i < |idle[k]| ==>
      var c := idle[k][i].conn; c in place && place[c] == InPool(k) && Key(c.home, c.origin) == k
  }

  /** No bucket holds a connection twice. */
  ghost predicate Once(idle: Buckets) {
    forall k, i, j :: k in idle && 0 <= i < j < |idle[k]| ==> idle[k][i].conn != idle[k][j].conn
  }

  ghost predicate Capped(cfg: Config, idle: Buckets) {
    forall k :: k in idle ==> |idle[k]| <= cfg.cap
  }

  /** A connection said to be pooled is in that bucket. */
  ghost predicate Backed(idle: Buckets, place: map<Conn, Place>) {
    forall c :: c in place && place[c].InPool? ==> place[c].key in idle && Among(c, idle[place[c].key])
  }

  ghost predicate PoolOk(cfg: Config, idle: Buckets, place: map<Conn, Place>) {
    Filed(idle, place) && Once(idle) && Capped(cfg, idle) && Backed(idle, place)
  }

  /** A held connection belongs to exactly the stream that holds it, on the connection's own thread. */
  ghost predicate HeldOk(live: map<nat, Live>, place: map<Conn, Place>) {
    && (forall s :: s in live && live[s].conn.Some? ==>
          var c := live[s].conn.value;
          c in place && place[c] == Held(s) && c.home == live[s].thread && c.origin == live[s].origin)
    && (forall c :: c in place && place[c].Held? ==> place[c].stream in live && live[place[c].stream].conn == Some(c))
  }

  ghost predicate LiveOk(size: SizeReader, l: Live) {
    l.conn.Some? ==> StreamOk(size, l.plan, l.received, l.delivered, l.eof, l.cursor, l.buf, true, l.broken)
  }

  ghost predicate LivesOk(size: SizeReader, live: map<nat, Live>) {
    forall s :: s in live ==> LiveOk(size, live[s])
  }

  /**
   The whole framed body was read exactly if its end had arrived: for a counted body always,
   for a chunked one if the chunks were closed by CRLF and a blank line came behind the zero
   line. A stream has consumed just the framed body exactly if that blank line came first.
   */
  ghost predicate ReturnOk(size: SizeReader, r: Return) {
    && !r.close && !r.plan.UntilClose?
    && (AllHere(size, r.plan, r.received, r.delivered) <==> EndArrived(size, r.plan, r.received))
    && (!r.buffered ==>
          (Framed(size, r.plan, Consumed(r.received, r.left), r.delivered) <==> Plainly(size, r.plan, r.received)))
  }

  /** A stream hands its connection back at most once, and each return is as `ReturnOk` says. */
  ghost predicate ReturnsOk(size: SizeReader, live: map<nat, Live>, handedBack: seq<Return>) {
    && (forall i :: 0 <= i < |handedBack| ==>
          handedBack[i].stream in live && live[handedBack[i].stream].conn.None? && ReturnOk(size, handedBack[i]))
    && (forall i, j :: 0 <= i < j < |handedBack| ==> handedBack[i].stream != handedBack[j].stream)
  }

  ghost predicate Inv(cfg: Config, w: World) {
    PoolOk(cfg, w.idle, w.place) && HeldOk(w.live, w.place) && LivesOk(cfg.size, w.live) &&
      ReturnsOk(cfg.size, w.live, w.handedBack)
  }

  // ---- The pool --------------------------------------------------------------

  /** Taking entries off the end of a bucket and closing their connections. */
  lemma CutKeepsPool(cfg: Config, idle: Buckets, place: map<Conn, Place>, k: Key, left: seq<Idle>, gone: seq<Idle>)
    requires PoolOk(cfg, idle, place) && BucketAt(idle, k) == left + gone
    ensures PoolOk(cfg, idle[k := left], CloseAll(place, gone))
    ensures forall c :: Among(c, gone) ==> c in place && place[c] == InPool(k) && Key(c.home, c.origin) == k
  {
    var bucket, idle', place' := BucketAt(idle, k), idle[k := left], CloseAll(place, gone);
    forall c | Among(c, gone) ensures c in place && place[c] == InPool(k) && Key(c.home, c.origin) == k {
      var j :| 0 <= j < |gone| && gone[j].conn == c;
      assert bucket[|left| + j] == gone[j];
    }
    assert Filed(idle', place') by {
      forall k', i | k' in idle' && 0 <= i < |idle'[k']|
        ensures var c := idle'[k'][i].conn; c in place' && place'[c] == InPool(k') && Key(c.home, c.origin) == k'
      {
        LeftStays(cfg, idle, place, k, left, gone, k', i);
      }
    }
    assert Backed(idle', place') by {
      forall i | |left| <= i < |bucket| ensures Among(bucket[i].conn, gone) {
        assert gone[i - |left|].conn == bucket[i].conn;
      }
      forall c | c in place' && place'[c].InPool? ensures place'[c].key in idle' && Among(c, idle'[place'[c].key]) {
        if place[c].key == k {
          var i :| 0 <= i < |bucket| && bucket[i].conn == c;
          assert left[i].conn == c;
        }
      }
    }
    assert Once(idle') by {
      forall k', i, j | k' in idle' && 0 <= i < j < |idle'[k']| ensures idle'[k'][i].conn != idle'[k'][j].conn {
        if k' == k { assert bucket[i] == left[i] && bucket[j] == left[j]; }
      }
    }
  }

  lemma LeftStays(cfg: Config, idle: Buckets, place: map<Conn, Place>, k: Key, left: seq<Idle>, gone: seq<Idle>,
                  k': Key, i: nat)
    requires PoolOk(cfg, idle, place) && BucketAt(idle, k) == left + gone
    requires k' in idle[k := left] && i < |idle[k := left][k']|
    ensures var c := idle[k := left][k'][i].conn;
            c in place && place[c] == InPool(k') && Key(c.home, c.origin) == k' && !Among(c, gone)
  {
    var bucket, c := BucketAt(idle, k), idle[k := left][k'][i].conn;
    if k' == k { assert bucket[i] == left[i]; }
    assert place[c] == InPool(k');
    forall j | 0 <= j < |gone| ensures gone[j].conn != c {
      assert bucket[|left| + j] == gone[j];
    }
  }

  /** Moving a connection that is not pooled somewhere that is not the pool. */
  lemma MoveKeepsPool(cfg: Config, idle: Buckets, place: map<Conn, Place>, c: Conn, p: Place)
    requires PoolOk(cfg, idle, place) && !p.InPool? && (c in place ==> !place[c].InPool?)
    ensures PoolOk(cfg, idle, place[c := p])
  {
  }

  lemma PutKeepsPool(cfg: Config, idle: Buckets, place: map<Conn, Place>, k: Key, c: Conn, now: nat)
    requires PoolOk(cfg, idle, place) && c in place && !place[c].InPool? && Key(c.home, c.origin) == k
    requires Room(idle, k, cfg.cap)
    ensures PoolOk(cfg, PutInto(idle, k, c, now, cfg.cap), place[c := InPool(k)])
  {
    var bucket, idle', place' := BucketAt(idle, k), PutInto(idle, k, c, now, cfg.cap), place[c := InPool(k)];
    assert idle'[k] == bucket + [Idle(c, now)];
    assert Backed(idle', place') by {
      assert idle'[k][|bucket|].conn == c;
      forall c' | c' in place' && place'[c'].InPool? && c' != c
        ensures place'[c'].key in idle' && Among(c', idle'[place'[c'].key]) {
        if place[c'].key == k {
          var i :| 0 <= i < |bucket| && bucket[i].conn == c';
          assert idle'[k][i].conn == c';
        }
      }
    }
  }

  // ---- Preservation ----------------------------------------------------------

  /** Replacing a stream by one with the same connection. */
  lemma UpdateKeeps(cfg: Config, w: World, s: nat, l: Live)
    requires Inv(cfg, w) && s in w.live && LiveOk(cfg.size, l)
    requires l.conn == w.live[s].conn && l.thread == w.live[s].thread && l.origin == w.live[s].origin
    ensures Inv(cfg, w.(live := w.live[s := l]))
  {
  }

  lemma AmongFirst(c: Conn, first: Idle, dropped: seq<Idle>)
    ensures Among(c, [first] + dropped) <==> c == first.conn || Among(c, dropped)
  {
    var all := [first] + dropped;
    assert all[0] == first;
    if Among(c, dropped) {
      var i :| 0 <= i < |dropped| && dropped[i].conn == c;
      assert all[i + 1].conn == c;
    }
  }

  /** Closing a connection before it is moved makes no difference. */
  lemma CloseTaken(place: map<Conn, Place>, first: Idle, dropped: seq<Idle>, p: Place)
    ensures CloseAll(place, dropped)[first.conn := p] == CloseAll(place, [first] + dropped)[first.conn := p]
  {
    forall c ensures Among(c, [first] + dropped) <==> c == first.conn || Among(c, dropped) {
      AmongFirst(c, first, dropped);
    }
  }

  lemma ReuseKeepsWorld(cfg: Config, w: World, k: Key, left: seq<Idle>, first: Idle, dropped: seq<Idle>, s: nat,
                        l: Live)
    requires Inv(cfg, w) && s !in w.live && BucketAt(w.idle, k) == left + ([first] + dropped)
    requires l.conn == Some(first.conn) && l.thread == first.conn.home && l.origin == first.conn.origin &&
      LiveOk(cfg.size, l)
    ensures Inv(cfg, w.(idle := w.idle[k := left], live := w.live[s := l],
                        place := CloseAll(w.place, dropped)[first.conn := Held(s)]))
  {
    var c, gone := first.conn, [first] + dropped;
    var closed := CloseAll(w.place, gone);
    AmongFirst(c, first, dropped);
    CutKeepsPool(cfg, w.idle, w.place, k, left, gone);
    CloseTaken(w.place, first, dropped, Held(s));
    MoveKeepsPool(cfg, w.idle[k := left], closed, c, Held(s));
    ClosedOnlyPooled(w.place, gone, k);
    OpenKeepsHeld(cfg.size, w.live, w.place, closed, s, l, w.handedBack);
  }

  lemma ClosedOnlyPooled(place: map<Conn, Place>, gone: seq<Idle>, k: Key)
    requires forall c :: Among(c, gone) ==> c in place && place[c] == InPool(k) && Key(c.home, c.origin) == k
    ensures var closed := CloseAll(place, gone);
            closed.Keys == place.Keys &&
            forall c :: c in place ==> closed[c] == place[c] || (place[c].InPool? && closed[c] == Closed)
  {
  }

  lemma ReuseKeeps(cfg: Config, w: World, ev: Event)
    requires Inv(cfg, w) && ev.Reuse? && Next(cfg, w, ev).Some?
    ensures Inv(cfg, Next(cfg, w, ev).value)
  {
    var k := Key(ev.thread, ev.origin);
    var bucket := BucketAt(w.idle, k);
    var t := TakeFrom(bucket, ev.now);
    TakenIs(bucket, ev.now);
    OpenedOk(cfg.size, t.got.value, ev.head, ev.plan, ev.leftover, ev.close);
    ReuseKeepsTaken(cfg, w, k, bucket, t, ev.stream, Opened(t.got.value, ev.head, ev.plan, ev.leftover, ev.close));
  }

  lemma OpenedOk(size: SizeReader, c: Conn, head: Bytes, plan: BodyPlan, leftover: Bytes, close: bool)
    ensures LiveOk(size, Opened(c, head, plan, leftover, close))
  {
    StartAccounts(size, plan, leftover);
  }

  lemma ReuseKeepsTaken(cfg: Config, w: World, k: Key, bucket: seq<Idle>, t: Taken, s: nat, l: Live)
    requires Inv(cfg, w) && s !in w.live && BucketAt(w.idle, k) == bucket && t.got.Some? && |t.left| < |bucket|
    requires bucket == t.left + [bucket[|t.left|]] + t.dropped && t.got.value == bucket[|t.left|].conn
    requires l.conn == t.got && l.thread == t.got.value.home && l.origin == t.got.value.origin && LiveOk(cfg.size, l)
    ensures Inv(cfg, w.(idle := w.idle[k := t.left], live := w.live[s := l],
                        place := CloseAll(w.place, t.dropped)[t.got.value := Held(s)]))
  {
    var first := bucket[|t.left|];
    assert bucket == t.left + ([first] + t.dropped);
    ReuseKeepsWorld(cfg, w, k, t.left, first, t.dropped, s, l);
  }

  /** Opening a stream on a connection nobody holds. */
  lemma OpenKeepsHeld(size: SizeReader, live: map<nat, Live>, place: map<Conn, Place>, place': map<Conn, Place>, s: nat,
                      l: Live, handedBack: seq<Return>)
    requires HeldOk(live, place) && ReturnsOk(size, live, handedBack) && s !in live
    requires l.conn.Some? && l.conn.value.home == l.thread && l.conn.value.origin == l.origin
    requires l.conn.value in place ==> !place[l.conn.value].Held?
    requires place'.Keys == place.Keys
    requires forall c :: c in place ==> place'[c] == place[c] || (place[c].InPool? && place'[c] == Closed)
    ensures HeldOk(live[s := l], place'[l.conn.value := Held(s)]) && ReturnsOk(size, live[s := l], handedBack)
  {
  }

  lemma EvictKeeps(cfg: Config, w: World, ev: Event)
    requires Inv(cfg, w) && ev.Evict? && Next(cfg, w, ev).Some?
    ensures Inv(cfg, Next(cfg, w, ev).value)
  {
    var k := Key(ev.thread, ev.origin);
    var bucket := BucketAt(w.idle, k);
    TakenIs(bucket, ev.now);
    assert bucket == [] + bucket;
    CutKeeps(cfg, w, k, [], bucket);
  }

  lemma CutKeeps(cfg: Config, w: World, k: Key, left: seq<Idle>, gone: seq<Idle>)
    requires Inv(cfg, w) && BucketAt(w.idle, k) == left + gone
    ensures Inv(cfg, w.(idle := w.idle[k := left], place := CloseAll(w.place, gone)))
  {
    CutKeepsPool(cfg, w.idle, w.place, k, left, gone);
  }

  lemma DialKeeps(cfg: Config, w: World, ev: Event)
    requires Inv(cfg, w) && ev.Dial? && Next(cfg, w, ev).Some?
    ensures Inv(cfg, Next(cfg, w, ev).value)
  {
    MoveKeepsPool(cfg, w.idle, w.place, ev.conn, Held(ev.stream));
    var l := Opened(ev.conn, ev.head, ev.plan, ev.leftover, ev.close);
    OpenKeepsHeld(cfg.size, w.live, w.place, w.place, ev.stream, l, w.handedBack);
    OpenedOk(cfg.size, ev.conn, ev.head, ev.plan, ev.leftover, ev.close);
  }

  /** A stream letting go of its connection. */
  lemma ReleaseKeepsHeld(
    size: SizeReader, live: map<nat, Live>, place: map<Conn, Place>, s: nat, l: Live, p: Place, handedBack: seq<Return>)
    requires HeldOk(live, place) && ReturnsOk(size, live, handedBack) && LivesOk(size, live)
    requires s in live && live[s].conn.Some? && l.conn.None? && !p.Held?
    ensures HeldOk(live[s := l], place[live[s].conn.value := p])
    ensures ReturnsOk(size, live[s := l], handedBack) && LivesOk(size, live[s := l])
    ensures forall i :: 0 <= i < |handedBack| ==> handedBack[i].stream != s
  {
    ReleaseHeld(live, place, s, l, p);
    assert LiveOk(size, l);
  }

  lemma ReleaseHeld(live: map<nat, Live>, place: map<Conn, Place>, s: nat, l: Live, p: Place)
    requires HeldOk(live, place) && s in live && live[s].conn.Some? && l.conn.None? && !p.Held?
    ensures HeldOk(live[s := l], place[live[s].conn.value := p])
  {
  }

  lemma FinishKeeps(cfg: Config, w: World, s: nat, l: Live, keepable: bool, now: nat, buffered: bool)
    requires Inv(cfg, w) && s in w.live && w.live[s].conn.Some? && l.conn == w.live[s].conn
    requires l.thread == w.live[s].thread && l.origin == w.live[s].origin
    requires keepable && !l.close ==> ReturnOk(cfg.size, ReturnOf(s, l, buffered))
    ensures Inv(cfg, FinishLive(cfg, w, s, l, keepable, now, buffered))
  {
    var w', c, k := FinishLive(cfg, w, s, l, keepable, now, buffered), l.conn.value, Key(l.thread, l.origin);
    ReleaseKeepsHeld(cfg.size, w.live, w.place, s, l.(conn := None), w'.place[c], w.handedBack);
    if w'.place[c] == InPool(k) {
      PutKeepsPool(cfg, w.idle, w.place, k, c, now);
    } else {
      MoveKeepsPool(cfg, w.idle, w.place, c, Closed);
    }
  }

  lemma CloseKeeps(cfg: Config, w: World, s: nat)
    requires Inv(cfg, w) && s in w.live && w.live[s].conn.Some?
    ensures Inv(cfg, CloseLive(w, s, w.live[s]))
  {
    var l := w.live[s];
    ReleaseKeepsHeld(cfg.size, w.live, w.place, s, l.(conn := None), Closed, w.handedBack);
    MoveKeepsPool(cfg, w.idle, w.place, l.conn.value, Closed);
  }

  lemma CollectKeeps(cfg: Config, w: World, s: nat, now: nat, feed: seq<Read>)
    requires Inv(cfg, w) && s in w.live && w.live[s].conn.Some?
    ensures Inv(cfg, CollectLive(cfg, w, s, w.live[s], now, feed))
  {
    var l, stop := w.live[s], StopOf(cfg.size, w.live[s].plan, w.live[s].received, feed);
    var w' := w.(wires := Heard(w.wires, l.conn.value, Added(l.received, stop.received)));
    match Buffered(cfg.size, l.plan, l.received, feed)
    case Err(_) => CloseKeeps(cfg, w', s);
    case Ok(body) =>
      StopIsReady(cfg.size, l.plan, l.received, feed);
      if !l.plan.UntilClose? { ReadyIsAllHereIff(cfg.size, l.plan, stop.received, stop.feed == [], body); }
      FinishKeeps(cfg, w', s, l.(received := stop.received, delivered := body, buf := []), !l.plan.UntilClose?, now,
                  true);
  }

  lemma StreamFinishKeeps(cfg: Config, w: World, s: nat, rest: Bytes, now: nat)
    requires Inv(cfg, w) && s in w.live && w.live[s].conn.Some? &&
      StepOf(cfg.size, w.live[s].cursor, w.live[s].buf) == Finish(rest)
    ensures Inv(cfg, FinishLive(cfg, w, s, w.live[s].(buf := rest), true, now, false))
  {
    var l := w.live[s];
    assert LiveOk(cfg.size, l);
    PassKeeps(cfg.size, l.plan, l.received, l.delivered, l.eof, l.cursor, l.buf, l.broken);
    EndIsFramedIff(cfg.size, l.plan, l.received, l.delivered, l.eof, l.cursor, rest, l.broken);
    EndIsAllHereIff(cfg.size, l.plan, l.received, l.delivered, l.eof, l.cursor, rest, l.broken);
    FinishKeeps(cfg, w, s, l.(buf := rest), true, now, false);
  }

  lemma PollKeeps(cfg: Config, w: World, s: nat, now: nat, arrival: Arrival)
    requires Inv(cfg, w) && s in w.live && w.live[s].conn.Some?
    ensures Inv(cfg, PollLive(cfg, w, s, w.live[s], now, arrival))
  {
    var l := w.live[s];
    assert LiveOk(cfg.size, l);
    PassKeeps(cfg.size, l.plan, l.received, l.delivered, l.eof, l.cursor, l.buf, l.broken);
    match StepOf(cfg.size, l.cursor, l.buf)
    case Yield(part, c, rest) => UpdateKeeps(cfg, w, s, l.(cursor := c, buf := rest, delivered := l.delivered + part));
    case Broken(c) => UpdateKeeps(cfg, w, s, l.(cursor := c, broken := true));
    case Finish(rest) => StreamFinishKeeps(cfg, w, s, rest, now);
    case NeedMore(c, rest) => MoreKeeps(cfg, w, s, c, rest, now, arrival);
  }

  lemma MoreKeeps(cfg: Config, w: World, s: nat, c: Cursor, rest: Bytes, now: nat, arrival: Arrival)
    requires Inv(cfg, w) && s in w.live && w.live[s].conn.Some? &&
      StepOf(cfg.size, w.live[s].cursor, w.live[s].buf) == NeedMore(c, rest)
    requires var l := w.live[s]; StreamOk(cfg.size, l.plan, l.received, l.delivered, l.eof, c, rest, true, l.broken)
    ensures Inv(cfg, PollLive(cfg, w, s, w.live[s], now, arrival))
  {
    var l := w.live[s];
    match arrival
    case Arrived(bytes) =>
      FillKeeps(cfg.size, l.plan, l.received, l.delivered, l.eof, c, rest, l.broken, bytes);
      var w' := w.(wires := Heard(w.wires, l.conn.value, bytes));
      UpdateKeeps(cfg, w', s, l.(cursor := c, buf := rest + bytes, received := l.received + bytes));
    case EndOfFile =>
      if c.ToClose? {
        FinishKeeps(cfg, w, s, l.(cursor := c, buf := rest, eof := true), false, now, false);
      } else {
        UpdateKeeps(cfg, w, s, l.(cursor := c, buf := rest, eof := true));
      }
    case Failure => UpdateKeeps(cfg, w, s, l.(cursor := c, buf := rest));
  }

  lemma NextKeeps(cfg: Config, w: World, ev: Event)
    requires Inv(cfg, w) && Next(cfg, w, ev).Some?
    ensures Inv(cfg, Next(cfg, w, ev).value)
  {
    match ev
    case Reuse(_, _, _, _, _, _, _, _) => ReuseKeeps(cfg, w, ev);
    case Evict(_, _, _) => EvictKeeps(cfg, w, ev);
    case Dial(_, _, _, _, _, _) => DialKeeps(cfg, w, ev);
    case Poll(s, now, arrival) => PollKeeps(cfg, w, s, now, arrival);
    case Collect(s, now, feed) => CollectKeeps(cfg, w, s, now, feed);
    case Drop(s) => CloseKeeps(cfg, w, s);
  }

  /** In every run each connection is where its one place says, and the pool and the returns are in order. */
  lemma {:induction false} RunKeeps(cfg: Config, evs: seq<Event>)
    requires Run(cfg, START, evs).Some?
    ensures Inv(cfg, Run(cfg, START, evs).value)
  {
    if evs != [] {
      var front := evs[..|evs| - 1];
      RunKeeps(cfg, front);
      NextKeeps(cfg, Run(cfg, START, front).value, evs[|evs| - 1]);
    }
  }

  /** A reused connection had been idle for less than the timeout, in the bucket of the thread that reuses it. */
  lemma ReuseIsFresh(cfg: Config, w: World, ev: Event)
    requires Inv(cfg, w) && ev.Reuse? && Next(cfg, w, ev).Some?
    ensures var l := Next(cfg, w, ev).value.live[ev.stream];
            && l.conn.Some? && l.thread == ev.thread && l.origin == ev.origin
            && exists e :: e in BucketAt(w.idle, Key(ev.thread, ev.origin)) && e.conn == l.conn.value &&
                           SaturatingSub(ev.now, e.since) < 20_000
  {
    var bucket := BucketAt(w.idle, Key(ev.thread, ev.origin));
    var t := TakeFrom(bucket, ev.now);
    TakenIs(bucket, ev.now);
    assert bucket[|t.left|] in bucket;
  }

  // ---- Which response a byte belongs to --------------------------------------

  /** What the returned responses of a connection have read from it, heads included. */
  function ReadFor(handedBack: seq<Return>, c: Conn): Bytes {
    if handedBack == [] then []
    else
      var front, last := ReadFor(handedBack[..|handedBack| - 1], c), handedBack[|handedBack| - 1];
      if last.conn == c then front + (last.head + last.received) else front
  }

  lemma ReadForNext(handedBack: seq<Return>, r: Return, c: Conn)
    ensures ReadFor(handedBack + [r], c) ==
            ReadFor(handedBack, c) + if r.conn == c then r.head + r.received else []
  {
    assert (handedBack + [r])[..|handedBack|] == handedBack;
  }

  lemma {:induction false} ReadForNobody(handedBack: seq<Return>, c: Conn)
    requires forall i :: 0 <= i < |handedBack| ==> handedBack[i].conn != c
    ensures ReadFor(handedBack, c) == []
  {
    if handedBack != [] { ReadForNobody(handedBack[..|handedBack| - 1], c); }
  }

  /** What the stream that holds a connection has read from it. */
  function Reading(live: map<nat, Live>, p: Place): Bytes {
    if p.Held? && p.stream in live then live[p.stream].head + live[p.stream].received else []
  }

  /** All that was read from a connection in use was read for its returned responses and the one that holds it. */
  ghost predicate WireOk(w: World, c: Conn) {
    c in w.place && !w.place[c].Closed? ==>
      WireAt(w.wires, c) == ReadFor(w.handedBack, c) + Reading(w.live, w.place[c])
  }

  ghost predicate WiresOk(w: World) {
    && (forall c :: c in w.place ==> WireOk(w, c))
    && (forall i :: 0 <= i < |w.handedBack| ==> w.handedBack[i].conn in w.place)
  }

  /** A connection the event does not touch. */
  lemma OtherWire(w: World, w': World, c: Conn)
    requires WireOk(w, c) && c in w.place && c in w'.place && (w'.place[c] == w.place[c] || w'.place[c].Closed?)
    requires WireAt(w'.wires, c) == WireAt(w.wires, c) && ReadFor(w'.handedBack, c) == ReadFor(w.handedBack, c)
    requires w.place[c].Held? ==> Reading(w'.live, w.place[c]) == Reading(w.live, w.place[c])
    ensures WireOk(w', c)
  {
  }

  /** The stream `s` has read `bytes` more. */
  lemma FillWires(w: World, s: nat, c: Conn, l: Live, bytes: Bytes)
    requires WiresOk(w) && HeldOk(w.live, w.place) && s in w.live && w.live[s].conn == Some(c)
    requires l.head == w.live[s].head && l.received == w.live[s].received + bytes
    ensures WiresOk(w.(live := w.live[s := l], wires := Heard(w.wires, c, bytes)))
  {
    var w' := w.(live := w.live[s := l], wires := Heard(w.wires, c, bytes));
    forall d | d in w'.place ensures WireOk(w', d) {
      if d == c {
        Assoc(l.head, w.live[s].received, bytes);
        Assoc(ReadFor(w.handedBack, c), l.head + w.live[s].received, bytes);
      } else {
        OtherWire(w, w', d);
      }
    }
  }

  /** The stream lets go of its connection, which is closed or handed back. */
  lemma ReleaseWires(w: World, w': World, s: nat, c: Conn, p: Place, r: Return, handsBack: bool)
    requires WiresOk(w) && HeldOk(w.live, w.place) && s in w.live && w.live[s].conn == Some(c) && s in w'.live
    requires r.conn == c && r.head == w.live[s].head && r.received == w.live[s].received
    requires w'.place == w.place[c := p] && !p.Held? && (handsBack || p.Closed?) && w'.wires == w.wires
    requires w'.live == w.live[s := w'.live[s]]
    requires w'.handedBack == if handsBack then w.handedBack + [r] else w.handedBack
    ensures WiresOk(w')
  {
    assert WireOk(w, c);
    forall d | d in w'.place ensures WireOk(w', d) {
      ReadForNext(w.handedBack, r, d);
      if d != c {
        assert ReadFor(w'.handedBack, d) == ReadFor(w.handedBack, d);
        OtherWire(w, w', d);
      }
    }
  }

  lemma SameHeld(live: map<nat, Live>, place: map<Conn, Place>, s: nat, l: Live)
    requires HeldOk(live, place) && s in live && l.conn == live[s].conn
    requires l.thread == live[s].thread && l.origin == live[s].origin
    ensures HeldOk(live[s := l], place)
  {
  }

  lemma FinishWires(cfg: Config, w: World, s: nat, l: Live, keepable: bool, now: nat, buffered: bool)
    requires WiresOk(w.(live := w.live[s := l])) && HeldOk(w.live, w.place) && s in w.live && l.conn.Some?
    requires l.conn == w.live[s].conn && l.thread == w.live[s].thread && l.origin == w.live[s].origin
    ensures WiresOk(FinishLive(cfg, w, s, l, keepable, now, buffered))
  {
    var w', r := FinishLive(cfg, w, s, l, keepable, now, buffered), ReturnOf(s, l, buffered);
    var c, handsBack := l.conn.value, cfg.maxIdlePerHost > 0 && keepable && !l.close;
    SameHeld(w.live, w.place, s, l);
    assert w'.live == w.live[s := l][s := w'.live[s]];
    ReleaseWires(w.(live := w.live[s := l]), w', s, c, w'.place[c], r, handsBack);
  }

  /** A step in which the stream reads nothing. */
  lemma StepWires(w: World, s: nat, l: Live)
    requires WiresOk(w) && HeldOk(w.live, w.place) && s in w.live && w.live[s].conn.Some?
    requires l.head == w.live[s].head && l.received == w.live[s].received
    ensures WiresOk(w.(live := w.live[s := l]))
  {
    var w' := w.(live := w.live[s := l]);
    forall d | d in w'.place ensures WireOk(w', d) { OtherWire(w, w', d); }
  }

  lemma EndWires(cfg: Config, w: World, s: nat, l: Live, keepable: bool, now: nat)
    requires WiresOk(w) && HeldOk(w.live, w.place) && s in w.live && l.conn.Some?
    requires l.conn == w.live[s].conn && l.thread == w.live[s].thread && l.origin == w.live[s].origin
    requires l.head == w.live[s].head && l.received == w.live[s].received
    ensures WiresOk(FinishLive(cfg, w, s, l, keepable, now, false))
  {
    StepWires(w, s, l);
    FinishWires(cfg, w, s, l, keepable, now, false);
  }

  lemma PollWires(cfg: Config, w: World, s: nat, now: nat, arrival: Arrival)
    requires WiresOk(w) && HeldOk(w.live, w.place) && s in w.live && w.live[s].conn.Some?
    ensures WiresOk(PollLive(cfg, w, s, w.live[s], now, arrival))
  {
    var l, step := w.live[s], StepOf(cfg.size, w.live[s].cursor, w.live[s].buf);
    if step.NeedMore? {
      MoreWires(cfg, w, s, step.cursor, step.rest, now, arrival);
    } else if step.Finish? {
      EndWires(cfg, w, s, l.(buf := step.rest), true, now);
    } else if step.Yield? {
      StepWires(w, s, l.(cursor := step.cursor, buf := step.rest, delivered := l.delivered + step.part));
    } else {
      StepWires(w, s, l.(cursor := step.cursor, broken := true));
    }
  }

  lemma MoreWires(cfg: Config, w: World, s: nat, c: Cursor, rest: Bytes, now: nat, arrival: Arrival)
    requires WiresOk(w) && HeldOk(w.live, w.place) && s in w.live && w.live[s].conn.Some?
    requires StepOf(cfg.size, w.live[s].cursor, w.live[s].buf) == NeedMore(c, rest)
    ensures WiresOk(PollLive(cfg, w, s, w.live[s], now, arrival))
  {
    var l := w.live[s];
    match arrival
    case Arrived(bytes) =>
      FillWires(w, s, l.conn.value, l.(cursor := c, buf := rest + bytes, received := l.received + bytes), bytes);
    case EndOfFile =>
      if c.ToClose? {
        EndWires(cfg, w, s, l.(cursor := c, buf := rest, eof := true), false, now);
      } else {
        StepWires(w, s, l.(cursor := c, buf := rest, eof := true));
      }
    case Failure => StepWires(w, s, l.(cursor := c, buf := rest));
  }

  lemma CollectWires(cfg: Config, w: World, s: nat, now: nat, feed: seq<Read>)
    requires WiresOk(w) && HeldOk(w.live, w.place) && s in w.live && w.live[s].conn.Some?
    ensures WiresOk(CollectLive(cfg, w, s, w.live[s], now, feed))
  {
    var l, received := w.live[s], StopOf(cfg.size, w.live[s].plan, w.live[s].received, feed).received;
    var bytes := Added(l.received, received);
    var wires := Heard(w.wires, l.conn.value, bytes);
    match Buffered(cfg.size, l.plan, l.received, feed)
    case Err(_) => CloseWires(w, s, wires);
    case Ok(body) =>
      var l' := l.(received := received, delivered := body, buf := []);
      StopReadsOn(cfg.size, l.plan, l.received, feed);
      FillWires(w, s, l.conn.value, l', bytes);
      FinishWires(cfg, w.(wires := wires), s, l', !l.plan.UntilClose?, now, true);
  }

  lemma CloseWires(w: World, s: nat, wires: map<Conn, Bytes>)
    requires WiresOk(w) && HeldOk(w.live, w.place) && s in w.live && w.live[s].conn.Some?
    requires forall d :: d != w.live[s].conn.value ==> WireAt(wires, d) == WireAt(w.wires, d)
    ensures WiresOk(CloseLive(w.(wires := wires), s, w.live[s]))
  {
    var w' := CloseLive(w.(wires := wires), s, w.live[s]);
    forall d | d in w'.place ensures WireOk(w', d) {
      if d != w.live[s].conn.value { OtherWire(w, w', d); }
    }
  }

  /** The connection a stream is opened on. */
  lemma OpenedWire(w: World, w': World, s: nat, c: Conn, l: Live)
    requires WireAt(w.wires, c) == ReadFor(w.handedBack, c)
    requires c in w'.place && w'.place[c] == Held(s) && s in w'.live && w'.live[s] == l
    requires w'.handedBack == w.handedBack && WireAt(w'.wires, c) == WireAt(w.wires, c) + (l.head + l.received)
    ensures WireOk(w', c)
  {
  }

  /** A stream is opened on a connection nobody holds, and others may be closed. */
  lemma OpenWires(w: World, w': World, s: nat, c: Conn, l: Live)
    requires WiresOk(w) && HeldOk(w.live, w.place) && s !in w.live && WireAt(w.wires, c) == ReadFor(w.handedBack, c)
    requires w'.place.Keys == w.place.Keys + {c} && w'.place[c] == Held(s) && w'.live == w.live[s := l]
    requires forall d :: d in w.place && d != c ==> w'.place[d] == w.place[d] || w'.place[d].Closed?
    requires w'.handedBack == w.handedBack && w'.wires == Heard(w.wires, c, l.head + l.received)
    ensures WiresOk(w')
  {
    OpenedWire(w, w', s, c, l);
    forall d | d in w.place && d != c ensures WireOk(w', d) {
      assert w.place[d].Held? ==> w.place[d].stream != s;
      OtherWire(w, w', d);
    }
  }

  lemma PooledWire(w: World, c: Conn)
    requires WiresOk(w) && c in w.place && w.place[c].InPool?
    ensures WireAt(w.wires, c) == ReadFor(w.handedBack, c)
  {
    assert WireOk(w, c);
  }

  lemma TakenIsPooled(cfg: Config, w: World, k: Key, now: nat)
    requires PoolOk(cfg, w.idle, w.place)
    ensures var got := TakeFrom(BucketAt(w.idle, k), now).got;
            got.Some? ==> got.value in w.place && w.place[got.value].InPool?
  {
    TakenIs(BucketAt(w.idle, k), now);
  }

  lemma ReuseWires(cfg: Config, w: World, ev: Event)
    requires Inv(cfg, w) && WiresOk(w) && ev.Reuse? && Next(cfg, w, ev).Some?
    ensures WiresOk(Next(cfg, w, ev).value)
  {
    var k := Key(ev.thread, ev.origin);
    var c := TakeFrom(BucketAt(w.idle, k), ev.now).got.value;
    TakenIsPooled(cfg, w, k, ev.now);
    PooledWire(w, c);
    OpenWires(w, Next(cfg, w, ev).value, ev.stream, c, Opened(c, ev.head, ev.plan, ev.leftover, ev.close));
  }

  lemma EvictWires(cfg: Config, w: World, ev: Event)
    requires WiresOk(w) && ev.Evict? && Next(cfg, w, ev).Some?
    ensures WiresOk(Next(cfg, w, ev).value)
  {
    var w' := Next(cfg, w, ev).value;
    forall d | d in w'.place ensures WireOk(w', d) { OtherWire(w, w', d); }
  }

  lemma DialWires(cfg: Config, w: World, ev: Event)
    requires Inv(cfg, w) && WiresOk(w) && ev.Dial? && Next(cfg, w, ev).Some?
    ensures WiresOk(Next(cfg, w, ev).value)
  {
    var w' := Next(cfg, w, ev).value;
    ReadForNobody(w.handedBack, ev.conn);
    forall d | d in w'.place ensures WireOk(w', d) {
      if d != ev.conn { OtherWire(w, w', d); }
    }
  }

  lemma NextWires(cfg: Config, w: World, ev: Event)
    requires Inv(cfg, w) && WiresOk(w) && Next(cfg, w, ev).Some?
    ensures WiresOk(Next(cfg, w, ev).value)
  {
    match ev
    case Reuse(_, _, _, _, _, _, _, _) => ReuseWires(cfg, w, ev);
    case Evict(_, _, _) => EvictWires(cfg, w, ev);
    case Dial(_, _, _, _, _, _) => DialWires(cfg, w, ev);
    case Poll(s, now, arrival) => PollWires(cfg, w, s, now, arrival);
    case Collect(s, now, feed) => CollectWires(cfg, w, s, now, feed);
    case Drop(s) => CloseWires(w, s, w.wires);
  }

  /**
   In every run, all that was read from a connection in use is what its returned responses
   have read, one after the other, and then what the stream that holds it has.
   */
  lemma {:induction false} RunWires(cfg: Config, evs: seq<Event>)
    requires Run(cfg, START, evs).Some?
    ensures WiresOk(Run(cfg, START, evs).value)
  {
    if evs != [] {
      var front := evs[..|evs| - 1];
      RunKeeps(cfg, front);
      RunWires(cfg, front);
      NextWires(cfg, Run(cfg, START, front).value, evs[|evs| - 1]);
    }
  }

  /**
   With `after` still behind them, each of the connection's returned bodies is followed at
   once by what was read as the next response.
   */
  predicate EachFollowed(size: SizeReader, handedBack: seq<Return>, c: Conn, after: Bytes) {
    handedBack == [] ||
      var front, r := handedBack[..|handedBack| - 1], handedBack[|handedBack| - 1];
      if r.conn != c then EachFollowed(size, front, c, after)
      else
        && BodyRest(size, r.plan, r.received + after) == Some(after)
        && EachFollowed(size, front, c, r.head + r.received + after)
  }

  /** Each return on the connection had received its framed body and no byte more. */
  ghost predicate EachExact(size: SizeReader, handedBack: seq<Return>, c: Conn) {
    forall i :: 0 <= i < |handedBack| && handedBack[i].conn == c ==>
      BodyRest(size, handedBack[i].plan, handedBack[i].received) == Some([])
  }

  lemma EachExactNext(size: SizeReader, handedBack: seq<Return>, c: Conn)
    requires handedBack != []
    ensures var r := handedBack[|handedBack| - 1];
            EachExact(size, handedBack, c) <==>
            EachExact(size, handedBack[..|handedBack| - 1], c) &&
            (r.conn == c ==> BodyRest(size, r.plan, r.received) == Some([]))
  {
  }

  lemma {:induction false} FollowedIffExact(size: SizeReader, handedBack: seq<Return>, c: Conn, after: Bytes)
    ensures EachFollowed(size, handedBack, c, after) <==> EachExact(size, handedBack, c)
    decreases |handedBack|
  {
    if handedBack != [] {
      var front, r := handedBack[..|handedBack| - 1], handedBack[|handedBack| - 1];
      EachExactNext(size, handedBack, c);
      if r.conn == c {
        NextIsOwnIff(size, r.plan, r.received, after);
        FollowedIffExact(size, front, c, r.head + r.received + after);
      } else {
        FollowedIffExact(size, front, c, after);
      }
    }
  }

  /**
   In every run, and whatever a connection in use gives `next`: the bytes read from it are
   cut into responses where the bodies end, so that every response on it is read from its own
   first byte, exactly if each return had received its framed body and no byte more.
   */
  lemma EachReadsItsOwn(cfg: Config, evs: seq<Event>, c: Conn, next: Bytes)
    requires Run(cfg, START, evs).Some?
    requires var w := Run(cfg, START, evs).value; c in w.place && !w.place[c].Closed?
    ensures var w := Run(cfg, START, evs).value;
            var now := Reading(w.live, w.place[c]);
            && WireAt(w.wires, c) == ReadFor(w.handedBack, c) + now
            && (EachFollowed(cfg.size, w.handedBack, c, now + next) <==> EachExact(cfg.size, w.handedBack, c))
  {
    var w := Run(cfg, START, evs).value;
    RunWires(cfg, evs);
    assert WireOk(w, c);
    FollowedIffExact(cfg.size, w.handedBack, c, Reading(w.live, w.place[c]) + next);
  }

  // ---- Runs that hand a connection back at the wrong place -------------------

  lemma RunStep(cfg: Config, evs: seq<Event>, ev: Event, w: World, w': World)
    requires Run(cfg, START, evs) == Some(w) && Next(cfg, w, ev) == Some(w')
    ensures Run(cfg, START, evs + [ev]) == Some(w')
  {
    assert (evs + [ev])[..|evs|] == evs;
  }

  /** The world in which one stream is open. */
  function OneLive(s: nat, c: Conn, l: Live): World {
    World(map[], map[s := l], map[c := Held(s)], [], map[c := l.head + l.received])
  }

  lemma DialRuns(cfg: Config, s: nat, c: Conn, head: Bytes, plan: BodyPlan, leftover: Bytes)
    ensures Run(cfg, START, [Dial(s, c, head, plan, leftover, false)]) ==
      Some(OneLive(s, c, Opened(c, head, plan, leftover, false)))
  {
    var ev := Dial(s, c, head, plan, leftover, false);
    assert [] + [ev] == [ev];
    RunStep(cfg, [], ev, START, OneLive(s, c, Opened(c, head, plan, leftover, false)));
  }

  /** Bytes arrive for the stream. */
  lemma FillRuns(cfg: Config, evs: seq<Event>, s: nat, c: Conn, l: Live, cur: Cursor, rest: Bytes, bytes: Bytes,
                 now: nat)
    requires Run(cfg, START, evs) == Some(OneLive(s, c, l)) && l.conn == Some(c) &&
      StepOf(cfg.size, l.cursor, l.buf) == NeedMore(cur, rest)
    ensures Run(cfg, START, evs + [Poll(s, now, Arrived(bytes))]) ==
            Some(OneLive(s, c, l.(cursor := cur, buf := rest + bytes, received := l.received + bytes)))
  {
    var l' := l.(cursor := cur, buf := rest + bytes, received := l.received + bytes);
    assert map[s := l][s := l'] == map[s := l'];
    Assoc(l.head, l.received, bytes);
    assert Heard(map[c := l.head + l.received], c, bytes) == map[c := l'.head + l'.received];
    RunStep(cfg, evs, Poll(s, now, Arrived(bytes)), OneLive(s, c, l), OneLive(s, c, l'));
  }

  /** The stream meets a malformed chunk. */
  lemma BreakRuns(cfg: Config, evs: seq<Event>, s: nat, c: Conn, l: Live, cur: Cursor, now: nat)
    requires Run(cfg, START, evs) == Some(OneLive(s, c, l)) && l.conn == Some(c) &&
      StepOf(cfg.size, l.cursor, l.buf) == Broken(cur)
    ensures Run(cfg, START, evs + [Poll(s, now, Failure)]) == Some(OneLive(s, c, l.(cursor := cur, broken := true)))
  {
    var l' := l.(cursor := cur, broken := true);
    assert map[s := l][s := l'] == map[s := l'];
    RunStep(cfg, evs, Poll(s, now, Failure), OneLive(s, c, l), OneLive(s, c, l'));
  }

  /** What a run that ends `l` comes to. */
  ghost predicate HandsBack(cfg: Config, w: Option<World>, s: nat, c: Conn, l: Live) {
    && w.Some? && l.conn == Some(c) && w.value.handedBack == [ReturnOf(s, l, false)]
    && w.value.place == map[c := if cfg.cap > 0 then InPool(Key(l.thread, l.origin)) else Closed]
  }

  /** The stream ends, and its connection is handed back. */
  lemma FinishRuns(cfg: Config, evs: seq<Event>, s: nat, c: Conn, l: Live, rest: Bytes, now: nat)
    requires Run(cfg, START, evs) == Some(OneLive(s, c, l)) && l.conn == Some(c) &&
      StepOf(cfg.size, l.cursor, l.buf) == Finish(rest)
    requires cfg.maxIdlePerHost > 0 && !l.close
    ensures HandsBack(cfg, Run(cfg, START, evs + [Poll(s, now, Failure)]), s, c, l.(buf := rest))
  {
    RunStep(cfg, evs, Poll(s, now, Failure), OneLive(s, c, l),
      FinishLive(cfg, OneLive(s, c, l), s, l.(buf := rest), true, now, false));
  }

  const ONE: Bytes := [49]
  const ZERO: Bytes := [48]
  const FIELD: Bytes := [88, 58, 121]  // a trailer field

  /** A size line announcing one byte. */
  const ONE_CHUNK: Bytes := ONE + CRLF

  /** The byte `0`, its CRLF, and an empty size line. */
  const ZERO_THEN_BLANK: Bytes := ZERO + CRLF + (CRLF + CRLF)

  /** A body whose trailer section is not empty: its message is this and one more CRLF. */
  const TRAILER_BODY: Bytes := ZERO + CRLF + (FIELD + CRLF)

  ghost predicate ReadsDigits(size: SizeReader) {
    SizeLine(size, ONE, 1) && SizeLine(size, ZERO, 0) && size([]) == None
  }

  /** The source's reader of size lines does. */
  lemma SourceReadsDigits()
    ensures ReadsDigits(ParseSize)
  {
    HexIsSize(0);
    HexIsSize(1);
    assert Hex(0) == ZERO && Hex(1) == ONE;
  }

  lemma OneChunkIsRead(size: SizeReader)
    requires ReadsDigits(size)
    ensures PullFrom(size, Size, ONE_CHUNK) == Pulled(Data(1), [], [])
  {
    LineEnds(ONE, []);
    assert ONE + CRLF + [] == ONE_CHUNK;
    assert TurnOf(size, Size, ONE_CHUNK) == Go(Data(1), [], 3);
  }

  lemma BlankLineIsBad(size: SizeReader, rest: Bytes)
    requires ReadsDigits(size)
    ensures PullFrom(size, Size, CRLF + rest) == Malformed
  {
    EmptyIsLine();
    LineEnds([], rest);
    assert [] + CRLF + rest == CRLF + rest;
  }

  lemma FirstPollFails(size: SizeReader)
    requires ReadsDigits(size)
    ensures PullFrom(size, Data(1), ZERO_THEN_BLANK) == Malformed
  {
    DataPulls(size, ZERO, CRLF, CRLF + CRLF);
    BlankLineIsBad(size, CRLF);
    assert ZERO_THEN_BLANK == ZERO + (CRLF + (CRLF + CRLF));
  }

  lemma SecondPollFinishes(size: SizeReader)
    requires ReadsDigits(size)
    ensures PullFrom(size, Size, ZERO_THEN_BLANK) == Pulled(Done, [], CRLF)
  {
    EmptyIsLine();
    EndPulls(size, ZERO, [], CRLF);
    assert [] + CRLF + CRLF == CRLF + CRLF;
  }

  /** The stream of the run below, at each of its polls. */
  function Polled(c: Conn, head: Bytes, cursor: Cursor, buf: Bytes, received: Bytes, broken: bool): Live {
    Opened(c, head, ChunkedBody, [], false).(cursor := cursor, buf := buf, received := received, broken := broken)
  }

  /** The size line comes with the head, then the rest. */
  function FirstEvents(s: nat, c: Conn, head: Bytes, now: nat): seq<Event> {
    [Dial(s, c, head, ChunkedBody, ONE_CHUNK, false), Poll(s, now, Arrived(ZERO_THEN_BLANK))]
  }

  /** The stream after them. */
  function FirstPolled(c: Conn, head: Bytes): Live {
    Polled(c, head, ChunksFrom(Data(1)), ZERO_THEN_BLANK, ONE_CHUNK + ZERO_THEN_BLANK, false)
  }

  /** The events of the run that fails: a third poll. */
  function ErrorEvents(s: nat, c: Conn, head: Bytes, now: nat): seq<Event> {
    FirstEvents(s, c, head, now) + [Poll(s, now, Failure)]
  }

  lemma FirstRun(cfg: Config, s: nat, c: Conn, head: Bytes, now: nat)
    requires ReadsDigits(cfg.size)
    ensures Run(cfg, START, FirstEvents(s, c, head, now)) == Some(OneLive(s, c, FirstPolled(c, head)))
  {
    var dial, poll := Dial(s, c, head, ChunkedBody, ONE_CHUNK, false), Poll(s, now, Arrived(ZERO_THEN_BLANK));
    var l := Polled(c, head, ChunksFrom(Size), ONE_CHUNK, ONE_CHUNK, false);
    DialRuns(cfg, s, c, head, ChunkedBody, ONE_CHUNK);
    OneChunkIsRead(cfg.size);
    FillRuns(cfg, [dial], s, c, l, ChunksFrom(Data(1)), [], ZERO_THEN_BLANK, now);
    assert [] + ZERO_THEN_BLANK == ZERO_THEN_BLANK && [dial] + [poll] == [dial, poll];
  }

  lemma ErrorRun(cfg: Config, s: nat, c: Conn, head: Bytes, now: nat)
    requires ReadsDigits(cfg.size)
    ensures Run(cfg, START, ErrorEvents(s, c, head, now)) ==
            Some(OneLive(s, c, Polled(c, head, ChunksFrom(Size), ZERO_THEN_BLANK, ONE_CHUNK + ZERO_THEN_BLANK, true)))
  {
    FirstRun(cfg, s, c, head, now);
    FirstPollFails(cfg.size);
    BreakRuns(cfg, FirstEvents(s, c, head, now), s, c, FirstPolled(c, head), ChunksFrom(Size), now);
  }

  /**
   Polling on after a malformed chunk can end the stream. The failed pull keeps its buffer but
   resets the decoder, so the next one reads the chunk data again, as a size line: here it
   finds `0`, and the connection is handed back although no beginning of what was received
   is a whole body.
   */
  lemma PollAfterErrorHandsBack(cfg: Config, s: nat, c: Conn, head: Bytes, now: nat)
    requires cfg.maxIdlePerHost > 0 && ReadsDigits(cfg.size)
    ensures var received := ONE_CHUNK + ZERO_THEN_BLANK;
            && HandsBack(cfg, Run(cfg, START, ErrorEvents(s, c, head, now) + [Poll(s, now, Failure)]), s, c,
                         Polled(c, head, ChunksFrom(Size), CRLF, received, true))
            && forall left, body :: !Framed(cfg.size, ChunkedBody, Consumed(received, left), body)
  {
    var received := ONE_CHUNK + ZERO_THEN_BLANK;
    ErrorRun(cfg, s, c, head, now);
    SecondPollFinishes(cfg.size);
    FinishRuns(cfg, ErrorEvents(s, c, head, now), s, c,
               Polled(c, head, ChunksFrom(Size), ZERO_THEN_BLANK, received, true), CRLF, now);
    ReceivedIsSpoilt(cfg.size);
    forall left, body ensures !Framed(cfg.size, ChunkedBody, Consumed(received, left), body) {
      SpoiltIsNotFramed(cfg.size, ChunkedBody, received, left, body);
    }
  }

  lemma ReceivedIsSpoilt(size: SizeReader)
    requires ReadsDigits(size)
    ensures SpoiltBody(size, ChunkedBody, ONE_CHUNK + ZERO_THEN_BLANK)
  {
    OneChunkIsRead(size);
    PullSplit(size, Size, ONE_CHUNK, ZERO_THEN_BLANK);
    assert [] + ZERO_THEN_BLANK == ZERO_THEN_BLANK;
    FirstPollFails(size);
  }

  lemma FieldIsLine()
    ensures IsLine(FIELD)
  {
    forall j: nat ensures !OccursAt(FIELD, CRLF, j) {
      if j + 2 <= |FIELD| { assert FIELD[j..j + 2][0] == FIELD[j]; }
    }
  }

  lemma TrailerIsTakenForEnd(size: SizeReader)
    requires ReadsDigits(size)
    ensures PullFrom(size, Size, TRAILER_BODY) == Pulled(Done, [], [])
    ensures !Spells(size, TRAILER_BODY, [])
  {
    FieldIsLine();
    EndPulls(size, ZERO, FIELD, []);
    EndRegular(size, ZERO, FIELD, []);
    assert FIELD + CRLF + [] == FIELD + CRLF && TRAILER_BODY + [] == TRAILER_BODY;
    DoneIsEndIff(size, TRAILER_BODY, [], []);
  }

  lemma TrailerMessage(size: SizeReader)
    requires ReadsDigits(size)
    ensures Spells(size, TRAILER_BODY + CRLF, [])
  {
    var fields := [FIELD];
    var m := Message([], ZERO, fields);
    FieldIsLine();
    assert fields[1..] == [] && TrailerText(fields) == FIELD + CRLF + CRLF;
    assert MessageText(m) == TRAILER_BODY + CRLF && MessageData(m) == [];
    assert MessageOk(size, m);
  }

  /** A poll of a connection whose first read brings the head and `leftover`. */
  function TwoEvents(s: nat, c: Conn, head: Bytes, plan: BodyPlan, leftover: Bytes, now: nat): seq<Event> {
    [Dial(s, c, head, plan, leftover, false), Poll(s, now, Failure)]
  }

  lemma TwoRun(cfg: Config, s: nat, c: Conn, head: Bytes, plan: BodyPlan, leftover: Bytes, rest: Bytes, now: nat)
    requires cfg.maxIdlePerHost > 0 && StepOf(cfg.size, Start(plan), leftover) == Finish(rest)
    ensures HandsBack(cfg, Run(cfg, START, TwoEvents(s, c, head, plan, leftover, now)), s, c,
                      Opened(c, head, plan, leftover, false).(buf := rest))
  {
    var dial, poll := Dial(s, c, head, plan, leftover, false), Poll(s, now, Failure);
    DialRuns(cfg, s, c, head, plan, leftover);
    FinishRuns(cfg, [dial], s, c, Opened(c, head, plan, leftover, false), rest, now);
    assert [dial] + [poll] == [dial, poll];
  }

  /**
   A trailer field ends a stream before its body ends. The decoder takes the first line
   behind the zero line for the blank one, so if it comes alone the connection is handed back
   with the CRLF that ends the message still to come.
   */
  lemma TrailerFieldHandsBack(cfg: Config, s: nat, c: Conn, head: Bytes, now: nat)
    requires cfg.maxIdlePerHost > 0 && ReadsDigits(cfg.size)
    ensures HandsBack(cfg, Run(cfg, START, TwoEvents(s, c, head, ChunkedBody, TRAILER_BODY, now)), s, c,
                      Polled(c, head, ChunksFrom(Size), [], TRAILER_BODY, false))
    ensures !Framed(cfg.size, ChunkedBody, TRAILER_BODY, []) && Framed(cfg.size, ChunkedBody, TRAILER_BODY + CRLF, [])
  {
    TrailerIsTakenForEnd(cfg.size);
    TrailerMessage(cfg.size);
    TwoRun(cfg, s, c, head, ChunkedBody, TRAILER_BODY, [], now);
  }

  /**
   Bytes behind the body go with the stream's buffer: the connection is handed back, and what
   it gives next does not follow the body.
   */
  lemma SurplusIsLost(cfg: Config, s: nat, c: Conn, head: Bytes, surplus: Bytes, next: Bytes, now: nat)
    requires cfg.maxIdlePerHost > 0 && surplus != []
    ensures var w := Run(cfg, START, TwoEvents(s, c, head, Length(0), surplus, now));
            && HandsBack(cfg, w, s, c, Opened(c, head, Length(0), surplus, false))
            && !EachFollowed(cfg.size, w.value.handedBack, c, next)
  {
    var l := Opened(c, head, Length(0), surplus, false);
    var w := Run(cfg, START, TwoEvents(s, c, head, Length(0), surplus, now));
    TwoRun(cfg, s, c, head, Length(0), surplus, surplus, now);
    assert l.(buf := surplus) == l;
    FollowedIffExact(cfg.size, w.value.handedBack, c, next);
    assert w.value.handedBack[0] == ReturnOf(s, l, false);
  }

  /** A failed pull that began at a size line fails again, whatever arrives. */
  lemma PollFromSizeFailsAgain(size: SizeReader, buf: Bytes, more: Bytes)
    requires StepOf(size, ChunksFrom(Size), buf).Broken?
    ensures StepOf(size, ChunksFrom(Size), buf + more) == Broken(ChunksFrom(Size))
  {
    SpoiltStays(size, ChunkedBody, buf, more);
  }
}
