/**
 When a pooled connection is handed out, over whole runs of the client
 (crates/kernway-http-client/src/lib.rs:94-138), said by the events themselves: which one
 returned the connection, and how long before the one that asks.
 */
module ReuseTimes {
  import opened Common
  import opened Pool
  import opened Streams
  import opened Connections

  /** When an event that can end a response happens. */
  function TimeOf(ev: Event): nat {
    match ev
    case Poll(_, now, _) => now
    case Collect(_, now, _) => now
    case _ => 0
  }

  predicate Steps(cfg: Config, evs: seq<Event>, ws: seq<World>, i: nat) {
    i < |evs| && i + 1 < |ws| && Next(cfg, ws[i], evs[i]) == Some(ws[i + 1])
  }

  /** The worlds of a run, before and after each of its events. */
  ghost predicate Trace(cfg: Config, evs: seq<Event>, ws: seq<World>) {
    |ws| == |evs| + 1 && ws[0] == START && forall i :: 0 <= i < |evs| ==> Steps(cfg, evs, ws, i)
  }

  predicate Pooled(w: World, c: Conn) {
    c in w.place && w.place[c].InPool?
  }

  predicate Holds(w: World, c: Conn) {
    c in w.place && w.place[c].Held?
  }

  /** Event `j` ended a response of `c` and returned it, and `c` is in the pool from then on to world `n`. */
  ghost predicate ReturnedBy(evs: seq<Event>, ws: seq<World>, c: Conn, j: nat, n: nat) {
    && j < n < |ws| && j < |evs| && (evs[j].Poll? || evs[j].Collect?)
    && Holds(ws[j], c) && forall i :: j < i <= n ==> Pooled(ws[i], c)
  }

  /** At `now`, event `j` is less than 20 seconds past. */
  predicate Recent(evs: seq<Event>, j: nat, now: nat) {
    j < |evs| && SaturatingSub(now, TimeOf(evs[j])) < 20_000
  }

  // ---- Runs and traces -------------------------------------------------------

  lemma {:induction false} TraceKeeps(cfg: Config, evs: seq<Event>, ws: seq<World>, n: nat)
    requires Trace(cfg, evs, ws) && n < |ws|
    ensures Inv(cfg, ws[n])
  {
    if n == 0 {
      assert Run(cfg, START, []) == Some(START);
      RunKeeps(cfg, []);
    } else {
      TraceKeeps(cfg, evs, ws, n - 1);
      assert Steps(cfg, evs, ws, n - 1);
      NextKeeps(cfg, ws[n - 1], evs[n - 1]);
    }
  }

  lemma {:induction false} TraceRuns(cfg: Config, evs: seq<Event>, ws: seq<World>, n: nat)
    requires Trace(cfg, evs, ws) && n < |ws|
    ensures Run(cfg, START, evs[..n]) == Some(ws[n])
  {
    if n > 0 {
      TraceRuns(cfg, evs, ws, n - 1);
      assert Steps(cfg, evs, ws, n - 1);
      assert evs[..n][..n - 1] == evs[..n - 1];
    }
  }

  lemma TraceGrows(cfg: Config, front: seq<Event>, before: seq<World>, ev: Event, w: World)
    requires Trace(cfg, front, before) && Next(cfg, before[|front|], ev) == Some(w)
    ensures Trace(cfg, front + [ev], before + [w])
  {
    var evs, ws := front + [ev], before + [w];
    forall i | 0 <= i < |evs| ensures Steps(cfg, evs, ws, i) {
      if i < |front| { assert Steps(cfg, front, before, i); }
    }
  }

  lemma {:induction false} RunTraces(cfg: Config, evs: seq<Event>) returns (ws: seq<World>)
    requires Run(cfg, START, evs).Some?
    ensures Trace(cfg, evs, ws) && Run(cfg, START, evs) == Some(ws[|evs|])
    decreases |evs|
  {
    if evs == [] {
      ws := [START];
    } else {
      var front := evs[..|evs| - 1];
      var before := RunTraces(cfg, front);
      TraceGrows(cfg, front, before, evs[|evs| - 1], Run(cfg, START, evs).value);
      assert evs == front + [evs[|evs| - 1]];
      ws := before + [Run(cfg, START, evs).value];
    }
  }

  /** A run has the worlds of just one trace, and it ends in the last of them. */
  lemma RunIsTrace(cfg: Config, evs: seq<Event>, w: World)
    ensures Run(cfg, START, evs) == Some(w) <==> exists ws :: Trace(cfg, evs, ws) && ws[|evs|] == w
  {
    if Run(cfg, START, evs).Some? { var ws := RunTraces(cfg, evs); }
    if ws :| Trace(cfg, evs, ws) && ws[|evs|] == w {
      TraceRuns(cfg, evs, ws, |evs|);
      assert evs[..|evs|] == evs;
    }
  }

  // ---- Where an entry of a bucket comes from ---------------------------------

  predicate Stood(idle: Buckets, k: Key, i: nat, e: Idle) {
    k in idle && i < |idle[k]| && idle[k][i] == e
  }

  /** A held connection was put at the end of the bucket. */
  predicate JustPut(w: World, idle: Buckets, k: Key, i: nat, now: nat) {
    && k in idle && |idle[k]| == i + 1 && i == |BucketAt(w.idle, k)|
    && idle[k][i].since == now && idle[k][i].conn in w.place && w.place[idle[k][i].conn].Held?
  }

  lemma TakenStood(idle: Buckets, k: Key, now: nat, k': Key, i: nat)
    requires var idle' := idle[k := TakeFrom(BucketAt(idle, k), now).left]; k' in idle' && i < |idle'[k']|
    ensures Stood(idle, k', i, idle[k := TakeFrom(BucketAt(idle, k), now).left][k'][i])
  {
    TakenIs(BucketAt(idle, k), now);
  }

  lemma FinishedFrom(cfg: Config, w: World, s: nat, l: Live, keepable: bool, now: nat, buffered: bool, k: Key, i: nat)
    requires l.conn.Some? && l.conn.value in w.place && w.place[l.conn.value].Held?
    requires var idle := FinishLive(cfg, w, s, l, keepable, now, buffered).idle; k in idle && i < |idle[k]|
    ensures var idle := FinishLive(cfg, w, s, l, keepable, now, buffered).idle;
            Stood(w.idle, k, i, idle[k][i]) || JustPut(w, idle, k, i, now)
  {
  }

  /** It stood there before the event, or the event has just returned its connection. */
  lemma EntryFrom(cfg: Config, w: World, ev: Event, k: Key, i: nat)
    requires HeldOk(w.live, w.place) && Next(cfg, w, ev).Some?
    requires var idle := Next(cfg, w, ev).value.idle; k in idle && i < |idle[k]|
    ensures var idle := Next(cfg, w, ev).value.idle;
            Stood(w.idle, k, i, idle[k][i]) || ((ev.Poll? || ev.Collect?) && JustPut(w, idle, k, i, TimeOf(ev)))
  {
    match ev
    case Reuse(_, thread, origin, now, _, _, _, _) => TakenStood(w.idle, Key(thread, origin), now, k, i);
    case Evict(thread, origin, now) => TakenStood(w.idle, Key(thread, origin), now, k, i);
    case Poll(s, now, arrival) => PolledFrom(cfg, w, s, now, arrival, k, i);
    case Collect(s, now, feed) => CollectedFrom(cfg, w, s, now, feed, k, i);
    case _ =>
  }

  lemma PolledFrom(cfg: Config, w: World, s: nat, now: nat, arrival: Arrival, k: Key, i: nat)
    requires HeldOk(w.live, w.place) && s in w.live && w.live[s].conn.Some?
    requires var idle := PollLive(cfg, w, s, w.live[s], now, arrival).idle; k in idle && i < |idle[k]|
    ensures var idle := PollLive(cfg, w, s, w.live[s], now, arrival).idle;
            Stood(w.idle, k, i, idle[k][i]) || JustPut(w, idle, k, i, now)
  {
    var l, step := w.live[s], StepOf(cfg.size, w.live[s].cursor, w.live[s].buf);
    if step.Finish? {
      FinishedFrom(cfg, w, s, l.(buf := step.rest), true, now, false, k, i);
    } else if step.NeedMore? && arrival.EndOfFile? && step.cursor.ToClose? {
      FinishedFrom(cfg, w, s, l.(cursor := step.cursor, buf := step.rest, eof := true), false, now, false, k, i);
    }
  }

  lemma CollectedFrom(cfg: Config, w: World, s: nat, now: nat, feed: seq<Read>, k: Key, i: nat)
    requires HeldOk(w.live, w.place) && s in w.live && w.live[s].conn.Some?
    requires var idle := CollectLive(cfg, w, s, w.live[s], now, feed).idle; k in idle && i < |idle[k]|
    ensures var idle := CollectLive(cfg, w, s, w.live[s], now, feed).idle;
            Stood(w.idle, k, i, idle[k][i]) || JustPut(w, idle, k, i, now)
  {
    var l := w.live[s];
    var received := StopOf(cfg.size, l.plan, l.received, feed).received;
    var w' := w.(wires := Heard(w.wires, l.conn.value, Added(l.received, received)));
    var body := Buffered(cfg.size, l.plan, l.received, feed);
    if body.Ok? {
      FinishedFrom(cfg, w', s, l.(received := received, delivered := body.value, buf := []), !l.plan.UntilClose?, now,
                   true, k, i);
    }
  }

  // ---- Entries and returns ---------------------------------------------------

  /** A connection has one last return. */
  lemma ReturnedOnce(evs: seq<Event>, ws: seq<World>, c: Conn, j: nat, j': nat, n: nat)
    requires ReturnedBy(evs, ws, c, j, n) && ReturnedBy(evs, ws, c, j', n)
    ensures j == j'
  {
    PooledSince(evs, ws, c, j, n);
    PooledSince(evs, ws, c, j', n);
  }

  lemma PooledSince(evs: seq<Event>, ws: seq<World>, c: Conn, j: nat, n: nat)
    requires ReturnedBy(evs, ws, c, j, n)
    ensures forall i :: j < i <= n ==> !Holds(ws[i], c)
  {
    forall i | j < i <= n ensures !Holds(ws[i], c) { assert Pooled(ws[i], c); }
  }

  predicate EntryAt(w: World, k: Key, i: nat, e: Idle) {
    Stood(w.idle, k, i, e)
  }

  lemma EntryIsPooled(cfg: Config, w: World, k: Key, i: nat, e: Idle)
    requires Inv(cfg, w) && EntryAt(w, k, i, e)
    ensures Pooled(w, e.conn) && Key(e.conn.home, e.conn.origin) == k
  {
  }

  /** One step, seen from an entry: it stood there before, or is the connection just returned. */
  lemma StepFrom(cfg: Config, evs: seq<Event>, ws: seq<World>, n: nat, k: Key, i: nat, e: Idle)
    requires Trace(cfg, evs, ws) && n < |evs| && EntryAt(ws[n + 1], k, i, e)
    ensures || EntryAt(ws[n], k, i, e)
            || (ReturnedBy(evs, ws, e.conn, n, n + 1) && e.since == TimeOf(evs[n]) && |ws[n + 1].idle[k]| == i + 1)
  {
    TraceKeeps(cfg, evs, ws, n);
    TraceKeeps(cfg, evs, ws, n + 1);
    assert Steps(cfg, evs, ws, n);
    EntryFrom(cfg, ws[n], evs[n], k, i);
    EntryIsPooled(cfg, ws[n + 1], k, i, e);
  }

  lemma EntryPooled(cfg: Config, evs: seq<Event>, ws: seq<World>, n: nat, k: Key, i: nat, e: Idle)
    requires Trace(cfg, evs, ws) && n < |ws| && EntryAt(ws[n], k, i, e)
    ensures Pooled(ws[n], e.conn) && Key(e.conn.home, e.conn.origin) == k
  {
    TraceKeeps(cfg, evs, ws, n);
    EntryIsPooled(cfg, ws[n], k, i, e);
  }

  /** Every entry is of a connection returned by some event, and bears the time of that event. */
  lemma {:induction false} EntryReturned(cfg: Config, evs: seq<Event>, ws: seq<World>, n: nat, k: Key, i: nat, e: Idle)
      returns (j: nat)
    requires Trace(cfg, evs, ws) && n < |ws| && EntryAt(ws[n], k, i, e)
    ensures ReturnedBy(evs, ws, e.conn, j, n) && e.since == TimeOf(evs[j])
    decreases n
  {
    StepFrom(cfg, evs, ws, n - 1, k, i, e);
    if EntryAt(ws[n - 1], k, i, e) {
      j := EntryReturned(cfg, evs, ws, n - 1, k, i, e);
      EntryPooled(cfg, evs, ws, n, k, i, e);
    } else {
      j := n - 1;
    }
  }

  /** The entries of a bucket are in the order of their returns. */
  lemma {:induction false} EntriesInOrder(cfg: Config, evs: seq<Event>, ws: seq<World>, n: nat, k: Key,
                                          i: nat, e: Idle, i': nat, e': Idle) returns (j: nat, j': nat)
    requires Trace(cfg, evs, ws) && n < |ws| && i < i' && EntryAt(ws[n], k, i, e) && EntryAt(ws[n], k, i', e')
    ensures ReturnedBy(evs, ws, e.conn, j, n) && ReturnedBy(evs, ws, e'.conn, j', n) && j < j'
    decreases n
  {
    StepFrom(cfg, evs, ws, n - 1, k, i, e);
    StepFrom(cfg, evs, ws, n - 1, k, i', e');
    EntryPooled(cfg, evs, ws, n, k, i, e);
    EntryPooled(cfg, evs, ws, n, k, i', e');
    if EntryAt(ws[n - 1], k, i', e') {
      j, j' := EntriesInOrder(cfg, evs, ws, n - 1, k, i, e, i', e');
    } else {
      j := EntryReturned(cfg, evs, ws, n - 1, k, i, e);
      j' := n - 1;
    }
  }

  // ---- What a request is given -----------------------------------------------

  /** A returned connection of the thread and origin that ask, less than 20 seconds in the pool. */
  ghost predicate Usable(evs: seq<Event>, ws: seq<World>, thread: Thread, origin: Origin, now: nat, c: Conn, j: nat) {
    c.home == thread && c.origin == origin && ReturnedBy(evs, ws, c, j, |evs|) && Recent(evs, j, now)
  }

  /** A usable connection has an entry among the fresh ones. */
  lemma UsableIsFresh(cfg: Config, evs: seq<Event>, ws: seq<World>, k: Key, now: nat, c: Conn, j: nat)
      returns (i: nat, e: Idle)
    requires Trace(cfg, evs, ws) && Usable(evs, ws, k.thread, k.origin, now, c, j)
    ensures var w := ws[|evs|]; EntryAt(w, k, i, e) && e.conn == c && i < FreshEnd(w.idle[k], now)
  {
    var w := ws[|evs|];
    TraceKeeps(cfg, evs, ws, |evs|);
    assert Pooled(w, c);
    i :| 0 <= i < |w.idle[w.place[c].key]| && w.idle[w.place[c].key][i].conn == c;
    e := w.idle[w.place[c].key][i];
    var j' := EntryReturned(cfg, evs, ws, |evs|, k, i, e);
    ReturnedOnce(evs, ws, c, j, j', |evs|);
    FreshEndIs(w.idle[k], now);
  }

  /** What a take gets is the last fresh entry. */
  lemma ReuseTakes(cfg: Config, w: World, ev: Event) returns (i: nat, e: Idle)
    requires ev.Reuse? && Next(cfg, w, ev).Some?
    ensures var k := Key(ev.thread, ev.origin); EntryAt(w, k, i, e) && i + 1 == FreshEnd(w.idle[k], ev.now)
    ensures SaturatingSub(ev.now, e.since) < 20_000
    ensures var live := Next(cfg, w, ev).value.live; ev.stream in live && live[ev.stream].conn == Some(e.conn)
  {
    var bucket := BucketAt(w.idle, Key(ev.thread, ev.origin));
    i := FreshEnd(bucket, ev.now) - 1;
    e := bucket[i];
    FreshEndIs(bucket, ev.now);
  }

  /** No usable connection was returned after that of the last fresh entry. */
  lemma LastFreshIsNewest(cfg: Config, evs: seq<Event>, ws: seq<World>, now: nat, k: Key, i: nat, e: Idle, j: nat,
                          c': Conn, j': nat)
    requires Trace(cfg, evs, ws) && EntryAt(ws[|evs|], k, i, e) && i + 1 == FreshEnd(ws[|evs|].idle[k], now)
    requires ReturnedBy(evs, ws, e.conn, j, |evs|) && Usable(evs, ws, k.thread, k.origin, now, c', j')
    ensures j' <= j
  {
    var i', e' := UsableIsFresh(cfg, evs, ws, k, now, c', j');
    if i' < i {
      var j1', j1 := EntriesInOrder(cfg, evs, ws, |evs|, k, i', e', i, e);
      ReturnedOnce(evs, ws, c', j', j1', |evs|);
      ReturnedOnce(evs, ws, e.conn, j, j1, |evs|);
    } else {
      ReturnedOnce(evs, ws, c', j, j', |evs|);
    }
  }

  /**
   In every run, a request is given a connection of its own thread and origin that was
   returned less than 20 seconds before, and of those the one returned last.
   */
  lemma ReuseIsNewest(cfg: Config, evs: seq<Event>, ws: seq<World>, ev: Event) returns (c: Conn, j: nat)
    requires Trace(cfg, evs, ws) && ev.Reuse? && Next(cfg, ws[|evs|], ev).Some?
    ensures var live := Next(cfg, ws[|evs|], ev).value.live; ev.stream in live && live[ev.stream].conn == Some(c)
    ensures Usable(evs, ws, ev.thread, ev.origin, ev.now, c, j)
    ensures forall c': Conn, j': nat :: Usable(evs, ws, ev.thread, ev.origin, ev.now, c', j') ==> j' <= j
  {
    var k := Key(ev.thread, ev.origin);
    var i, e := ReuseTakes(cfg, ws[|evs|], ev);
    c := e.conn;
    j := EntryReturned(cfg, evs, ws, |evs|, k, i, e);
    EntryPooled(cfg, evs, ws, |evs|, k, i, e);
    forall c': Conn, j': nat | Usable(evs, ws, ev.thread, ev.origin, ev.now, c', j') ensures j' <= j {
      LastFreshIsNewest(cfg, evs, ws, ev.now, k, i, e, j, c', j');
    }
  }

  /** And it is given one exactly if there is one. */
  lemma ReuseIff(cfg: Config, evs: seq<Event>, ws: seq<World>, ev: Event)
    requires Trace(cfg, evs, ws) && ev.Reuse? && ev.stream !in ws[|evs|].live
    ensures Next(cfg, ws[|evs|], ev).Some? <==>
            exists c: Conn, j: nat :: Usable(evs, ws, ev.thread, ev.origin, ev.now, c, j)
  {
    if Next(cfg, ws[|evs|], ev).Some? { var c, j := ReuseIsNewest(cfg, evs, ws, ev); }
    if c: Conn, j: nat :| Usable(evs, ws, ev.thread, ev.origin, ev.now, c, j) {
      var i, e := UsableIsFresh(cfg, evs, ws, Key(ev.thread, ev.origin), ev.now, c, j);
    }
  }

  // ---- What becomes of a returned connection ---------------------------------

  /** The pooled connections of one thread and origin. */
  ghost function PoolOf(place: map<Conn, Place>, k: Key): set<Conn> {
    set c | c in place && place[c] == InPool(k)
  }

  lemma {:induction false} ConnCount(bucket: seq<Idle>)
    requires forall i, j :: 0 <= i < j < |bucket| ==> bucket[i].conn != bucket[j].conn
    ensures |(set e | e in bucket :: e.conn)| == |bucket|
  {
    if bucket != [] {
      var front, last := bucket[..|bucket| - 1], bucket[|bucket| - 1];
      ConnCount(front);
      assert (set e | e in bucket :: e.conn) == (set e | e in front :: e.conn) + {last.conn};
      assert last.conn !in (set e | e in front :: e.conn);
    }
  }

  lemma PoolCount(cfg: Config, w: World, k: Key)
    requires Inv(cfg, w)
    ensures |PoolOf(w.place, k)| == |BucketAt(w.idle, k)|
  {
    var bucket := BucketAt(w.idle, k);
    ConnCount(bucket);
    forall c ensures c in PoolOf(w.place, k) <==> c in (set e | e in bucket :: e.conn) {
      if c in PoolOf(w.place, k) {
        var i :| 0 <= i < |bucket| && bucket[i].conn == c;
        assert bucket[i] in bucket;
      }
    }
    assert PoolOf(w.place, k) == (set e | e in bucket :: e.conn);
  }

  lemma FinishedIffRoom(cfg: Config, w: World, s: nat, l: Live, keepable: bool, now: nat, buffered: bool)
    requires Inv(cfg, w) && s in w.live && l.conn.Some? && l.conn == w.live[s].conn
    requires l.thread == w.live[s].thread && l.origin == w.live[s].origin
    ensures var w' := FinishLive(cfg, w, s, l, keepable, now, buffered);
            w'.handedBack != w.handedBack ==> Placed(cfg, w, w', l.conn.value)
  {
    PoolCount(cfg, w, Key(l.thread, l.origin));
    var w' := FinishLive(cfg, w, s, l, keepable, now, buffered);
    if w'.handedBack != w.handedBack { assert w'.handedBack[|w.handedBack|].conn == l.conn.value; }
  }

  /** `c` has just been handed back: it is pooled if its thread and origin are below the cap, and closed otherwise. */
  ghost predicate Placed(cfg: Config, w: World, w': World, c: Conn) {
    var k := Key(c.home, c.origin);
    && |w'.handedBack| == |w.handedBack| + 1 && w'.handedBack[|w.handedBack|].conn == c && Holds(w, c) && c in w'.place
    && w'.place[c] == if |PoolOf(w.place, k)| < cfg.cap then InPool(k) else Closed
  }

  /** A connection handed back goes into the pool exactly if its thread and origin are below the cap. */
  lemma ReturnIffRoom(cfg: Config, w: World, ev: Event) returns (c: Conn)
    requires Inv(cfg, w) && Next(cfg, w, ev).Some? && Next(cfg, w, ev).value.handedBack != w.handedBack
    ensures (ev.Poll? || ev.Collect?) && Placed(cfg, w, Next(cfg, w, ev).value, c)
  {
    c := w.live[ev.stream].conn.value;
    match ev
    case Poll(s, now, arrival) => PolledIffRoom(cfg, w, s, now, arrival);
    case Collect(s, now, feed) => CollectedIffRoom(cfg, w, s, now, feed);
    case _ =>
  }

  lemma PolledIffRoom(cfg: Config, w: World, s: nat, now: nat, arrival: Arrival)
    requires Inv(cfg, w) && s in w.live && w.live[s].conn.Some?
    ensures var w' := PollLive(cfg, w, s, w.live[s], now, arrival);
            w'.handedBack != w.handedBack ==> Placed(cfg, w, w', w.live[s].conn.value)
  {
    var l, step := w.live[s], StepOf(cfg.size, w.live[s].cursor, w.live[s].buf);
    if step.Finish? {
      FinishedIffRoom(cfg, w, s, l.(buf := step.rest), true, now, false);
    } else if step.NeedMore? && arrival.EndOfFile? && step.cursor.ToClose? {
      FinishedIffRoom(cfg, w, s, l.(cursor := step.cursor, buf := step.rest, eof := true), false, now, false);
    }
  }

  lemma CollectedIffRoom(cfg: Config, w: World, s: nat, now: nat, feed: seq<Read>)
    requires Inv(cfg, w) && s in w.live && w.live[s].conn.Some?
    ensures var w' := CollectLive(cfg, w, s, w.live[s], now, feed);
            w'.handedBack != w.handedBack ==> Placed(cfg, w, w', w.live[s].conn.value)
  {
    var l, received := w.live[s], StopOf(cfg.size, w.live[s].plan, w.live[s].received, feed).received;
    var heard := w.(wires := Heard(w.wires, l.conn.value, Added(l.received, received)));
    var body := Buffered(cfg.size, l.plan, l.received, feed);
    if body.Ok? {
      var l' := l.(received := received, delivered := body.value, buf := []);
      FinishedIffRoom(cfg, heard, s, l', !l.plan.UntilClose?, now, true);
    }
  }

  /**
   A connection just returned below the cap is what its own thread and origin are given next,
   if they ask within 20 seconds.
   */
  lemma ReturnedIsReused(cfg: Config, evs: seq<Event>, ws: seq<World>, c: Conn, ev: Event)
    requires Trace(cfg, evs, ws) && evs != [] && Placed(cfg, ws[|evs| - 1], ws[|evs|], c)
    requires evs[|evs| - 1].Poll? || evs[|evs| - 1].Collect?
    requires |PoolOf(ws[|evs| - 1].place, Key(c.home, c.origin))| < cfg.cap
    requires ev.Reuse? && ev.thread == c.home && ev.origin == c.origin && ev.stream !in ws[|evs|].live
    requires SaturatingSub(ev.now, TimeOf(evs[|evs| - 1])) < 20_000
    ensures var w := Next(cfg, ws[|evs|], ev);
            w.Some? && ev.stream in w.value.live && w.value.live[ev.stream].conn == Some(c)
  {
    var n := |evs| - 1;
    assert Usable(evs, ws, ev.thread, ev.origin, ev.now, c, n);
    ReuseIff(cfg, evs, ws, ev);
    var c', j := ReuseIsNewest(cfg, evs, ws, ev);
    LastReturnIsOne(cfg, evs, ws, c, c');
  }

  /** An event returns no connection but that of its own stream. */
  lemma ReturnsItsOwn(cfg: Config, w: World, ev: Event, c: Conn)
    requires Next(cfg, w, ev).Some? && Holds(w, c) && Pooled(Next(cfg, w, ev).value, c) && (ev.Poll? || ev.Collect?)
    ensures w.live[ev.stream].conn == Some(c)
  {
  }

  lemma LastReturnIsOne(cfg: Config, evs: seq<Event>, ws: seq<World>, c: Conn, c': Conn)
    requires Trace(cfg, evs, ws) && evs != []
    requires ReturnedBy(evs, ws, c, |evs| - 1, |evs|) && ReturnedBy(evs, ws, c', |evs| - 1, |evs|)
    ensures c == c'
  {
    var n := |evs| - 1;
    assert Steps(cfg, evs, ws, n);
    ReturnsItsOwn(cfg, ws[n], evs[n], c);
    ReturnsItsOwn(cfg, ws[n], evs[n], c');
  }
}
