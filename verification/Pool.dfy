/**
 Connections waiting to be used again (crates/kernway-http-client/src/lib.rs:70-138), in
 buckets by thread and origin: a connection cannot change threads.
 */
module Pool {
  import opened Common

  type Origin(==, !new)
  type Thread = nat

  /** A connection: which one, the thread whose reactor owns it, and where it leads. */
  datatype Conn = Conn(id: nat, home: Thread, origin: Origin)

  datatype Idle = Idle(conn: Conn, since: nat)

  datatype Key = Key(thread: Thread, origin: Origin)

  type Buckets = map<Key, seq<Idle>>

  const POOL_IDLE_TIMEOUT_MS: nat := 20_000

  function SaturatingSub(a: nat, b: nat): nat {
    if a <= b then 0 else a - b
  }

  predicate Fresh(entry: Idle, now: nat) {
    SaturatingSub(now, entry.since) < POOL_IDLE_TIMEOUT_MS
  }

  function BucketAt(idle: Buckets, k: Key): seq<Idle> {
    if k in idle then idle[k] else []
  }

  /** How much of the bucket is left after popping stale entries off its end: up to the last fresh one. */
  function FreshEnd(bucket: seq<Idle>, now: nat): (n: nat)
    ensures n <= |bucket|
  {
    if bucket == [] then 0
    else if Fresh(bucket[|bucket| - 1], now) then |bucket|
    else FreshEnd(bucket[..|bucket| - 1], now)
  }

  lemma {:induction false} FreshEndIs(bucket: seq<Idle>, now: nat)
    ensures var n := FreshEnd(bucket, now);
            (n > 0 ==> Fresh(bucket[n - 1], now)) && forall i :: n <= i < |bucket| ==> !Fresh(bucket[i], now)
  {
    if bucket != [] && !Fresh(bucket[|bucket| - 1], now) { FreshEndIs(bucket[..|bucket| - 1], now); }
  }

  /** What a take leaves in the bucket, what it hands out, and what it drops. */
  datatype Taken = Taken(left: seq<Idle>, got: Option<Conn>, dropped: seq<Idle>)

  function TakeFrom(bucket: seq<Idle>, now: nat): Taken {
    var n := FreshEnd(bucket, now);
    if n == 0 then Taken([], None, bucket) else Taken(bucket[..n - 1], Some(bucket[n - 1].conn), bucket[n..])
  }

  /** A take hands out the last fresh entry, drops the stale ones behind it, and leaves the rest. */
  lemma TakenIs(bucket: seq<Idle>, now: nat)
    ensures var t := TakeFrom(bucket, now);
            && (t.got.Some? ==> |t.left| < |bucket| && bucket == t.left + [bucket[|t.left|]] + t.dropped &&
                                t.got.value == bucket[|t.left|].conn && Fresh(bucket[|t.left|], now))
            && (t.got.None? ==> t.left == [] && t.dropped == bucket)
            && forall e :: e in t.dropped ==> !Fresh(e, now)
  {
    FreshEndIs(bucket, now);
    var n := FreshEnd(bucket, now);
    if n > 0 { assert bucket == bucket[..n - 1] + [bucket[n - 1]] + bucket[n..]; }
  }

  /** The connection is kept only if pooling is on and the bucket has room. */
  predicate Room(idle: Buckets, k: Key, cap: nat) {
    |BucketAt(idle, k)| < cap
  }

  function PutInto(idle: Buckets, k: Key, conn: Conn, now: nat, cap: nat): Buckets {
    if Room(idle, k, cap) then idle[k := BucketAt(idle, k) + [Idle(conn, now)]] else idle
  }

  /** Two stores with the same connections in every bucket: an absent bucket is an empty one. */
  ghost predicate SameBuckets(a: Buckets, b: Buckets) {
    forall k :: BucketAt(a, k) == BucketAt(b, k)
  }

  class ConnPool {
    var idle: Buckets
    const maxPerOrigin: nat

    constructor (cap: nat)
      ensures maxPerOrigin == cap && idle == map[]
    {
      maxPerOrigin := cap;
      idle := map[];
    }

    /** No bucket is over the cap. */
    ghost predicate Valid()
      reads this
    {
      forall k :: k in idle ==> |idle[k]| <= maxPerOrigin
    }

    /** The newest connection still fresh enough, on the current thread; stale ones are dropped on the way. */
    method Take(origin: Origin, thread: Thread, now: nat) returns (r: Option<Conn>)
      requires Valid()
      modifies this`idle
      ensures Valid()
      ensures r == TakeFrom(BucketAt(old(idle), Key(thread, origin)), now).got
      ensures SameBuckets(idle,
        old(idle)[Key(thread, origin) := TakeFrom(BucketAt(old(idle), Key(thread, origin)), now).left])
    {
      var k := Key(thread, origin);
      if k !in idle { return None; }
      r := Pop(k, now);
    }

    /** Pops entries off a bucket until one is fresh. */
    method Pop(k: Key, now: nat) returns (r: Option<Conn>)
      requires k in idle
      modifies this`idle
      ensures r == TakeFrom(old(idle[k]), now).got && idle == old(idle)[k := TakeFrom(old(idle[k]), now).left]
    {
      ghost var taken := TakeFrom(idle[k], now);
      while idle[k] != []
        invariant k in idle && idle == old(idle)[k := idle[k]]
        invariant TakeFrom(idle[k], now).got == taken.got && TakeFrom(idle[k], now).left == taken.left
        decreases |idle[k]|
      {
        var bucket := idle[k];
        TakeStep(bucket, now);
        var entry := bucket[|bucket| - 1];
        idle := idle[k := bucket[..|bucket| - 1]];
        if SaturatingSub(now, entry.since) < POOL_IDLE_TIMEOUT_MS { return Some(entry.conn); }
      }
      return None;
    }

    /** Adds the connection behind the others of its bucket, with the time, if there is room. */
    method Put(origin: Origin, thread: Thread, conn: Conn, now: nat)
      requires Valid()
      modifies this`idle
      ensures Valid()
      ensures var k, bucket := Key(thread, origin), BucketAt(old(idle), Key(thread, origin));
              && BucketAt(idle, k) == (if |bucket| < maxPerOrigin then bucket + [Idle(conn, now)] else bucket)
              && forall k' :: k' != k ==> BucketAt(idle, k') == BucketAt(old(idle), k')
      ensures SameBuckets(idle, PutInto(old(idle), Key(thread, origin), conn, now, maxPerOrigin))
    {
      if maxPerOrigin == 0 { return; }
      var k := Key(thread, origin);
      if k !in idle { idle := idle[k := []]; }
      if |idle[k]| < maxPerOrigin {
        idle := idle[k := idle[k] + [Idle(conn, now)]];
      }
    }
  }

  /** A stale entry at the end is dropped; a fresh one is taken. */
  lemma TakeStep(bucket: seq<Idle>, now: nat)
    requires bucket != []
    ensures var last, front, t := bucket[|bucket| - 1], bucket[..|bucket| - 1], TakeFrom(bucket, now);
            if Fresh(last, now) then t.got == Some(last.conn) && t.left == front
            else t.got == TakeFrom(front, now).got && t.left == TakeFrom(front, now).left
  {
    var front := bucket[..|bucket| - 1];
    var n := FreshEnd(front, now);
    if !Fresh(bucket[|bucket| - 1], now) && n > 0 { assert front[..n - 1] == bucket[..n - 1]; }
  }
}
