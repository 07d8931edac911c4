/**
 What `AppContext::refresh` must compute, said without its loops
 (crates/di-core/src/context.rs:347-438).

 A component is ready once each hard dependency has a provider and each soft
 dependency has all its batch providers. Readiness only grows with what is built, so
 the components a batch can build in dependency order are the least set closed under
 it (`Wirable`). The verdict is a function of that set alone, hence of the batch and
 not of the order it was queued in.
 */
module Wiring {
  import opened Common
  import opened Beans
  import opened Graphs

  /**
   A queued `ComponentDef`. Its builder is the one the derive macro emits
   (crates/di-macro/src/lib.rs:217-234, 291-303): it files one bean under every type it
   provides, all with the component's own metadata.
   */
  datatype Component = Component(
    typeName: string, deps: seq<TypeId>, optDeps: seq<TypeId>, provided: seq<TypeId>,
    origin: Origin, primary: bool, qualifier: Option<string>, target: int)

  function Binding(c: Component, t: TypeId): Bean {
    Bean(Entry(t, c.typeName, c.origin, c.primary, c.qualifier), Instance(t, c.target))
  }

  function Registrations(c: Component): (beans: seq<Bean>)
    ensures |beans| == |c.provided|
    ensures forall i :: 0 <= i < |beans| ==> beans[i] == Binding(c, c.provided[i])
  {
    seq(|c.provided|, i requires 0 <= i < |c.provided| => Binding(c, c.provided[i]))
  }

  // ---- Readiness and its least fixpoint --------------------------------------

  ghost predicate HardMet(pre: set<TypeId>, built: set<Component>, c: Component) {
    forall t :: t in c.deps ==> t in pre || exists e :: e in built && t in e.provided
  }

  ghost predicate SoftMet(batch: set<Component>, built: set<Component>, c: Component) {
    forall t, e :: t in c.optDeps && e in batch && t in e.provided ==> e in built
  }

  ghost predicate Ready(pre: set<TypeId>, batch: set<Component>, built: set<Component>, c: Component) {
    HardMet(pre, built, c) && SoftMet(batch, built, c)
  }

  /** Nothing outside `s` is ready. */
  ghost predicate Closed(pre: set<TypeId>, batch: set<Component>, s: set<Component>) {
    s <= batch && forall c :: c in batch && Ready(pre, batch, s, c) ==> c in s
  }

  /** The intersection of every closed set. */
  ghost function Wirable(pre: set<TypeId>, batch: set<Component>): (w: set<Component>)
    ensures w <= batch
  {
    set c | c in batch && forall s :: Closed(pre, batch, s) ==> c in s
  }

  lemma ReadyIsMonotone(pre: set<TypeId>, batch: set<Component>, small: set<Component>, big: set<Component>,
                        c: Component)
    requires small <= big && Ready(pre, batch, small, c)
    ensures Ready(pre, batch, big, c)
  {
  }

  /** `Wirable` is the least fixpoint of readiness: the ready components of itself, inside every closed set. */
  lemma WirableIsLeastFixpoint(pre: set<TypeId>, batch: set<Component>)
    ensures Closed(pre, batch, Wirable(pre, batch))
    ensures forall c :: c in Wirable(pre, batch) <==> c in batch && Ready(pre, batch, Wirable(pre, batch), c)
    ensures forall s :: Closed(pre, batch, s) ==> Wirable(pre, batch) <= s
  {
    var w := Wirable(pre, batch);
    forall c | c in batch && Ready(pre, batch, w, c) ensures c in w {
      forall s | Closed(pre, batch, s) ensures c in s {
        ReadyIsMonotone(pre, batch, w, s, c);
      }
    }
    var r := set c | c in batch && Ready(pre, batch, w, c);
    assert r <= w;
    forall c | c in batch && Ready(pre, batch, r, c) ensures c in r {
      ReadyIsMonotone(pre, batch, r, w, c);
    }
    assert Closed(pre, batch, r);
  }

  lemma ReadyJoins(pre: set<TypeId>, batch: set<Component>, c: Component)
    requires c in batch && Ready(pre, batch, Wirable(pre, batch), c)
    ensures c in Wirable(pre, batch)
  {
    WirableIsLeastFixpoint(pre, batch);
  }

  // ---- The verdict -----------------------------------------------------------

  datatype Kind = AllBuilt | MissingDependency | CircularDependency

  ghost predicate HasProvider(batch: set<Component>, t: TypeId) {
    exists e :: e in batch && t in e.provided
  }

  /** `c` needs a type that is neither registered beforehand nor provided by the batch. */
  ghost predicate LacksProvider(pre: set<TypeId>, batch: set<Component>, c: Component) {
    exists t :: t in c.deps && t !in pre && !HasProvider(batch, t)
  }

  ghost function Verdict(pre: set<TypeId>, batch: set<Component>): Kind {
    if exists c :: c in batch && LacksProvider(pre, batch, c) then MissingDependency
    else if exists c :: c in batch && !HardMet(pre, Wirable(pre, batch), c) then CircularDependency
    else AllBuilt
  }

  function Batch(defs: seq<Component>): set<Component> {
    set c | c in defs
  }

  /** Two queues holding the same components in any order get the same verdict and the same wired set. */
  lemma QueueOrderIsIrrelevant(pre: set<TypeId>, defs: seq<Component>, other: seq<Component>)
    requires multiset(defs) == multiset(other)
    ensures Wirable(pre, Batch(defs)) == Wirable(pre, Batch(other))
    ensures Verdict(pre, Batch(defs)) == Verdict(pre, Batch(other))
  {
    forall c ensures c in defs <==> c in other {
      assert c in defs <==> c in multiset(defs);
      assert c in other <==> c in multiset(other);
    }
    assert Batch(defs) == Batch(other);
  }

  // ---- Acyclicity ------------------------------------------------------------

  /**
   A rank that falls along the waits: some provider of each unregistered hard
   dependency, and every batch provider of each soft dependency, ranks lower.
   */
  ghost predicate Ranked(pre: set<TypeId>, batch: set<Component>, rank: map<Component, nat>) {
    && rank.Keys == batch
    && (forall c, t :: c in batch && t in c.deps && t !in pre ==>
          exists e :: e in batch && t in e.provided && rank[e] < rank[c])
    && (forall c, t, e :: c in batch && t in c.optDeps && e in batch && t in e.provided ==> rank[e] < rank[c])
  }

  lemma {:induction false} RankedIsWirable(pre: set<TypeId>, batch: set<Component>, rank: map<Component, nat>,
                                           c: Component)
    requires Ranked(pre, batch, rank) && c in batch
    ensures c in Wirable(pre, batch)
    decreases rank[c]
  {
    var w := Wirable(pre, batch);
    WirableIsLeastFixpoint(pre, batch);
    forall t | t in c.deps && t !in pre ensures exists e :: e in w && t in e.provided {
      var e :| e in batch && t in e.provided && rank[e] < rank[c];
      RankedIsWirable(pre, batch, rank, e);
    }
    forall t, e | t in c.optDeps && e in batch && t in e.provided ensures e in w {
      RankedIsWirable(pre, batch, rank, e);
    }
  }

  /** The rank of each member of `s` when the batch is peeled off stage by stage. */
  ghost predicate Staged(pre: set<TypeId>, batch: set<Component>, s: set<Component>, rank: map<Component, nat>) {
    && s <= batch && rank.Keys == s
    && (forall c, t :: c in s && t in c.deps && t !in pre ==>
          exists e :: e in s && t in e.provided && rank[e] < rank[c])
    && (forall c, t, e :: c in s && t in c.optDeps && e in batch && t in e.provided ==> e in s && rank[e] < rank[c])
  }

  /** While part of the wirable set is missing from `s`, some of it is ready. */
  lemma NextReady(pre: set<TypeId>, batch: set<Component>, s: set<Component>) returns (c: Component)
    requires s < Wirable(pre, batch)
    ensures c in Wirable(pre, batch) - s && Ready(pre, batch, s, c)
  {
    WirableIsLeastFixpoint(pre, batch);
    assert !Closed(pre, batch, s);
    c :| c in batch && Ready(pre, batch, s, c) && c !in s;
    ReadyIsMonotone(pre, batch, s, Wirable(pre, batch), c);
  }

  /** Peel one ready component at a time, ranking each by its turn. */
  lemma {:induction false} WirableHasStages(pre: set<TypeId>, batch: set<Component>, s: set<Component>,
                                            rank: map<Component, nat>)
    returns (all: map<Component, nat>)
    requires Staged(pre, batch, s, rank) && s <= Wirable(pre, batch)
    requires forall c :: c in s ==> rank[c] < |s|
    ensures Staged(pre, batch, Wirable(pre, batch), all)
    decreases |Wirable(pre, batch) - s|
  {
    var w := Wirable(pre, batch);
    if s == w {
      all := rank;
    } else {
      var c := NextReady(pre, batch, s);
      StageAdds(pre, batch, s, rank, c);
      Shrinks(w - (s + {c}), w - s);
      all := WirableHasStages(pre, batch, s + {c}, rank[c := |s|]);
    }
  }

  lemma Shrinks<T>(a: set<T>, b: set<T>)
    requires a < b
    ensures |a| < |b|
  {
    assert b == a + (b - a);
    assert |b| == |a| + |b - a|;
  }

  lemma StageAdds(pre: set<TypeId>, batch: set<Component>, s: set<Component>, rank: map<Component, nat>, c: Component)
    requires Staged(pre, batch, s, rank) && c in batch && c !in s && Ready(pre, batch, s, c)
    requires forall d :: d in s ==> rank[d] < |s|
    ensures Staged(pre, batch, s + {c}, rank[c := |s|])
  {
    var next, rank' := s + {c}, rank[c := |s|];
    assert rank'.Keys == next;
    forall d, t | d in next && t in d.deps && t !in pre
      ensures exists e :: e in next && t in e.provided && rank'[e] < rank'[d]
    {
      if d == c {
        var e :| e in s && t in e.provided;
        assert e in next && rank'[e] < rank'[d];
      } else {
        var e :| e in s && t in e.provided && rank[e] < rank[d];
        assert e in next && rank'[e] < rank'[d];
      }
    }
  }

  /** Everything is built in dependency order exactly when such a rank exists. */
  lemma AllWirableIffRanked(pre: set<TypeId>, batch: set<Component>)
    ensures Wirable(pre, batch) == batch <==> exists rank :: Ranked(pre, batch, rank)
  {
    if rank :| Ranked(pre, batch, rank) {
      forall c | c in batch ensures c in Wirable(pre, batch) {
        RankedIsWirable(pre, batch, rank, c);
      }
    }
    if Wirable(pre, batch) == batch {
      var rank := WirableHasStages(pre, batch, {}, map[]);
      assert Ranked(pre, batch, rank);
    }
  }

  // ---- A stall is a cycle ----------------------------------------------------

  /** `c` waits for `e`: `e` provides a type `c` is still waiting on. */
  ghost predicate Waits(pre: set<TypeId>, batch: set<Component>, c: Component, e: Component) {
    e in batch &&
    ((exists t :: t in c.deps && t !in pre && t in e.provided) || (exists t :: t in c.optDeps && t in e.provided))
  }

  /** Without a missing provider, everything left over waits for something left over. */
  ghost function Blocker(pre: set<TypeId>, batch: set<Component>, c: Component): (e: Component)
    requires c in batch - Wirable(pre, batch)
    requires !LacksProvider(pre, batch, c)
    ensures e in batch - Wirable(pre, batch) && Waits(pre, batch, c, e)
  {
    var w := Wirable(pre, batch);
    WirableIsLeastFixpoint(pre, batch);
    if !HardMet(pre, w, c) then
      var t :| t in c.deps && t !in pre && !exists d :: d in w && t in d.provided;
      assert HasProvider(batch, t);
      var e :| e in batch && t in e.provided;
      e
    else
      var t, e :| t in c.optDeps && e in batch && t in e.provided && e !in w;
      e
  }

  /** Who waits for whom, among the components left over. */
  ghost function WaitGraph(pre: set<TypeId>, batch: set<Component>): (edges: set<(Component, Component)>)
    ensures forall c, e :: (c, e) in edges ==>
      c in batch - Wirable(pre, batch) && e in batch - Wirable(pre, batch) && Waits(pre, batch, c, e)
  {
    var left := batch - Wirable(pre, batch);
    set c, e | c in left && e in left && Waits(pre, batch, c, e) :: (c, e)
  }

  /**
   `CircularDependency` is only ever reported when every component left over waits for
   one left over, and then those waits hold a cycle.
   */
  lemma CircularHasCycle(pre: set<TypeId>, batch: set<Component>) returns (cycle: seq<Component>)
    requires Verdict(pre, batch) == CircularDependency
    ensures forall c :: c in batch - Wirable(pre, batch) ==> exists e :: (c, e) in WaitGraph(pre, batch)
    ensures IsCycle(WaitGraph(pre, batch), cycle)
  {
    var w, edges := Wirable(pre, batch), WaitGraph(pre, batch);
    var next := map c | c in batch - w :: Blocker(pre, batch, c);
    forall c | c in batch - w ensures (c, next[c]) in edges {}
    var c :| c in batch && !HardMet(pre, w, c);
    assert c in next by { WirableIsLeastFixpoint(pre, batch); }
    cycle := NoSinkHasCycle(edges, next);
  }

  /** A rank along all hard and soft waits, with no provider missing, makes the verdict `AllBuilt`. */
  lemma RankedVerdict(pre: set<TypeId>, batch: set<Component>, rank: map<Component, nat>)
    requires Ranked(pre, batch, rank)
    ensures Verdict(pre, batch) == AllBuilt && Wirable(pre, batch) == batch
  {
    AllWirableIffRanked(pre, batch);
    WirableIsLeastFixpoint(pre, batch);
    forall c | c in batch ensures !LacksProvider(pre, batch, c) {
      forall t | t in c.deps && t !in pre ensures HasProvider(batch, t) {
        var e :| e in batch && t in e.provided && rank[e] < rank[c];
      }
    }
  }

  /**
   A hard wait one way and a soft wait back is enough for a cycle, although the hard waits
   alone have none: the verdict is `CircularDependency`.
   */
  lemma MixedCycleIsCircular(pre: set<TypeId>, a: Component, b: Component, t: TypeId, u: TypeId)
    requires a.deps == [t] && t !in pre && t in b.provided && t !in a.provided
    requires b.deps == [] && u in b.optDeps && u in a.provided
    ensures Verdict(pre, {a, b}) == CircularDependency && Wirable(pre, {a, b}) == {}
  {
    var batch := {a, b};
    assert !HardMet(pre, {}, a) by { assert t in a.deps; }
    assert !SoftMet(batch, {}, b);
    assert Closed(pre, batch, {});
    WirableIsLeastFixpoint(pre, batch);
    assert HasProvider(batch, t);
  }
}
