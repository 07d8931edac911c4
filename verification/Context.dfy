/**
 `AppContext` (crates/di-core/src/context.rs): the store of beans, the queue of
 components, and `refresh`, which builds the queue in dependency order.
 */
module Context {
  import opened Common
  import opened Beans
  import opened Wiring

  datatype DiError =
    | NotFound
    | Ambiguous
    | TypeMismatch(typeName: string)
    | Missing(typeName: string)
    | Circular(typeNames: seq<string>)

  // ---- Bookkeeping of one sweep ----------------------------------------------

  type Slots = seq<Option<Component>>

  /** How often the components still in their slots provide `t`. */
  ghost function Outstanding(slots: Slots, t: TypeId): nat {
    if slots == [] then 0
    else (if slots[0].Some? then multiset(slots[0].value.provided)[t] else 0) + Outstanding(slots[1..], t)
  }

  /** How many slots are still filled: the measure of the sweep. */
  ghost function Filled(slots: Slots): nat {
    if slots == [] then 0 else (if slots[0].Some? then 1 else 0) + Filled(slots[1..])
  }

  function AllSlots(defs: seq<Component>): (slots: Slots)
    ensures |slots| == |defs| && forall i :: 0 <= i < |defs| ==> slots[i] == Some(defs[i])
  {
    seq(|defs|, i requires 0 <= i < |defs| => Some(defs[i]))
  }

  function CountAt(counts: map<TypeId, nat>, t: TypeId): nat {
    if t in counts then counts[t] else 0
  }

  /** `counts` is exactly the outstanding providers, per type. */
  ghost predicate CountsMatch(counts: map<TypeId, nat>, slots: Slots) {
    forall t :: CountAt(counts, t) == Outstanding(slots, t)
  }

  lemma {:induction false} OutstandingTake(slots: Slots, k: nat, t: TypeId)
    requires k < |slots| && slots[k].Some?
    ensures Outstanding(slots[k := None], t) + multiset(slots[k].value.provided)[t] == Outstanding(slots, t)
  {
    if k == 0 {
      assert slots[0 := None][1..] == slots[1..];
    } else {
      OutstandingTake(slots[1..], k - 1, t);
      assert slots[k := None][1..] == slots[1..][k - 1 := None];
    }
  }

  lemma OutstandingCovers(slots: Slots, counts: map<TypeId, nat>, k: nat)
    requires CountsMatch(counts, slots) && k < |slots| && slots[k].Some?
    ensures forall t :: multiset(slots[k].value.provided)[t] <= CountAt(counts, t)
  {
    forall t ensures multiset(slots[k].value.provided)[t] <= CountAt(counts, t) {
      OutstandingTake(slots, k, t);
    }
  }

  lemma {:induction false} FilledTake(slots: Slots, k: nat)
    requires k < |slots| && slots[k].Some?
    ensures Filled(slots[k := None]) + 1 == Filled(slots)
  {
    if k == 0 {
      assert slots[0 := None][1..] == slots[1..];
    } else {
      FilledTake(slots[1..], k - 1);
      assert slots[k := None][1..] == slots[1..][k - 1 := None];
    }
  }

  lemma {:induction false} OutstandingZero(slots: Slots, t: TypeId)
    ensures Outstanding(slots, t) == 0 <==>
            forall i :: 0 <= i < |slots| && slots[i].Some? ==> t !in slots[i].value.provided
  {
    if slots != [] {
      OutstandingZero(slots[1..], t);
      assert slots[0].Some? ==> (t in slots[0].value.provided <==> t in multiset(slots[0].value.provided));
      forall i | 0 <= i < |slots| - 1 ensures slots[1..][i] == slots[i + 1] {}
      if Outstanding(slots[1..], t) != 0 {
        var i :| 0 <= i < |slots| - 1 && slots[1..][i].Some? && t in slots[1..][i].value.provided;
        assert slots[i + 1].Some? && t in slots[i + 1].value.provided;
      }
    }
  }

  lemma {:induction false} OutstandingAppend(slots: Slots, c: Component, t: TypeId)
    ensures Outstanding(slots + [Some(c)], t) == Outstanding(slots, t) + multiset(c.provided)[t]
  {
    if slots == [] {
      assert slots + [Some(c)] == [Some(c)];
    } else {
      OutstandingAppend(slots[1..], c, t);
      assert (slots + [Some(c)])[1..] == slots[1..] + [Some(c)];
    }
  }

  // ---- Build orders ----------------------------------------------------------

  /** `c` may be built once the components at the indices `done` are: the readiness rule, slot by slot. */
  ghost predicate ReadyAfter(pre: set<TypeId>, defs: seq<Component>, done: seq<nat>, c: Component) {
    && (forall t :: t in c.deps ==> t in pre || exists i :: i in done && i < |defs| && t in defs[i].provided)
    && (forall t, i :: t in c.optDeps && 0 <= i < |defs| && t in defs[i].provided ==> i in done)
  }

  ghost predicate Indices(defs: seq<Component>, order: seq<nat>) {
    && (forall k :: 0 <= k < |order| ==> order[k] < |defs|)
    && (forall j, k :: 0 <= j < k < |order| ==> order[j] != order[k])
  }

  /** Every component of `order` was ready when its turn came. */
  ghost predicate InDependencyOrder(pre: set<TypeId>, defs: seq<Component>, order: seq<nat>) {
    Indices(defs, order) &&
    forall k {:trigger order[..k]} :: 0 <= k < |order| ==> ReadyAfter(pre, defs, order[..k], defs[order[k]])
  }

  /** The history after building the components at `order`, one after the other, on top of `before`. */
  ghost function HistoryAfter(before: seq<Bean>, defs: seq<Component>, order: seq<nat>): seq<Bean>
    requires forall k :: 0 <= k < |order| ==> order[k] < |defs|
  {
    if order == [] then before
    else HistoryAfter(before, defs, order[..|order| - 1]) + Registrations(defs[order[|order| - 1]])
  }

  lemma OrderExtends(pre: set<TypeId>, defs: seq<Component>, order: seq<nat>, i: nat)
    requires InDependencyOrder(pre, defs, order) && i < |defs| && i !in order
    requires ReadyAfter(pre, defs, order, defs[i])
    ensures InDependencyOrder(pre, defs, order + [i])
  {
    var next := order + [i];
    assert next[..|order|] == order;
    forall k | 0 <= k < |next| ensures ReadyAfter(pre, defs, next[..k], defs[next[k]]) {
      if k < |order| { assert next[..k] == order[..k]; }
    }
  }

  /** Whatever is built in dependency order is wirable. */
  lemma {:induction false} OrderIsWirable(pre: set<TypeId>, defs: seq<Component>, order: seq<nat>)
    requires InDependencyOrder(pre, defs, order)
    ensures forall k :: 0 <= k < |order| ==> defs[order[k]] in Wirable(pre, Batch(defs))
  {
    if order != [] {
      var front, c := order[..|order| - 1], defs[order[|order| - 1]];
      forall k | 0 <= k < |front| ensures ReadyAfter(pre, defs, front[..k], defs[front[k]]) {
        assert front[..k] == order[..k];
      }
      OrderIsWirable(pre, defs, front);
      assert ReadyAfter(pre, defs, front, c);
      ReadyAfterIsReady(pre, defs, front, c, Wirable(pre, Batch(defs)));
      ReadyJoins(pre, Batch(defs), c);
    }
  }

  lemma ReadyAfterIsReady(pre: set<TypeId>, defs: seq<Component>, done: seq<nat>, c: Component, s: set<Component>)
    requires ReadyAfter(pre, defs, done, c)
    requires forall k :: 0 <= k < |done| ==> done[k] < |defs| && defs[done[k]] in s
    ensures Ready(pre, Batch(defs), s, c)
  {
    forall t | t in c.deps && t !in pre ensures exists e :: e in s && t in e.provided {
      var i :| i in done && i < |defs| && t in defs[i].provided;
      assert defs[i] in s;
    }
    forall t, e | t in c.optDeps && e in Batch(defs) && t in e.provided ensures e in s {
      var i :| 0 <= i < |defs| && defs[i] == e;
      assert i in done;
    }
  }

  ghost function SlotsAfter(defs: seq<Component>, order: seq<nat>): (slots: Slots)
    ensures |slots| == |defs|
  {
    seq(|defs|, i requires 0 <= i < |defs| => if i in order then None else Some(defs[i]))
  }

  ghost function AvailableAfter(pre: set<TypeId>, defs: seq<Component>, order: seq<nat>): set<TypeId> {
    pre + set i, t | i in order && i < |defs| && t in defs[i].provided :: t
  }

  // ---- The state of the sweep ------------------------------------------------

  ghost predicate SweepState(
    pre: set<TypeId>, defs: seq<Component>, slots: Slots, available: set<TypeId>, counts: map<TypeId, nat>,
    order: seq<nat>)
  {
    && InDependencyOrder(pre, defs, order)
    && slots == SlotsAfter(defs, order)
    && available == AvailableAfter(pre, defs, order)
    && CountsMatch(counts, slots)
  }

  /** The readiness test of the source, on the counters it keeps. */
  predicate SlotReady(slot: Option<Component>, available: set<TypeId>, counts: map<TypeId, nat>) {
    && slot.Some?
    && (forall t :: t in slot.value.deps ==> t in available)
    && (forall t :: t in slot.value.optDeps ==> CountAt(counts, t) == 0)
  }

  predicate NoneReady(slots: Slots, available: set<TypeId>, counts: map<TypeId, nat>) {
    forall k :: 0 <= k < |slots| ==> !SlotReady(slots[k], available, counts)
  }

  /** The counters decide readiness exactly. */
  lemma SlotReadyIsReady(
    pre: set<TypeId>, defs: seq<Component>, slots: Slots, available: set<TypeId>, counts: map<TypeId, nat>,
    order: seq<nat>, k: nat)
    requires SweepState(pre, defs, slots, available, counts, order)
    requires k < |slots| && slots[k].Some?
    ensures SlotReady(slots[k], available, counts) <==> ReadyAfter(pre, defs, order, defs[k])
  {
    forall t ensures CountAt(counts, t) == 0 <==> forall i :: 0 <= i < |defs| && t in defs[i].provided ==> i in order {
      OutstandingZero(slots, t);
      forall i | 0 <= i < |defs| ensures slots[i].Some? <==> i !in order {}
    }
  }

  /** Building a ready slot and booking it keeps the state right. */
  lemma SweepStep(
    pre: set<TypeId>, defs: seq<Component>, slots: Slots, available: set<TypeId>, counts: map<TypeId, nat>,
    order: seq<nat>, k: nat, available': set<TypeId>, counts': map<TypeId, nat>)
    requires SweepState(pre, defs, slots, available, counts, order)
    requires k < |slots| && SlotReady(slots[k], available, counts)
    requires forall t :: t in available' <==> t in available || t in defs[k].provided
    requires forall t :: CountAt(counts', t) == CountAt(counts, t) - multiset(defs[k].provided)[t]
    ensures SweepState(pre, defs, slots[k := None], available', counts', order + [k])
  {
    SlotReadyIsReady(pre, defs, slots, available, counts, order, k);
    OrderExtends(pre, defs, order, k);
    forall t ensures CountAt(counts', t) == Outstanding(slots[k := None], t) {
      OutstandingTake(slots, k, t);
    }
    assert available' == AvailableAfter(pre, defs, order + [k]);
    assert slots[k := None] == SlotsAfter(defs, order + [k]);
  }

  /** When no slot is ready any more, what was built is the least fixpoint. */
  lemma StallIsWirable(
    pre: set<TypeId>, defs: seq<Component>, slots: Slots, available: set<TypeId>, counts: map<TypeId, nat>,
    order: seq<nat>)
    requires SweepState(pre, defs, slots, available, counts, order)
    requires NoneReady(slots, available, counts)
    ensures forall i :: 0 <= i < |defs| ==> (i in order <==> defs[i] in Wirable(pre, Batch(defs)))
    ensures forall t :: t in available <==> t in pre || exists e :: e in Wirable(pre, Batch(defs)) && t in e.provided
  {
    var batch := Batch(defs);
    var w := Wirable(pre, batch);
    OrderIsWirable(pre, defs, order);
    var s := set c | c in batch && forall i :: 0 <= i < |defs| && defs[i] == c ==> i in order;
    forall c | c in batch && Ready(pre, batch, s, c) ensures c in s {
      forall i | 0 <= i < |defs| && defs[i] == c ensures i in order {
        if i !in order {
          ReadyBySets(pre, defs, order, s, c);
          SlotReadyIsReady(pre, defs, slots, available, counts, order, i);
          assert false;
        }
      }
    }
    assert Closed(pre, batch, s);
    WirableIsLeastFixpoint(pre, batch);
    forall e, t | e in w && t in e.provided ensures t in available {
      var i :| 0 <= i < |defs| && defs[i] == e;
      assert i in order;
    }
  }

  lemma ReadyBySets(pre: set<TypeId>, defs: seq<Component>, order: seq<nat>, s: set<Component>, c: Component)
    requires Ready(pre, Batch(defs), s, c)
    requires forall e, i :: e in s && 0 <= i < |defs| && defs[i] == e ==> i in order
    requires s <= Batch(defs)
    ensures ReadyAfter(pre, defs, order, c)
  {
    forall t | t in c.deps && t !in pre ensures exists i :: i in order && i < |defs| && t in defs[i].provided {
      var e :| e in s && t in e.provided;
      var i :| 0 <= i < |defs| && defs[i] == e;
      assert i in order;
    }
    forall t, i | t in c.optDeps && 0 <= i < |defs| && t in defs[i].provided ensures i in order {
      assert defs[i] in Batch(defs);
    }
  }

  // ---- What `refresh` promises -----------------------------------------------

  /** Every hard dependency of a component is registered before it is built. */
  ghost predicate HardDepsFirst(pre: set<TypeId>, defs: seq<Component>, order: seq<nat>)
    requires Indices(defs, order)
  {
    forall k, t :: 0 <= k < |order| && t in defs[order[k]].deps ==>
      t in pre || exists j :: 0 <= j < k && t in defs[order[j]].provided
  }

  ghost predicate FirstLacking(pre: set<TypeId>, defs: seq<Component>, i: nat) {
    && i < |defs| && LacksProvider(pre, Batch(defs), defs[i])
    && forall j :: 0 <= j < i ==> !LacksProvider(pre, Batch(defs), defs[j])
  }

  /** The names of the components blocked on a hard dependency, in queue order. */
  ghost function BlockedNames(pre: set<TypeId>, built: set<Component>, defs: seq<Component>): seq<string> {
    if defs == [] then []
    else
      var rest, last := BlockedNames(pre, built, defs[..|defs| - 1]), defs[|defs| - 1];
      if HardMet(pre, built, last) then rest else rest + [last.typeName]
  }

  /**
   The components at `order` were built, each at most once; the first `main` of them in
   dependency order, and these are exactly the wirable ones. The result is the verdict on
   the batch, and `Ok` means that everything was built with its hard dependencies first, the
   leftovers of the main sweep in queue order.
   */
  ghost predicate Outcome(pre: set<TypeId>, defs: seq<Component>, r: Result<(), DiError>, order: seq<nat>, main: nat) {
    var batch := Batch(defs);
    && Indices(defs, order) && main <= |order|
    && InDependencyOrder(pre, defs, order[..main])
    && (forall i :: 0 <= i < |defs| ==> (i in order[..main] <==> defs[i] in Wirable(pre, batch)))
    && match Verdict(pre, batch)
       case AllBuilt =>
         r.Ok? && (forall i :: 0 <= i < |defs| ==> i in order) && HardDepsFirst(pre, defs, order) &&
           RisesBelow(order, main, |defs|)
       case MissingDependency =>
         main == |order| && exists i: nat :: FirstLacking(pre, defs, i) && r == Err(Missing(defs[i].typeName))
       case CircularDependency =>
         main == |order| && r == Err(Circular(BlockedNames(pre, Wirable(pre, batch), defs)))
  }

  method AddProviders(provided: seq<TypeId>, counts: map<TypeId, nat>) returns (counts': map<TypeId, nat>)
    ensures forall t :: CountAt(counts', t) == CountAt(counts, t) + multiset(provided)[t]
    ensures forall t :: t in counts' <==> t in counts || t in provided
  {
    counts' := counts;
    for j := 0 to |provided|
      invariant forall t :: CountAt(counts', t) == CountAt(counts, t) + multiset(provided[..j])[t]
      invariant forall t :: t in counts' <==> t in counts || t in provided[..j]
    {
      assert provided[..j + 1] == provided[..j] + [provided[j]];
      counts' := counts'[provided[j] := CountAt(counts', provided[j]) + 1];
    }
    assert provided[..|provided|] == provided;
  }

  /** Counts every batch provider, per type. */
  method CountProviders(defs: seq<Component>) returns (counts: map<TypeId, nat>)
    ensures CountsMatch(counts, AllSlots(defs))
    ensures forall t :: t in counts <==> exists i :: 0 <= i < |defs| && t in defs[i].provided
  {
    counts := map[];
    for k := 0 to |defs|
      invariant CountsMatch(counts, AllSlots(defs[..k]))
      invariant forall t :: t in counts <==> exists i :: 0 <= i < k && t in defs[i].provided
    {
      assert AllSlots(defs[..k + 1]) == AllSlots(defs[..k]) + [Some(defs[k])];
      forall t ensures Outstanding(AllSlots(defs[..k + 1]), t) ==
        Outstanding(AllSlots(defs[..k]), t) + multiset(defs[k].provided)[t] {
        OutstandingAppend(AllSlots(defs[..k]), defs[k], t);
      }
      counts := AddProviders(defs[k].provided, counts);
    }
    assert defs[..|defs|] == defs;
  }

  /** Books a built component: its types become available and are no longer outstanding. */
  method Settle(provided: seq<TypeId>, available: set<TypeId>, counts: map<TypeId, nat>)
    returns (available': set<TypeId>, counts': map<TypeId, nat>)
    requires forall t :: multiset(provided)[t] <= CountAt(counts, t)
    ensures forall t :: t in available' <==> t in available || t in provided
    ensures forall t :: CountAt(counts', t) == CountAt(counts, t) - multiset(provided)[t]
  {
    available', counts' := available, counts;
    for j := 0 to |provided|
      invariant forall t :: t in available' <==> t in available || t in provided[..j]
      invariant forall t :: CountAt(counts', t) == CountAt(counts, t) - multiset(provided[..j])[t]
    {
      var p := provided[j];
      assert provided[..j + 1] == provided[..j] + [p];
      assert multiset(provided) == multiset(provided[..j + 1]) + multiset(provided[j + 1..]) by {
        assert provided == provided[..j + 1] + provided[j + 1..];
      }
      available' := available' + {p};
      if p in counts' {
        assert multiset(provided[..j + 1])[p] == multiset(provided[..j])[p] + 1;
        assert counts'[p] > 0;  // the saturating subtraction of the source never saturates
        counts' := counts'[p := if counts'[p] == 0 then 0 else counts'[p] - 1];
      }
    }
    assert provided[..|provided|] == provided;
  }

  /** The first slot still filled with a hard dependency nobody provides, or the number of slots. */
  method FindLacking(slots: Slots, available: set<TypeId>, batchTypes: set<TypeId>) returns (k: nat)
    ensures k <= |slots|
    ensures k < |slots| ==> slots[k].Some? && Lacks(slots[k].value, available, batchTypes)
    ensures forall j :: 0 <= j < k && slots[j].Some? ==> !Lacks(slots[j].value, available, batchTypes)
  {
    k := 0;
    while k < |slots| && !(slots[k].Some? && Lacks(slots[k].value, available, batchTypes))
      invariant k <= |slots|
      invariant forall j :: 0 <= j < k && slots[j].Some? ==> !Lacks(slots[j].value, available, batchTypes)
    {
      k := k + 1;
    }
  }

  predicate Lacks(c: Component, available: set<TypeId>, batchTypes: set<TypeId>) {
    exists i :: 0 <= i < |c.deps| && c.deps[i] !in available && c.deps[i] !in batchTypes
  }

  predicate Blocked(c: Component, available: set<TypeId>) {
    exists i :: 0 <= i < |c.deps| && c.deps[i] !in available
  }

  function BlockedSlots(slots: Slots, available: set<TypeId>): seq<string> {
    if slots == [] then []
    else
      var rest, last := BlockedSlots(slots[..|slots| - 1], available), slots[|slots| - 1];
      if last.Some? && Blocked(last.value, available) then rest + [last.value.typeName] else rest
  }

  method FindBlocked(slots: Slots, available: set<TypeId>) returns (names: seq<string>)
    ensures names == BlockedSlots(slots, available)
  {
    names := [];
    for k := 0 to |slots|
      invariant names == BlockedSlots(slots[..k], available)
    {
      assert slots[..k + 1][..k] == slots[..k];
      if slots[k].Some? && Blocked(slots[k].value, available) {
        names := names + [slots[k].value.typeName];
      }
    }
    assert slots[..|slots|] == slots;
  }

  /** After the sweep: what is built is wirable, what is available is what that provides. */
  ghost predicate Swept(pre: set<TypeId>, defs: seq<Component>, slots: Slots, available: set<TypeId>, order: seq<nat>) {
    && slots == SlotsAfter(defs, order)
    && (forall i :: 0 <= i < |defs| ==> (i in order <==> defs[i] in Wirable(pre, Batch(defs))))
    && (forall t :: t in available <==> t in pre || exists e :: e in Wirable(pre, Batch(defs)) && t in e.provided)
  }

  lemma LacksIsLacksProvider(pre: set<TypeId>, defs: seq<Component>, available: set<TypeId>, batchTypes: set<TypeId>,
                             c: Component)
    requires forall t :: t in available <==> t in pre || exists e :: e in Wirable(pre, Batch(defs)) && t in e.provided
    requires forall t :: t in batchTypes <==> exists i :: 0 <= i < |defs| && t in defs[i].provided
    ensures Lacks(c, available, batchTypes) <==> LacksProvider(pre, Batch(defs), c)
  {
    var batch := Batch(defs);
    forall t ensures t in batchTypes <==> HasProvider(batch, t) {
      if t in batchTypes {
        var i :| 0 <= i < |defs| && t in defs[i].provided;
        assert defs[i] in batch;
      }
    }
    if Lacks(c, available, batchTypes) {
      var i :| 0 <= i < |c.deps| && c.deps[i] !in available && c.deps[i] !in batchTypes;
      assert c.deps[i] in c.deps;
    }
    if LacksProvider(pre, batch, c) {
      var t :| t in c.deps && t !in pre && !HasProvider(batch, t);
      var i :| 0 <= i < |c.deps| && c.deps[i] == t;
    }
  }

  lemma LackingIsFirst(pre: set<TypeId>, defs: seq<Component>, slots: Slots, available: set<TypeId>,
                       batchTypes: set<TypeId>, order: seq<nat>, k: nat)
    requires Swept(pre, defs, slots, available, order)
    requires forall t :: t in batchTypes <==> exists i :: 0 <= i < |defs| && t in defs[i].provided
    requires k <= |slots|
    requires k < |slots| ==> slots[k].Some? && Lacks(slots[k].value, available, batchTypes)
    requires forall j :: 0 <= j < k && slots[j].Some? ==> !Lacks(slots[j].value, available, batchTypes)
    ensures k < |slots| ==> FirstLacking(pre, defs, k) && Verdict(pre, Batch(defs)) == MissingDependency
    ensures k == |slots| ==> Verdict(pre, Batch(defs)) != MissingDependency
  {
    forall j | 0 <= j < k ensures !LacksProvider(pre, Batch(defs), defs[j]) {
      LacksIsLacksProvider(pre, defs, available, batchTypes, defs[j]);
      if j in order { WirableLacksNothing(pre, Batch(defs), defs[j]); } else { assert slots[j] == Some(defs[j]); }
    }
    if k < |slots| {
      LacksIsLacksProvider(pre, defs, available, batchTypes, defs[k]);
      assert defs[k] in Batch(defs);
    } else {
      forall c | c in Batch(defs) ensures !LacksProvider(pre, Batch(defs), c) {
        var j :| 0 <= j < |defs| && defs[j] == c;
      }
    }
  }

  lemma WirableLacksNothing(pre: set<TypeId>, batch: set<Component>, c: Component)
    requires c in Wirable(pre, batch)
    ensures HardMet(pre, Wirable(pre, batch), c) && !LacksProvider(pre, batch, c)
  {
    WirableIsLeastFixpoint(pre, batch);
    forall t | t in c.deps && t !in pre ensures HasProvider(batch, t) {
      var e :| e in Wirable(pre, batch) && t in e.provided;
      assert e in batch;
    }
  }

  lemma BlockedIsUnmet(pre: set<TypeId>, built: set<Component>, available: set<TypeId>, c: Component)
    requires forall t :: t in available <==> t in pre || exists e :: e in built && t in e.provided
    ensures Blocked(c, available) <==> !HardMet(pre, built, c)
  {
    if !HardMet(pre, built, c) {
      var t :| t in c.deps && t !in pre && !exists e :: e in built && t in e.provided;
      var i :| 0 <= i < |c.deps| && c.deps[i] == t;
    }
    if Blocked(c, available) {
      var i :| 0 <= i < |c.deps| && c.deps[i] !in available;
      assert c.deps[i] in c.deps;
    }
  }

  /** A slot is blocked exactly when it holds a component with an unmet hard dependency. */
  ghost predicate BlockedRight(pre: set<TypeId>, built: set<Component>, available: set<TypeId>, slot: Option<Component>,
                               c: Component) {
    if HardMet(pre, built, c) then slot.None? || !Blocked(slot.value, available)
    else slot == Some(c) && Blocked(c, available)
  }

  lemma {:induction false} BlockedPrefix(pre: set<TypeId>, built: set<Component>, available: set<TypeId>,
                                         defs: seq<Component>, slots: Slots)
    requires |slots| == |defs| && forall i :: 0 <= i < |defs| ==> BlockedRight(pre, built, available, slots[i], defs[i])
    ensures BlockedSlots(slots, available) == BlockedNames(pre, built, defs)
    ensures BlockedSlots(slots, available) == [] <==> forall i :: 0 <= i < |defs| ==> HardMet(pre, built, defs[i])
    decreases |defs|
  {
    if defs != [] {
      var n := |defs| - 1;
      BlockedPrefix(pre, built, available, defs[..n], slots[..n]);
      assert BlockedRight(pre, built, available, slots[n], defs[n]);
      assert forall i :: 0 <= i < n ==> defs[..n][i] == defs[i];
    }
  }

  /** The blocked slots are the components of the batch with an unmet hard dependency, in queue order. */
  lemma BlockedNamesOf(pre: set<TypeId>, defs: seq<Component>, slots: Slots, available: set<TypeId>, order: seq<nat>)
    requires Swept(pre, defs, slots, available, order)
    ensures BlockedSlots(slots, available) == BlockedNames(pre, Wirable(pre, Batch(defs)), defs)
    ensures BlockedSlots(slots, available) == [] <==>
            forall i :: 0 <= i < |defs| ==> HardMet(pre, Wirable(pre, Batch(defs)), defs[i])
  {
    var built := Wirable(pre, Batch(defs));
    forall i | 0 <= i < |defs| ensures BlockedRight(pre, built, available, slots[i], defs[i]) {
      BlockedIsUnmet(pre, built, available, defs[i]);
      if i in order { WirableLacksNothing(pre, Batch(defs), defs[i]); }
    }
    BlockedPrefix(pre, built, available, defs, slots);
  }

  lemma BlockedAre(pre: set<TypeId>, defs: seq<Component>, slots: Slots, available: set<TypeId>, order: seq<nat>)
    requires Swept(pre, defs, slots, available, order)
    requires Verdict(pre, Batch(defs)) != MissingDependency
    ensures BlockedSlots(slots, available) == BlockedNames(pre, Wirable(pre, Batch(defs)), defs)
    ensures BlockedSlots(slots, available) != [] <==> Verdict(pre, Batch(defs)) == CircularDependency
  {
    BlockedNamesOf(pre, defs, slots, available, order);
    forall i | 0 <= i < |defs| ensures defs[i] in Batch(defs) {}
  }

  lemma SweptDep(pre: set<TypeId>, defs: seq<Component>, main: seq<nat>, k: nat, t: TypeId) returns (j: nat)
    requires InDependencyOrder(pre, defs, main)
    requires k < |main| && t in defs[main[k]].deps && t !in pre
    ensures j < k && t in defs[main[j]].provided
  {
    assert ReadyAfter(pre, defs, main[..k], defs[main[k]]);
    var i :| i in main[..k] && i < |defs| && t in defs[i].provided;
    j :| 0 <= j < k && main[..k][j] == i;
  }

  lemma RestDep(pre: set<TypeId>, defs: seq<Component>, main: seq<nat>, c: Component, t: TypeId) returns (j: nat)
    requires Indices(defs, main)
    requires forall i :: 0 <= i < |defs| ==> (i in main <==> defs[i] in Wirable(pre, Batch(defs)))
    requires HardMet(pre, Wirable(pre, Batch(defs)), c) && t in c.deps && t !in pre
    ensures j < |main| && t in defs[main[j]].provided
  {
    var e :| e in Wirable(pre, Batch(defs)) && t in e.provided;
    var i :| 0 <= i < |defs| && defs[i] == e;
    j :| 0 <= j < |main| && main[j] == i;
  }

  /** After a soft-only stall the hard dependencies of what is left were all built in the main sweep. */
  lemma HardDepsHold(pre: set<TypeId>, defs: seq<Component>, main: seq<nat>, order: seq<nat>)
    requires Indices(defs, order) && |main| <= |order| && order[..|main|] == main
    requires InDependencyOrder(pre, defs, main)
    requires forall i :: 0 <= i < |defs| ==> (i in main <==> defs[i] in Wirable(pre, Batch(defs)))
    requires Verdict(pre, Batch(defs)) == AllBuilt
    ensures HardDepsFirst(pre, defs, order)
  {
    forall k, t | 0 <= k < |order| && t in defs[order[k]].deps && t !in pre
      ensures exists j :: 0 <= j < k && t in defs[order[j]].provided
    {
      if k < |main| {
        assert order[k] == main[k];
        var j := SweptDep(pre, defs, main, k, t);
        assert order[j] == main[j];
      } else {
        assert defs[order[k]] in Batch(defs);
        var j := RestDep(pre, defs, main, defs[order[k]], t);
        assert order[j] == main[j];
      }
    }
  }

  lemma HistoryStep(before: seq<Bean>, defs: seq<Component>, order: seq<nat>, k: nat)
    requires (forall j :: 0 <= j < |order| ==> order[j] < |defs|) && k < |defs|
    ensures HistoryAfter(before, defs, order + [k]) == HistoryAfter(before, defs, order) + Registrations(defs[k])
  {
    assert (order + [k])[..|order|] == order;
  }

  /** From `from` on, the numbers rise and stay below `bound`. */
  ghost predicate RisesBelow(order: seq<nat>, from: nat, bound: nat) {
    && (forall j :: from <= j < |order| ==> order[j] < bound)
    && (forall j, k :: from <= j < k < |order| ==> order[j] < order[k])
  }

  /** The main sweep's order, then the leftovers among the first `k`, in queue order. */
  ghost predicate RestOrder(defs: seq<Component>, main: seq<nat>, order: seq<nat>, k: nat) {
    && Indices(defs, order) && |main| <= |order| && order[..|main|] == main
    && (forall i :: 0 <= i < |defs| ==> (i in order <==> i < k || i in main))
    && RisesBelow(order, |main|, k)
  }

  lemma RestStep(defs: seq<Component>, main: seq<nat>, order: seq<nat>, k: nat)
    requires RestOrder(defs, main, order, k) && k < |defs|
    ensures k in main ==> RestOrder(defs, main, order, k + 1)
    ensures k !in main ==> k !in order && RestOrder(defs, main, order + [k], k + 1)
  {
    if k !in main {
      var next := order + [k];
      assert next[..|main|] == order[..|main|];
      assert forall i :: i in next <==> i == k || i in order;
    }
  }

  // ---- Two queues of the same components -------------------------------------

  /** The components built in the main sweep. */
  ghost function SweptSet(defs: seq<Component>, order: seq<nat>, main: nat): set<Component>
    requires Indices(defs, order) && main <= |order|
  {
    set k | 0 <= k < main :: defs[order[k]]
  }

  lemma SweptIsWirable(pre: set<TypeId>, defs: seq<Component>, r: Result<(), DiError>, order: seq<nat>, main: nat)
    requires Outcome(pre, defs, r, order, main)
    ensures SweptSet(defs, order, main) == Wirable(pre, Batch(defs))
  {
    var w, built := Wirable(pre, Batch(defs)), SweptSet(defs, order, main);
    forall c | c in built ensures c in w {
      var k :| 0 <= k < main && defs[order[k]] == c;
      assert order[..main][k] == order[k];
      assert order[k] in order[..main];
    }
    forall c | c in w ensures c in built {
      var i :| 0 <= i < |defs| && defs[i] == c;
      var k :| 0 <= k < main && order[..main][k] == i;
      assert defs[order[k]] == c;
    }
  }

  lemma OutcomeIsVerdict(pre: set<TypeId>, defs: seq<Component>, r: Result<(), DiError>, order: seq<nat>, main: nat)
    requires Outcome(pre, defs, r, order, main)
    ensures r.Ok? <==> Verdict(pre, Batch(defs)) == AllBuilt
    ensures r.Err? && r.error.Missing? <==> Verdict(pre, Batch(defs)) == MissingDependency
    ensures r.Err? && r.error.Circular? <==> Verdict(pre, Batch(defs)) == CircularDependency
    ensures r.Ok? ==> forall i :: 0 <= i < |defs| ==> i in order
  {
  }

  /**
   However a batch is ordered, `refresh` ends alike: both runs succeed, or both fail with an
   error of the same kind, and their main sweeps build the same components.
   */
  lemma OutcomesAgree(pre: set<TypeId>, defs: seq<Component>, r: Result<(), DiError>, order: seq<nat>, main: nat,
                      defs': seq<Component>, r': Result<(), DiError>, order': seq<nat>, main': nat)
    requires Outcome(pre, defs, r, order, main) && Outcome(pre, defs', r', order', main') &&
      multiset(defs) == multiset(defs')
    ensures r.Ok? <==> r'.Ok?
    ensures r.Err? && r.error.Missing? <==> r'.Err? && r'.error.Missing?
    ensures r.Err? && r.error.Circular? <==> r'.Err? && r'.error.Circular?
    ensures SweptSet(defs, order, main) == SweptSet(defs', order', main')
    ensures r.Ok? ==> (forall i :: 0 <= i < |defs| ==> i in order) && forall i :: 0 <= i < |defs'| ==> i in order'
  {
    QueueOrderIsIrrelevant(pre, defs, defs');
    OutcomeIsVerdict(pre, defs, r, order, main);
    OutcomeIsVerdict(pre, defs', r', order', main');
    SweptIsWirable(pre, defs, r, order, main);
    SweptIsWirable(pre, defs', r', order', main');
  }

  /** The types some beans are filed under. */
  ghost function KeysOf(beans: seq<Bean>): set<TypeId> {
    set i | 0 <= i < |beans| :: beans[i].entry.typeId
  }

  lemma OneMoreKey(before: seq<Bean>, keys: set<TypeId>, beans: seq<Bean>, k: nat)
    requires k < |beans|
    ensures before + beans[..k] + [beans[k]] == before + beans[..k + 1]
    ensures keys + KeysOf(beans[..k]) + {beans[k].entry.typeId} == keys + KeysOf(beans[..k + 1])
  {
    var small, big := beans[..k], beans[..k + 1];
    forall t ensures t in KeysOf(big) <==> t in KeysOf(small) || t == beans[k].entry.typeId {
      if t in KeysOf(small) {
        var i :| 0 <= i < |small| && small[i].entry.typeId == t;
        assert big[i] == small[i];
      }
      assert big[k] == beans[k];
      if t in KeysOf(big) {
        var i :| 0 <= i < |big| && big[i].entry.typeId == t;
        if i < k { assert small[i] == big[i]; }
      }
    }
  }

  lemma KeysOfBuilt(c: Component, t: TypeId)
    ensures t in KeysOf(Registrations(c)) <==> t in c.provided
  {
    var beans := Registrations(c);
    if t in c.provided {
      var i :| 0 <= i < |c.provided| && c.provided[i] == t;
      assert beans[i].entry.typeId == t;
    }
  }

  class AppContext {
    var instances: Store
    var pending: seq<Component>
    /** Every accepted registration, in order. */
    ghost var history: seq<Bean>

    /** The store is what the history says, and every instance has the type it is filed under. */
    ghost predicate Valid()
      reads this
    {
      && instances == FileAll(map[], history)
      && forall i :: 0 <= i < |history| ==> history[i].instance.typeId == history[i].entry.typeId
    }

    constructor ()
      ensures Valid() && history == [] && pending == []
    {
      instances, pending, history := map[], [], [];
    }

    method RegisterWithEntry(entry: Entry, instance: Instance) returns (r: Result<(), DiError>)
      requires Valid()
      modifies this`instances, this`history
      ensures Valid()
      ensures instance.typeId != entry.typeId ==>
                r == Err(TypeMismatch(entry.typeName)) && instances == old(instances) && history == old(history)
      ensures instance.typeId == entry.typeId ==>
                r == Ok(()) && history == old(history) + [Bean(entry, instance)] &&
                instances.Keys == old(instances.Keys) + {entry.typeId}
    {
      if instance.typeId != entry.typeId {
        return Err(TypeMismatch(entry.typeName));
      }
      var bean := Bean(entry, instance);
      var list := ListAt(instances, entry.typeId);
      history := history + [bean];
      assert history[..|history| - 1] == old(history);
      if IsDefault(bean) {
        if exists i :: 0 <= i < |list| && !IsDefault(list[i]) {
          return Ok(());
        }
      } else {
        list := DropDefaults(list);
      }
      instances := instances[entry.typeId := list + [bean]];
      return Ok(());
    }

    /** Looks a bean up by type: the only survivor of the history, or the only primary one. */
    method Get(t: TypeId) returns (r: Result<Instance, DiError>)
      requires Valid()
      ensures r == Err(NotFound) <==> !Registered(history, t)
      ensures r.Ok? <==>
        Registered(history, t) &&
          (|Survivors(history, t)| == 1 || exists i: nat :: OnlyMatch(Survivors(history, t), ByPrimary, i))
      ensures r.Ok? && |Survivors(history, t)| == 1 ==> r.value == Survivors(history, t)[0].instance
      ensures r.Ok? && |Survivors(history, t)| != 1 ==>
        exists i: nat :: OnlyMatch(Survivors(history, t), ByPrimary, i) && r.value == Survivors(history, t)[i].instance
      ensures r.Ok? ==> r.value.typeId == t  // the downcast cannot fail
    {
      StoreIsSurvivors(history);
      KeptMembers(history, t, true);
      KeptMembers(history, t, false);
      if t !in instances { return Err(NotFound); }
      var list := instances[t];
      assert forall i :: 0 <= i < |list| ==> list[i] in list;
      if |list| == 1 { return Ok(list[0].instance); }
      MatchingCount(list, ByPrimary);
      var primaries := Matching(list, ByPrimary);
      if |primaries| != 1 { return Err(Ambiguous); }
      ghost var i: nat :| OnlyMatch(list, ByPrimary, i);
      return Ok(primaries[0].instance);
    }

    /** Looks a bean up by type and qualifier: the only survivor carrying that qualifier. */
    method GetQualified(t: TypeId, q: string) returns (r: Result<Instance, DiError>)
      requires Valid()
      ensures r.Ok? <==> Registered(history, t) && exists i: nat :: OnlyMatch(Survivors(history, t), ByQualifier(q), i)
      ensures r.Ok? ==>
        exists i: nat :: OnlyMatch(Survivors(history, t), ByQualifier(q), i) &&
          r.value == Survivors(history, t)[i].instance
      ensures r == Err(NotFound) <==>
        !Registered(history, t) || forall b :: b in Survivors(history, t) ==> !Matches(b, ByQualifier(q))
      ensures r.Ok? ==> r.value.typeId == t
    {
      StoreIsSurvivors(history);
      KeptMembers(history, t, true);
      KeptMembers(history, t, false);
      if t !in instances { return Err(NotFound); }
      var list := instances[t];
      assert forall i :: 0 <= i < |list| ==> list[i] in list;
      MatchingCount(list, ByQualifier(q));
      var matches := Matching(list, ByQualifier(q));
      if matches == [] { return Err(NotFound); }
      if |matches| > 1 { return Err(Ambiguous); }
      ghost var i: nat :| OnlyMatch(list, ByQualifier(q), i);
      return Ok(matches[0].instance);
    }

    method RegisterComponent(c: Component)
      modifies this`pending
      ensures pending == old(pending) + [c]
    {
      pending := pending + [c];
    }

    /** Registers beans one by one. */
    method RegisterAll(beans: seq<Bean>)
      requires Valid() && forall i :: 0 <= i < |beans| ==> beans[i].instance.typeId == beans[i].entry.typeId
      modifies this`instances, this`history
      ensures Valid() && history == old(history) + beans
      ensures instances.Keys == old(instances.Keys) + KeysOf(beans)
    {
      ghost var before, keys := history, instances.Keys;
      assert before + beans[..0] == before && keys + KeysOf(beans[..0]) == keys;
      for k := 0 to |beans|
        invariant Valid() && history == before + beans[..k] && instances.Keys == keys + KeysOf(beans[..k])
      {
        var _ := RegisterWithEntry(beans[k].entry, beans[k].instance);
        OneMoreKey(before, keys, beans, k);
      }
      assert beans[..|beans|] == beans;
    }

    /** The builder of a queued component. */
    method Build(c: Component)
      requires Valid()
      modifies this`instances, this`history
      ensures Valid() && history == old(history) + Registrations(c)
      ensures forall t :: t in instances <==> t in old(instances) || t in c.provided
    {
      RegisterAll(Registrations(c));
      forall t ensures t in KeysOf(Registrations(c)) <==> t in c.provided { KeysOfBuilt(c, t); }
    }

    /** The main sweep: builds ready components until none is. */
    method Sweep(defs: seq<Component>, counts0: map<TypeId, nat>)
      returns (slots: Slots, available: set<TypeId>, ghost order: seq<nat>)
      requires Valid()
      requires CountsMatch(counts0, AllSlots(defs))
      modifies this`instances, this`history
      ensures Valid()
      ensures InDependencyOrder(old(instances.Keys), defs, order)
      ensures history == HistoryAfter(old(history), defs, order)
      ensures Swept(old(instances.Keys), defs, slots, available, order) && available == instances.Keys
    {
      ghost var pre, before := instances.Keys, history;
      available := instances.Keys;
      slots := AllSlots(defs);
      var counts := counts0;
      order := [];
      var builtAny := true;
      while builtAny
        invariant Sweeping(before, pre, defs, slots, available, counts, order)
        invariant !builtAny ==> NoneReady(slots, available, counts)
        decreases Filled(slots), builtAny
      {
        slots, available, counts, builtAny, order := Pass(before, pre, defs, slots, available, counts, order);
      }
      StallIsWirable(pre, defs, slots, available, counts, order);
    }

    /** The sweep's invariant: its bookkeeping is right, and `order` is what it has registered since `before`. */
    ghost predicate Sweeping(before: seq<Bean>, pre: set<TypeId>, defs: seq<Component>, slots: Slots,
                             available: set<TypeId>, counts: map<TypeId, nat>, order: seq<nat>)
      reads this
    {
      && Valid()
      && SweepState(pre, defs, slots, available, counts, order)
      && history == HistoryAfter(before, defs, order)
      && available == instances.Keys
    }

    /** One pass over the slots. */
    method Pass(ghost before: seq<Bean>, ghost pre: set<TypeId>, ghost defs: seq<Component>, slots0: Slots,
                available0: set<TypeId>, counts0: map<TypeId, nat>, ghost order0: seq<nat>)
      returns (slots: Slots, available: set<TypeId>, counts: map<TypeId, nat>, builtAny: bool, ghost order: seq<nat>)
      requires Sweeping(before, pre, defs, slots0, available0, counts0, order0)
      modifies this`instances, this`history
      ensures Sweeping(before, pre, defs, slots, available, counts, order)
      ensures builtAny ==> Filled(slots) < Filled(slots0)
      ensures !builtAny ==> slots == slots0 && NoneReady(slots, available, counts)
    {
      slots, available, counts, order := slots0, available0, counts0, order0;
      builtAny := false;
      for k := 0 to |slots0|
        invariant Sweeping(before, pre, defs, slots, available, counts, order)
        invariant builtAny ==> Filled(slots) < Filled(slots0)
        invariant !builtAny ==> slots == slots0 && forall j :: 0 <= j < k ==> !SlotReady(slots[j], available, counts)
      {
        if SlotReady(slots[k], available, counts) {
          available, counts := BuildSlot(before, pre, defs, slots, available, counts, order, k);
          FilledTake(slots, k);
          slots, order, builtAny := slots[k := None], order + [k], true;
        }
      }
    }

    /** Builds the ready component in slot `k`. */
    method BuildSlot(ghost before: seq<Bean>, ghost pre: set<TypeId>, ghost defs: seq<Component>, slots: Slots,
                     available: set<TypeId>, counts: map<TypeId, nat>, ghost order: seq<nat>, k: nat)
      returns (available': set<TypeId>, counts': map<TypeId, nat>)
      requires Sweeping(before, pre, defs, slots, available, counts, order)
      requires k < |slots| && SlotReady(slots[k], available, counts)
      modifies this`instances, this`history
      ensures forall t :: t in slots[k].value.deps ==> t in old(instances)
      ensures Sweeping(before, pre, defs, slots[k := None], available', counts', order + [k])
    {
      OutstandingCovers(slots, counts, k);
      available', counts' := BuildAndSettle(slots[k].value, available, counts);
      SweepStep(pre, defs, slots, available, counts, order, k, available', counts');
      assert (order + [k])[..|order|] == order;
    }

    /** Builds a component and books it. */
    method BuildAndSettle(c: Component, available: set<TypeId>, counts: map<TypeId, nat>)
      returns (available': set<TypeId>, counts': map<TypeId, nat>)
      requires Valid() && available == instances.Keys && forall t :: multiset(c.provided)[t] <= CountAt(counts, t)
      modifies this`instances, this`history
      ensures Valid() && history == old(history) + Registrations(c) && available' == instances.Keys
      ensures forall t :: t in available' <==> t in available || t in c.provided
      ensures forall t :: CountAt(counts', t) == CountAt(counts, t) - multiset(c.provided)[t]
    {
      Build(c);
      available', counts' := Settle(c.provided, available, counts);
    }

    /** The soft-only stall: builds what is left, in queue order. */
    method BuildRest(ghost before: seq<Bean>, ghost defs: seq<Component>, slots: Slots, ghost main: seq<nat>)
      returns (ghost order: seq<nat>)
      requires Valid() && Indices(defs, main) && slots == SlotsAfter(defs, main)
      requires history == HistoryAfter(before, defs, main)
      modifies this`instances, this`history
      ensures Valid() && Indices(defs, order) && history == HistoryAfter(before, defs, order)
      ensures |main| <= |order| && order[..|main|] == main
      ensures forall i :: 0 <= i < |defs| ==> i in order
      ensures RisesBelow(order, |main|, |defs|)
    {
      order := main;
      for k := 0 to |slots|
        invariant Valid() && RestOrder(defs, main, order, k) && history == HistoryAfter(before, defs, order)
      {
        RestStep(defs, main, order, k);
        if slots[k].Some? {
          Build(slots[k].value);
          HistoryStep(before, defs, order, k);
          order := order + [k];
        }
      }
    }

    /** One batch of the queue. */
    method RefreshBatch(defs: seq<Component>) returns (r: Result<(), DiError>, ghost order: seq<nat>, ghost main: nat)
      requires Valid()
      modifies this`instances, this`history
      ensures Valid()
      ensures Outcome(old(instances.Keys), defs, r, order, main)
      ensures history == HistoryAfter(old(history), defs, order)
    {
      ghost var pre := instances.Keys;
      var counts := CountProviders(defs);
      var slots, available;
      slots, available, order := Sweep(defs, counts);
      main := |order|;
      assert order[..main] == order;
      var lacking := FindLacking(slots, available, counts.Keys);
      LackingIsFirst(pre, defs, slots, available, counts.Keys, order, lacking);
      if lacking < |slots| {
        return Err(Missing(slots[lacking].value.typeName)), order, main;
      }
      var blocked := FindBlocked(slots, available);
      BlockedAre(pre, defs, slots, available, order);
      if blocked != [] {
        return Err(Circular(blocked)), order, main;
      }
      ghost var sweep := order;
      order := BuildRest(old(history), defs, slots, sweep);
      HardDepsHold(pre, defs, sweep, order);
      r := Ok(());
    }

    /** Builds every queued component in dependency order. */
    method Refresh() returns (r: Result<(), DiError>, ghost order: seq<nat>, ghost main: nat)
      requires Valid()
      modifies this
      ensures Valid() && pending == []
      ensures Outcome(old(instances.Keys), old(pending), r, order, main)
      ensures history == HistoryAfter(old(history), old(pending), order)
    {
      r, order, main := Ok(()), [], 0;
      while pending != []
        invariant Valid()
        invariant pending == [] || (pending == old(pending) && instances == old(instances) && history == old(history))
        invariant pending == [] ==> Outcome(old(instances.Keys), old(pending), r, order, main)
        invariant pending == [] ==> history == HistoryAfter(old(history), old(pending), order)
        decreases |pending|
      {
        var defs := pending;
        pending := [];
        r, order, main := RefreshBatch(defs);
        if r.Err? { return; }
      }
    }
  }
}
