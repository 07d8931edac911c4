/**
 The bean store of the DI container (crates/di-core/src/context.rs, bean.rs).

 A context files each registered bean under its `TypeId`. A framework default is
 dropped when a user bean exists, and a user bean evicts the defaults filed before
 it. The specification does not replay those rules: it says which beans of the whole
 registration history are left for a key (`Survivors`).
 */
module Beans {
  import opened Common

  /** Rust's `TypeId`: only equality matters. */
  type TypeId(==, !new)

  datatype Origin = FrameworkDefault | User | Builder

  datatype Entry = Entry(typeId: TypeId, typeName: string, origin: Origin, primary: bool, qualifier: Option<string>)

  /** An `Arc<dyn Any>`: the dynamic type it answers to, and which object it is. */
  datatype Instance = Instance(typeId: TypeId, target: int)

  datatype Bean = Bean(entry: Entry, instance: Instance)

  predicate IsDefault(b: Bean) {
    b.entry.origin == FrameworkDefault
  }

  type Store = map<TypeId, seq<Bean>>

  // ---- The registration rule -------------------------------------------------

  function DropDefaults(list: seq<Bean>): seq<Bean> {
    if list == [] then []
    else if IsDefault(list[|list| - 1]) then DropDefaults(list[..|list| - 1])
    else DropDefaults(list[..|list| - 1]) + [list[|list| - 1]]
  }

  /** What one registration does to the list of its key. */
  function Filed(list: seq<Bean>, b: Bean): seq<Bean> {
    if IsDefault(b) then
      if exists i :: 0 <= i < |list| && !IsDefault(list[i]) then list else list + [b]
    else
      DropDefaults(list) + [b]
  }

  function ListAt(m: Store, t: TypeId): seq<Bean> {
    if t in m then m[t] else []
  }

  function File(m: Store, b: Bean): Store {
    m[b.entry.typeId := Filed(ListAt(m, b.entry.typeId), b)]
  }

  function FileAll(m: Store, history: seq<Bean>): Store {
    if history == [] then m
    else File(FileAll(m, history[..|history| - 1]), history[|history| - 1])
  }

  // ---- What the history leaves for a key -------------------------------------

  /** The beans of `h` filed under `t` that are (or are not) framework defaults, in order. */
  function Kept(h: seq<Bean>, t: TypeId, defaults: bool): seq<Bean> {
    if h == [] then []
    else
      var rest, b := Kept(h[..|h| - 1], t, defaults), h[|h| - 1];
      if b.entry.typeId == t && IsDefault(b) == defaults then rest + [b] else rest
  }

  /** Every user bean of the history, in order; or, if there is none, every default. */
  function Survivors(h: seq<Bean>, t: TypeId): seq<Bean> {
    var users := Kept(h, t, false);
    if users != [] then users else Kept(h, t, true)
  }

  predicate Registered(h: seq<Bean>, t: TypeId) {
    exists i :: 0 <= i < |h| && h[i].entry.typeId == t
  }

  lemma {:induction false} KeptMembers(h: seq<Bean>, t: TypeId, defaults: bool)
    ensures forall b :: b in Kept(h, t, defaults) ==> b in h && b.entry.typeId == t && IsDefault(b) == defaults
    ensures Kept(h, t, defaults) == [] <==>
            forall i :: 0 <= i < |h| ==> h[i].entry.typeId == t ==> IsDefault(h[i]) != defaults
  {
    if h != [] {
      var front := h[..|h| - 1];
      KeptMembers(front, t, defaults);
      assert h == front + [h[|h| - 1]];
    }
  }

  lemma {:induction false} DropDefaultsOfUsers(list: seq<Bean>)
    requires forall b :: b in list ==> !IsDefault(b)
    ensures DropDefaults(list) == list
  {
    if list != [] {
      assert list == list[..|list| - 1] + [list[|list| - 1]];
      DropDefaultsOfUsers(list[..|list| - 1]);
    }
  }

  lemma {:induction false} DropDefaultsOfDefaults(list: seq<Bean>)
    requires forall b :: b in list ==> IsDefault(b)
    ensures DropDefaults(list) == []
  {
    if list != [] {
      DropDefaultsOfDefaults(list[..|list| - 1]);
    }
  }

  /**
   After every registration history, exactly the registered keys have a list, no
   list is empty, and a key's list is what the history leaves for it: the user beans
   in order, or the defaults in order when there are no user beans.
   */
  lemma {:induction false} StoreIsSurvivors(h: seq<Bean>)
    ensures forall t :: t in FileAll(map[], h) <==> Registered(h, t)
    ensures forall t :: t in FileAll(map[], h) ==>
                          FileAll(map[], h)[t] == Survivors(h, t) && Survivors(h, t) != []
  {
    if h != [] {
      var front, b := h[..|h| - 1], h[|h| - 1];
      StoreIsSurvivors(front);
      var m := FileAll(map[], front);
      forall t
        ensures t in FileAll(map[], h) <==> Registered(h, t)
        ensures t in FileAll(map[], h) ==> FileAll(map[], h)[t] == Survivors(h, t) && Survivors(h, t) != []
      {
        if t == b.entry.typeId {
          assert h[|h| - 1].entry.typeId == t;
          FiledSurvivors(front, b, ListAt(m, t));
        } else {
          if Registered(h, t) {
            var i :| 0 <= i < |h| && h[i].entry.typeId == t;
            assert front[i].entry.typeId == t;
          }
          if Registered(front, t) {
            var i :| 0 <= i < |front| && front[i].entry.typeId == t;
            assert h[i].entry.typeId == t;
          }
        }
      }
    }
  }

  lemma FiledSurvivors(front: seq<Bean>, b: Bean, list: seq<Bean>)
    requires Registered(front, b.entry.typeId) ==> list == Survivors(front, b.entry.typeId)
    requires !Registered(front, b.entry.typeId) ==> list == []
    ensures Filed(list, b) == Survivors(front + [b], b.entry.typeId) != []
  {
    var t := b.entry.typeId;
    assert (front + [b])[..|front|] == front;
    KeptMembers(front, t, false);
    KeptMembers(front, t, true);
    assert list == Survivors(front, t);
    if Kept(front, t, false) != [] {
      DropDefaultsOfUsers(list);
      assert list[0] in list;
    } else {
      DropDefaultsOfDefaults(list);
    }
  }

  // ---- Lookup ----------------------------------------------------------------

  /** The two ways a lookup narrows a key's list: by the primary mark or by qualifier. */
  datatype Selector = ByPrimary | ByQualifier(name: string)

  predicate Matches(b: Bean, sel: Selector) {
    match sel
    case ByPrimary => b.entry.primary
    case ByQualifier(q) => b.entry.qualifier == Some(q)
  }

  /** `list.iter().filter(..)`: the matching beans, in order. */
  function Matching(list: seq<Bean>, sel: Selector): seq<Bean> {
    if list == [] then []
    else if Matches(list[0], sel) then [list[0]] + Matching(list[1..], sel)
    else Matching(list[1..], sel)
  }

  /** `i` is the only index of `list` that matches. */
  predicate OnlyMatch(list: seq<Bean>, sel: Selector, i: nat) {
    i < |list| && Matches(list[i], sel) &&
    forall j :: 0 <= j < |list| && Matches(list[j], sel) ==> j == i
  }

  lemma {:induction false} MatchingCount(list: seq<Bean>, sel: Selector)
    ensures Matching(list, sel) == [] <==> forall j :: 0 <= j < |list| ==> !Matches(list[j], sel)
    ensures |Matching(list, sel)| == 1 <==> exists i: nat :: OnlyMatch(list, sel, i)
    ensures forall i: nat :: OnlyMatch(list, sel, i) ==> Matching(list, sel) == [list[i]]
  {
    if list != [] {
      var rest := list[1..];
      MatchingCount(rest, sel);
      forall j | 0 <= j < |rest| ensures rest[j] == list[j + 1] {}
      if Matches(list[0], sel) {
        if Matching(rest, sel) == [] { assert OnlyMatch(list, sel, 0); }
      } else if |Matching(rest, sel)| == 1 {
        var i: nat :| OnlyMatch(rest, sel, i);
        assert OnlyMatch(list, sel, i + 1);
      }
      forall i: nat | OnlyMatch(list, sel, i) ensures Matching(list, sel) == [list[i]] {
        if i > 0 { assert OnlyMatch(rest, sel, i - 1); }
      }
    }
  }
}
