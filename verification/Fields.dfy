/**
 The store behind request headers and query parameters
 (crates/kernway-core/src/fields.rs:35-186): shared text, and for each pair the two ranges
 of it that hold the name and the value. It refines an association list whose
 lookups give the last match.
 */
module Fields {
  import opened Common
  import opened Text

  datatype Pair = Pair(name: Bytes, value: Bytes)

  /** The 4 GiB bound on the accumulated text. */
  const MAX_TEXT: nat := 0x1_0000_0000

  // ---- The association list --------------------------------------------------

  /** The form a name is stored and matched in: headers ignore case (section 5.1 of RFC 9110). */
  function Key(ignoreCase: bool, name: Bytes): Bytes {
    if ignoreCase then LowerAll(name) else name
  }

  predicate NameMatches(ignoreCase: bool, stored: Bytes, name: Bytes) {
    if ignoreCase then SameIgnoringCase(stored, name) else stored == name
  }

  function Without(ignoreCase: bool, list: seq<Pair>, name: Bytes): seq<Pair> {
    if list == [] then []
    else
      var front, last := Without(ignoreCase, list[..|list| - 1], name), list[|list| - 1];
      if NameMatches(ignoreCase, last.name, name) then front else front + [last]
  }

  /** The value of the last pair with that name. */
  function Lookup(ignoreCase: bool, list: seq<Pair>, name: Bytes): Option<Bytes> {
    if list == [] then None
    else if NameMatches(ignoreCase, list[|list| - 1].name, name) then Some(list[|list| - 1].value)
    else Lookup(ignoreCase, list[..|list| - 1], name)
  }

  datatype Op = Insert(name: Bytes, value: Bytes) | Append(name: Bytes, value: Bytes)

  function Apply(ignoreCase: bool, list: seq<Pair>, op: Op): seq<Pair> {
    (if op.Insert? then Without(ignoreCase, list, op.name) else list) + [Pair(Key(ignoreCase, op.name), op.value)]
  }

  function ApplyAll(ignoreCase: bool, ops: seq<Op>): seq<Pair> {
    if ops == [] then [] else Apply(ignoreCase, ApplyAll(ignoreCase, ops[..|ops| - 1]), ops[|ops| - 1])
  }

  // ---- What the list promises ------------------------------------------------

  lemma KeyMatches(ignoreCase: bool, name: Bytes, other: Bytes)
    ensures NameMatches(ignoreCase, Key(ignoreCase, name), other) <==> Key(ignoreCase, name) == Key(ignoreCase, other)
  {
    if ignoreCase { assert LowerAll(LowerAll(name)) == LowerAll(name); }
  }

  lemma {:induction false} LookupWithout(ignoreCase: bool, list: seq<Pair>, name: Bytes, other: Bytes)
    ensures Key(ignoreCase, name) == Key(ignoreCase, other) ==>
      Lookup(ignoreCase, Without(ignoreCase, list, name), other) == None
    ensures Key(ignoreCase, name) != Key(ignoreCase, other) ==>
      Lookup(ignoreCase, Without(ignoreCase, list, name), other) == Lookup(ignoreCase, list, other)
  {
    if list != [] {
      var front, last := list[..|list| - 1], list[|list| - 1];
      LookupWithout(ignoreCase, front, name, other);
      var kept := Without(ignoreCase, front, name);
      assert (kept + [last])[..|kept|] == kept;
    }
  }

  /** After `insert` exactly one pair has that name, and every other lookup is as before. */
  lemma InsertReplaces(ignoreCase: bool, list: seq<Pair>, name: Bytes, value: Bytes, other: Bytes)
    ensures var list' := Apply(ignoreCase, list, Insert(name, value));
            && (forall i :: 0 <= i < |list'| && NameMatches(ignoreCase, list'[i].name, name) ==> i == |list'| - 1)
            && NameMatches(ignoreCase, list'[|list'| - 1].name, name)
            && Lookup(ignoreCase, list', other) ==
               if Key(ignoreCase, name) == Key(ignoreCase, other) then Some(value) else Lookup(ignoreCase, list, other)
  {
    WithoutNone(ignoreCase, list, name);
    KeyMatches(ignoreCase, name, name);
    AppendLookup(ignoreCase, Without(ignoreCase, list, name), name, value, other);
    LookupWithout(ignoreCase, list, name, other);
  }

  lemma {:induction false} WithoutNone(ignoreCase: bool, list: seq<Pair>, name: Bytes)
    ensures forall p :: p in Without(ignoreCase, list, name) ==> p in list && !NameMatches(ignoreCase, p.name, name)
  {
    if list != [] { WithoutNone(ignoreCase, list[..|list| - 1], name); }
  }

  lemma AppendLookup(ignoreCase: bool, list: seq<Pair>, name: Bytes, value: Bytes, other: Bytes)
    ensures Lookup(ignoreCase, list + [Pair(Key(ignoreCase, name), value)], other) ==
            if Key(ignoreCase, name) == Key(ignoreCase, other) then Some(value) else Lookup(ignoreCase, list, other)
  {
    var list' := list + [Pair(Key(ignoreCase, name), value)];
    assert list'[..|list'| - 1] == list;
    KeyMatches(ignoreCase, name, other);
  }

  /** A map filled in the same order. */
  function Filled(ignoreCase: bool, ops: seq<Op>): map<Bytes, Bytes> {
    if ops == [] then map[]
    else
      var op := ops[|ops| - 1];
      Filled(ignoreCase, ops[..|ops| - 1])[Key(ignoreCase, op.name) := op.value]
  }

  /** Lookups agree with a map filled in the same order, whatever mix of `insert` and `append`. */
  lemma {:induction false} LookupIsMap(ignoreCase: bool, ops: seq<Op>, name: Bytes)
    ensures var m := Filled(ignoreCase, ops);
            Lookup(ignoreCase, ApplyAll(ignoreCase, ops), name) ==
            if Key(ignoreCase, name) in m then Some(m[Key(ignoreCase, name)]) else None
  {
    if ops != [] {
      var front, op := ops[..|ops| - 1], ops[|ops| - 1];
      var list := ApplyAll(ignoreCase, front);
      LookupIsMap(ignoreCase, front, name);
      if op.Insert? {
        InsertReplaces(ignoreCase, list, op.name, op.value, name);
      } else {
        AppendLookup(ignoreCase, list, op.name, op.value, name);
      }
    }
  }

  // ---- The one-buffer store --------------------------------------------------

  /** A pair as ranges: the name is `start..mid`, the value `mid..end`. */
  datatype Entry = Entry(start: nat, mid: nat, end: nat)

  predicate InBounds(e: Entry, n: nat) {
    e.start <= e.mid <= e.end <= n
  }

  function PairAt(buf: Bytes, e: Entry): Pair
    requires InBounds(e, |buf|)
  {
    Pair(buf[e.start..e.mid], buf[e.mid..e.end])
  }

  function PairsAt(buf: Bytes, entries: seq<Entry>): (pairs: seq<Pair>)
    requires forall i :: 0 <= i < |entries| ==> InBounds(entries[i], |buf|)
    ensures |pairs| == |entries| && forall i :: 0 <= i < |pairs| ==> pairs[i] == PairAt(buf, entries[i])
  {
    seq(|entries|, i requires 0 <= i < |entries| => PairAt(buf, entries[i]))
  }

  /** Growing the buffer at its end leaves every pair's text alone. */
  lemma GrowthKeepsPairs(buf: Bytes, more: Bytes, entries: seq<Entry>)
    requires forall i :: 0 <= i < |entries| ==> InBounds(entries[i], |buf|)
    ensures forall i :: 0 <= i < |entries| ==> InBounds(entries[i], |buf + more|)
    ensures PairsAt(buf + more, entries) == PairsAt(buf, entries)
  {
    forall i | 0 <= i < |entries| ensures PairAt(buf + more, entries[i]) == PairAt(buf, entries[i]) {
      var e := entries[i];
      assert (buf + more)[e.start..e.mid] == buf[e.start..e.mid] && (buf + more)[e.mid..e.end] == buf[e.mid..e.end];
    }
  }

  /** Filtering one more range out, or keeping it. */
  lemma WithoutStep(ignoreCase: bool, buf: Bytes, entries: seq<Entry>, i: nat, kept: seq<Entry>, name: Bytes)
    requires i < |entries| && forall j :: 0 <= j < |entries| ==> InBounds(entries[j], |buf|)
    requires forall j :: 0 <= j < |kept| ==> InBounds(kept[j], |buf|)
    requires PairsAt(buf, kept) == Without(ignoreCase, PairsAt(buf, entries[..i]), name)
    ensures var e := entries[i];
            var kept' := if NameMatches(ignoreCase, PairAt(buf, e).name, name) then kept else kept + [e];
            && (forall j :: 0 <= j < |kept'| ==> InBounds(kept'[j], |buf|))
            && PairsAt(buf, kept') == Without(ignoreCase, PairsAt(buf, entries[..i + 1]), name)
  {
    var pairs, e := PairsAt(buf, entries[..i + 1]), entries[i];
    assert pairs[..i] == PairsAt(buf, entries[..i]) && pairs[i] == PairAt(buf, e);
    assert PairsAt(buf, kept + [e]) == PairsAt(buf, kept) + [PairAt(buf, e)];
  }

  class FieldSet {
    const ignoreCase: bool
    var buf: Bytes
    var entries: seq<Entry>

    ghost predicate Valid()
      reads this
    {
      |buf| < MAX_TEXT && forall i :: 0 <= i < |entries| ==> InBounds(entries[i], |buf|)
    }

    /** Every pair, in order. */
    function Pairs(): seq<Pair>
      requires Valid()
      reads this
    {
      PairsAt(buf, entries)
    }

    constructor (ignoreCase: bool)
      ensures this.ignoreCase == ignoreCase && Valid() && Pairs() == [] && buf == []
    {
      this.ignoreCase := ignoreCase;
      buf, entries := [], [];
    }

    method Push(name: Bytes, value: Bytes)
      requires Valid() && |buf| + |name| + |value| < MAX_TEXT
      modifies this
      ensures Valid() && Pairs() == old(Pairs()) + [Pair(Key(ignoreCase, name), value)]
      ensures |buf| == old(|buf|) + |name| + |value|
    {
      var nameStart := |buf|;
      var stored := Key(ignoreCase, name);
      GrowthKeepsPairs(buf, stored + value, entries);
      assert buf + (stored + value) == buf + stored + value;
      buf := buf + stored;
      var nameEnd := |buf|;
      buf := buf + value;
      var valueEnd := |buf|;
      var e := Entry(nameStart, nameEnd, valueEnd);
      assert buf[nameStart..nameEnd] == stored && buf[nameEnd..valueEnd] == value;
      entries := entries + [e];
    }

    method AppendPair(name: Bytes, value: Bytes)
      requires Valid() && |buf| + |name| + |value| < MAX_TEXT
      modifies this
      ensures Valid() && Pairs() == Apply(ignoreCase, old(Pairs()), Append(name, value))
      ensures |buf| == old(|buf|) + |name| + |value|
    {
      Push(name, value);
    }

    method InsertPair(name: Bytes, value: Bytes)
      requires Valid() && |buf| + |name| + |value| < MAX_TEXT
      modifies this
      ensures Valid() && Pairs() == Apply(ignoreCase, old(Pairs()), Insert(name, value))
      ensures |buf| == old(|buf|) + |name| + |value|
    {
      var kept: seq<Entry> := [];
      for i := 0 to |entries|
        invariant buf == old(buf) && entries == old(entries)
        invariant forall j :: 0 <= j < |kept| ==> InBounds(kept[j], |buf|)
        invariant PairsAt(buf, kept) == Without(ignoreCase, PairsAt(buf, entries[..i]), name)
      {
        WithoutStep(ignoreCase, buf, entries, i, kept, name);
        if !NameMatches(ignoreCase, buf[entries[i].start..entries[i].mid], name) {
          kept := kept + [entries[i]];
        }
      }
      assert entries[..|entries|] == entries;
      entries := kept;
      Push(name, value);
    }

    /** Scans from the end, so the last pair of a name wins. */
    method Get(name: Bytes) returns (r: Option<Bytes>)
      requires Valid()
      ensures r == Lookup(ignoreCase, Pairs(), name)
    {
      var i := |entries|;
      assert PairsAt(buf, entries)[..i] == PairsAt(buf, entries);
      while i > 0
        invariant 0 <= i <= |entries|
        invariant Lookup(ignoreCase, Pairs()[..i], name) == Lookup(ignoreCase, Pairs(), name)
      {
        i := i - 1;
        assert Pairs()[..i + 1][..i] == Pairs()[..i];
        var e := entries[i];
        if NameMatches(ignoreCase, buf[e.start..e.mid], name) {
          return Some(buf[e.mid..e.end]);
        }
      }
      return None;
    }
  }
}
