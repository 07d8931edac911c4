/**
 Chunked transfer coding in the HTTP client (crates/kernway-http-client/src/lib.rs,
 section 7.1 of RFC 9112): the incremental `ChunkDecoder` and the whole-buffer
 `decode_chunked`.

 `PullFrom` is the decoder as a function of its state and of the bytes at hand. The main
 result is that cutting the input anywhere does not matter (`PullSplit`, `FeedIsPull`);
 the whole-buffer decoder is then tied to one pull over everything.
 */
module Chunked {
  import opened Common
  import opened Text

  /** The size on a chunk-size line, extensions ignored. */
  function ParseSize(line: Bytes): Option<nat> {
    if Utf8(line) then ParseUnsigned(Trim(Before(line, SEMICOLON)), 16, USIZE_MAX) else None
  }

  /** What reads the number on a size line; the source's is `ParseSize`. */
  type SizeReader = Bytes -> Option<nat>

  datatype ChunkState = Size | Data(rem: nat) | DataCrlf | Trailer | Done

  /** What one pull leaves: the state, the decoded bytes, and the bytes not yet consumed. */
  datatype Pulled = Pulled(state: ChunkState, out: Bytes, rest: Bytes) | Malformed

  function Prepend(out: Bytes, p: Pulled): Pulled {
    match p
    case Pulled(s, o, r) => Pulled(s, out + o, r)
    case Malformed => Malformed
  }

  function Min(a: nat, b: nat): nat {
    if a <= b then a else b
  }

  /** One turn of the decoder's loop: nothing to do yet, a bad size line, or `used` bytes consumed. */
  datatype Turn = Wait | Bad | Go(next: ChunkState, out: Bytes, used: nat)

  function Rank(s: ChunkState): nat {
    match s
    case Data(_) => 2
    case Done => 0
    case _ => 1
  }

  function TurnOf(size: SizeReader, s: ChunkState, buf: Bytes): (t: Turn)
    ensures t.Go? ==> t.used <= |buf| && (t.used > 0 || Rank(t.next) < Rank(s))
  {
    match s
    case Done => Wait
    case Size =>
      (match Find(buf, CRLF)
       case None => Wait
       case Some(i) =>
         match size(buf[..i])
         case None => Bad
         case Some(n) => Go(if n == 0 then Trailer else Data(n), [], i + 2))
    case Data(rem) =>
      if buf == [] then Wait
      else
        var take := Min(rem, |buf|);
        Go(if take == rem then DataCrlf else Data(rem - take), buf[..take], take)
    case DataCrlf => if |buf| < 2 then Wait else Go(Size, [], 2)
    case Trailer =>
      match Find(buf, CRLF)
      case None => Wait
      case Some(i) => Go(Done, [], i + 2)
  }

  /** All the turns a pull over `buf` takes. */
  function PullFrom(size: SizeReader, s: ChunkState, buf: Bytes): Pulled
    decreases |buf|, Rank(s)
  {
    match TurnOf(size, s, buf)
    case Wait => Pulled(s, [], buf)
    case Bad => Malformed
    case Go(next, out, used) => Prepend(out, PullFrom(size, next, buf[used..]))
  }

  lemma PrependNothing(p: Pulled)
    ensures Prepend([], p) == p
  {
    if p.Pulled? { assert [] + p.out == p.out; }
  }

  lemma PrependTwice(a: Bytes, b: Bytes, p: Pulled)
    ensures Prepend(a, Prepend(b, p)) == Prepend(a + b, p)
  {
    if p.Pulled? { assert a + (b + p.out) == a + b + p.out; }
  }

  /** A turn taken in the middle of a pull. */
  lemma Advance(size: SizeReader, decoded: Bytes, s: ChunkState, buf: Bytes)
    requires TurnOf(size, s, buf).Go?
    ensures var t := TurnOf(size, s, buf);
            Prepend(decoded, PullFrom(size, s, buf)) == Prepend(decoded + t.out, PullFrom(size, t.next, buf[t.used..]))
  {
    var t := TurnOf(size, s, buf);
    PrependTwice(decoded, t.out, PullFrom(size, t.next, buf[t.used..]));
  }

  /** What a pull ends with when `out` is decoded so far and `buf` is consumed up to `pos`. */
  ghost function PullAt(size: SizeReader, out: Bytes, s: ChunkState, buf: Bytes, pos: nat): Pulled
    requires pos <= |buf|
  {
    Prepend(out, PullFrom(size, s, buf[pos..]))
  }

  lemma AdvanceAt(size: SizeReader, out: Bytes, s: ChunkState, buf: Bytes, pos: nat, out': Bytes, s': ChunkState,
                  pos': nat)
    requires pos <= |buf| && TurnOf(size, s, buf[pos..]).Go?
    requires var t := TurnOf(size, s, buf[pos..]); out' == out + t.out && s' == t.next && pos' == pos + t.used
    ensures PullAt(size, out', s', buf, pos') == PullAt(size, out, s, buf, pos)
  {
    Advance(size, out, s, buf[pos..]);
    assert buf[pos'..] == buf[pos..][pos' - pos..];
  }

  // ---- Cutting the input anywhere --------------------------------------------

  /** Goes on with `more` after a pull. */
  function Then(size: SizeReader, p: Pulled, more: Bytes): Pulled {
    match p
    case Malformed => Malformed
    case Pulled(s, o, r) => Prepend(o, PullFrom(size, s, r + more))
  }

  lemma ThenPrepend(size: SizeReader, out: Bytes, p: Pulled, more: Bytes)
    ensures Then(size, Prepend(out, p), more) == Prepend(out, Then(size, p, more))
  {
    if p.Pulled? {
      PrependTwice(out, p.out, PullFrom(size, p.state, p.rest + more));
    }
  }

  /** A turn that does not stop inside chunk data is the same turn with more bytes behind it. */
  lemma TurnExtends(size: SizeReader, s: ChunkState, a: Bytes, b: Bytes)
    requires s.Data? ==> s.rem <= |a|
    requires TurnOf(size, s, a) != Wait
    ensures TurnOf(size, s, a + b) == TurnOf(size, s, a)
  {
    if (s.Size? || s.Trailer?) {
      var i := Find(a, CRLF).value;
      FindExtends(a, b, CRLF);
      assert (a + b)[..i] == a[..i];
    } else if s.Data? {
      assert (a + b)[..s.rem] == a[..s.rem];
    }
  }

  /** One pull over `a + b` is a pull over `a` carried on with `b`, errors included. */
  lemma {:induction false} PullSplit(size: SizeReader, s: ChunkState, a: Bytes, b: Bytes)
    ensures PullFrom(size, s, a + b) == Then(size, PullFrom(size, s, a), b)
    decreases |a|, Rank(s)
  {
    var t := TurnOf(size, s, a);
    if t == Wait {
      PrependNothing(PullFrom(size, s, a + b));
    } else if s.Data? && |a| < s.rem {
      DataTakes(size, s.rem, a, b);
    } else {
      TurnExtends(size, s, a, b);
      if t.Go? {
        assert (a + b)[t.used..] == a[t.used..] + b;
        PullSplit(size, t.next, a[t.used..], b);
        ThenPrepend(size, t.out, PullFrom(size, t.next, a[t.used..]), b);
      }
    }
  }

  /** Chunk data that stops short of its chunk is passed on whole. */
  lemma DataTakes(size: SizeReader, rem: nat, a: Bytes, b: Bytes)
    requires a != [] && |a| < rem
    ensures PullFrom(size, Data(rem), a + b) == Then(size, PullFrom(size, Data(rem), a), b)
  {
    assert a[..|a|] == a && a[|a|..] == [];
    assert TurnOf(size, Data(rem), a) == Go(Data(rem - |a|), a, |a|);
    assert PullFrom(size, Data(rem - |a|), []) == Pulled(Data(rem - |a|), [], []);
    assert PullFrom(size, Data(rem), a) == Pulled(Data(rem - |a|), a, []) by { assert a + [] == a; }
    assert [] + b == b;
    if b == [] {
      assert a + b == a && a + [] == a;
    } else {
      var t, u := TurnOf(size, Data(rem), a + b), TurnOf(size, Data(rem - |a|), b);
      assert t.out == a + u.out && t.next == u.next && (a + b)[t.used..] == b[u.used..];
      PrependTwice(a, u.out, PullFrom(size, u.next, b[u.used..]));
    }
  }

  /** What a pull leaves is the end of what it was given. */
  lemma {:induction false} RestIsEnd(size: SizeReader, s: ChunkState, buf: Bytes)
    requires PullFrom(size, s, buf).Pulled?
    ensures var rest := PullFrom(size, s, buf).rest; |rest| <= |buf| && rest == buf[|buf| - |rest|..]
    decreases |buf|, Rank(s)
  {
    var t := TurnOf(size, s, buf);
    if t.Go? {
      RestIsEnd(size, t.next, buf[t.used..]);
      EndOfEnd(buf, t.used, PullFrom(size, t.next, buf[t.used..]).rest);
    }
  }

  lemma EndOfEnd(buf: Bytes, used: nat, rest: Bytes)
    requires used <= |buf| && |rest| <= |buf| - used && rest == buf[used..][|buf| - used - |rest|..]
    ensures rest == buf[|buf| - |rest|..]
  {
  }

  /** Feeds the pieces one by one, carrying the unconsumed tail over. */
  function Feed(size: SizeReader, s: ChunkState, carry: Bytes, pieces: seq<Bytes>): Pulled
    decreases |pieces|
  {
    if pieces == [] then Pulled(s, [], carry)
    else
      match PullFrom(size, s, carry + pieces[0])
      case Malformed => Malformed
      case Pulled(s', o, r) => Prepend(o, Feed(size, s', r, pieces[1..]))
  }

  /** Feeding pieces gives the output, state, tail and error of one pull over their concatenation. */
  lemma {:induction false} FeedIsPull(size: SizeReader, s: ChunkState, carry: Bytes, pieces: seq<Bytes>)
    requires pieces != []
    ensures Feed(size, s, carry, pieces) == PullFrom(size, s, carry + Concat(pieces))
    decreases |pieces|
  {
    var first, rest := pieces[0], Concat(pieces[1..]);
    assert carry + Concat(pieces) == (carry + first) + rest;
    PullSplit(size, s, carry + first, rest);
    var p := PullFrom(size, s, carry + first);
    if p.Pulled? {
      if |pieces| == 1 {
        assert rest == [] && p.rest + [] == p.rest;
        PullSplit(size, s, carry + first, []);
        assert (carry + first) + [] == carry + first;
        assert p.out + [] == p.out;
      } else {
        FeedIsPull(size, p.state, p.rest, pieces[1..]);
      }
    }
  }

  // ---- The decoder as the source runs it -------------------------------------

  class ChunkDecoder {
    const size: SizeReader
    var state: ChunkState

    constructor (size: SizeReader)
      ensures state == Size && this.size == size
    {
      this.size, state := size, Size;
    }

    /** One pull: turn after turn until one must wait. An error leaves the buffer alone. */
    method Pull(buf: Bytes, out: Bytes) returns (ok: bool, buf': Bytes, out': Bytes)
      modifies this
      ensures ok <==> PullFrom(size, old(state), buf).Pulled?
      ensures ok ==> Pulled(state, out', buf') == Prepend(out, PullFrom(size, old(state), buf))
      ensures !ok ==> buf' == buf && state == Size && out <= out'
    {
      var pos := 0;
      out' := out;
      assert buf[0..] == buf;
      while true
        invariant 0 <= pos <= |buf| && out <= out'
        invariant PullAt(size, out', state, buf, pos) == PullAt(size, out, old(state), buf, 0)
        decreases |buf| - pos, Rank(state)
      {
        var t := TakeTurn(buf, pos);
        if t.Bad? { return false, buf, out'; }
        if t.Wait? { break; }
        AdvanceAt(size, out', state, buf, pos, out' + t.out, t.next, pos + t.used);
        out', pos, state := out' + t.out, pos + t.used, t.next;
      }
      assert out' + [] == out';
      return true, buf[pos..], out';
    }

    /** What the state calls for next at `pos`. */
    method TakeTurn(buf: Bytes, pos: nat) returns (t: Turn)
      requires pos <= |buf|
      ensures t == TurnOf(size, state, buf[pos..]) && (t.Bad? ==> state == Size)
    {
      var tail := buf[pos..];
      match state {
        case Done => return Wait;
        case Size =>
          var i := Find(tail, CRLF);
          if i.None? { return Wait; }
          assert tail[..i.value] == buf[pos..pos + i.value];
          var n := size(buf[pos..pos + i.value]);
          if n.None? { return Bad; }
          return Go(if n.value == 0 then Trailer else Data(n.value), [], i.value + 2);
        case Data(rem) =>
          if pos == |buf| { return Wait; }
          var take := Min(rem, |buf| - pos);
          assert tail[..take] == buf[pos..pos + take];
          return Go(if take == rem then DataCrlf else Data(rem - take), buf[pos..pos + take], take);
        case DataCrlf => return if |buf| - pos < 2 then Wait else Go(Size, [], 2);
        case Trailer =>
          var i := Find(tail, CRLF);
          return if i.None? then Wait else Go(Done, [], i.value + 2);
      }
    }
  }

  // ---- The whole-buffer decoder ----------------------------------------------

  /** The decoded bytes, once the zero-size chunk is behind. */
  function Finished(p: Pulled): Option<Bytes> {
    match p
    case Malformed => None
    case Pulled(s, o, _) => if s.Trailer? || s.Done? then Some(o) else None
  }

  /** The body in `bytes`, if one pull over all of it gets past the last chunk. */
  function Body(size: SizeReader, bytes: Bytes): Option<Bytes> {
    Finished(PullFrom(size, Size, bytes))
  }

  /** What a chunk-size line at `pos` says: the size, and where the data begins. */
  function SizeAt(size: SizeReader, bytes: Bytes, pos: nat): Option<(nat, nat)>
    requires pos <= |bytes|
  {
    match Find(bytes[pos..], CRLF)
    case None => None
    case Some(i) =>
      match size(bytes[pos..pos + i])
      case None => None
      case Some(n) => Some((n, pos + i + 2))
  }

  /** From `pos`, with `out` decoded, `answer` is what one more chunk makes of it. */
  ghost predicate Decides(size: SizeReader, bytes: Bytes, answer: (Bytes, nat) -> Option<Bytes>, out: Bytes, pos: nat) {
    pos <= |bytes| ==>
      match SizeAt(size, bytes, pos)
      case None => answer(out, pos).None?
      case Some((n, data)) =>
        if n == 0 then answer(out, pos) == Some(out)
        else if data + n + 2 > |bytes| then answer(out, pos).None?
        else answer(out, pos) == answer(out + bytes[data..data + n], data + n + 2)
  }

  /** The body of one pull over everything, from wherever its loop has got to. */
  lemma AnswerOf(size: SizeReader, bytes: Bytes) returns (answer: (Bytes, nat) -> Option<Bytes>)
    ensures answer([], 0) == Body(size, bytes)
    ensures forall out, pos :: Decides(size, bytes, answer, out, pos)
  {
    answer := (out, pos: nat) => if pos <= |bytes| then Finished(PullAt(size, out, Size, bytes, pos)) else None;
    assert bytes[0..] == bytes;
    PrependNothing(PullFrom(size, Size, bytes));
    forall out, pos: nat ensures Decides(size, bytes, answer, out, pos) {
      if pos <= |bytes| { SizeDecides(size, bytes, out, pos); }
    }
  }

  /** The whole-buffer decoder succeeds exactly when one pull gets past the last chunk, with the same bytes. */
  method DecodeChunked(size: SizeReader, bytes: Bytes) returns (r: Option<Bytes>)
    ensures r == Body(size, bytes)
  {
    var out: Bytes, pos := [], 0;
    ghost var answer := AnswerOf(size, bytes);
    while true
      invariant 0 <= pos <= |bytes| && answer(out, pos) == answer([], 0)
      decreases |bytes| - pos
    {
      assert Decides(size, bytes, answer, out, pos);
      var at := SizeAt(size, bytes, pos);
      if at.None? { return None; }
      var (n, data) := at.value;
      if n == 0 { return Some(out); }
      var end := data + n;
      if end + 2 > |bytes| { return None; }
      out := out + bytes[data..end];
      pos := end + 2;
    }
    assert false;
  }

  /** A size line in the middle of a pull. */
  lemma SizeDecides(size: SizeReader, bytes: Bytes, out: Bytes, pos: nat)
    requires pos <= |bytes|
    ensures var p := Finished(PullAt(size, out, Size, bytes, pos));
            match SizeAt(size, bytes, pos)
            case None => p.None?
            case Some((n, data)) =>
              && pos < data <= |bytes|
              && if n == 0 then p == Some(out)
                 else if data + n + 2 > |bytes| then p.None?
                 else p == Finished(PullAt(size, out + bytes[data..data + n], Size, bytes, data + n + 2))
  {
    var at := SizeAt(size, bytes, pos);
    if at.Some? {
      var (n, data) := at.value;
      SizeGoes(size, out, bytes, pos, data, n);
      if n == 0 { PastLastChunk(size, out, Trailer, bytes[data..]); } else { DataDecides(size, bytes, out, data, n); }
    } else {
      SizeStalls(size, out, bytes, pos);
    }
  }

  lemma DataDecides(size: SizeReader, bytes: Bytes, out: Bytes, data: nat, n: nat)
    requires n > 0 && data <= |bytes|
    ensures Finished(PullAt(size, out, Data(n), bytes, data)) ==
            if data + n + 2 > |bytes| then None
            else Finished(PullAt(size, out + bytes[data..data + n], Size, bytes, data + n + 2))
  {
    if data + n + 2 > |bytes| {
      CutChunk(size, out, n, bytes, data);
    } else {
      WholeChunk(size, out, n, bytes, data, data + n);
    }
  }

  lemma SizeStalls(size: SizeReader, out: Bytes, bytes: Bytes, pos: nat)
    requires pos <= |bytes| && SizeAt(size, bytes, pos).None?
    ensures Finished(PullAt(size, out, Size, bytes, pos)).None?
  {
    var tail := bytes[pos..];
    var i := Find(tail, CRLF);
    if i.Some? { assert tail[..i.value] == bytes[pos..pos + i.value]; }
    assert !TurnOf(size, Size, tail).Go?;
  }

  lemma SizeGoes(size: SizeReader, out: Bytes, bytes: Bytes, pos: nat, data: nat, n: nat)
    requires pos <= |bytes| && SizeAt(size, bytes, pos) == Some((n, data))
    ensures pos < data <= |bytes|
    ensures PullAt(size, out, Size, bytes, pos) == PullAt(size, out, if n == 0 then Trailer else Data(n), bytes, data)
  {
    var tail := bytes[pos..];
    var i := Find(tail, CRLF).value;
    assert tail[..i] == bytes[pos..pos + i] && out + [] == out;
    AdvanceAt(size, out, Size, bytes, pos, out, if n == 0 then Trailer else Data(n), data);
  }

  /** Taking what is there of a chunk. */
  lemma ChunkData(size: SizeReader, out: Bytes, n: nat, bytes: Bytes, pos: nat, to: nat)
    requires n > 0 && pos < |bytes| && to == Min(pos + n, |bytes|)
    ensures PullAt(size, out, Data(n), bytes, pos) ==
            PullAt(size, out + bytes[pos..to], if to - pos < n then Data(n - (to - pos)) else DataCrlf, bytes, to)
  {
    assert bytes[pos..][..to - pos] == bytes[pos..to];
    var next := if to - pos < n then Data(n - (to - pos)) else DataCrlf;
    AdvanceAt(size, out, Data(n), bytes, pos, out + bytes[pos..to], next, to);
  }

  /** A chunk and its CRLF, present in full. */
  lemma WholeChunk(size: SizeReader, out: Bytes, n: nat, bytes: Bytes, pos: nat, end: nat)
    requires n > 0 && end == pos + n && end + 2 <= |bytes|
    ensures PullAt(size, out, Data(n), bytes, pos) == PullAt(size, out + bytes[pos..end], Size, bytes, end + 2)
  {
    var out' := out + bytes[pos..end];
    ChunkData(size, out, n, bytes, pos, end);
    assert out' + [] == out';
    AdvanceAt(size, out', DataCrlf, bytes, end, out', Size, end + 2);
  }

  /** A chunk, or its CRLF, that is not all there. */
  lemma CutChunk(size: SizeReader, out: Bytes, n: nat, bytes: Bytes, pos: nat)
    requires n > 0 && pos <= |bytes| < pos + n + 2
    ensures Finished(PullAt(size, out, Data(n), bytes, pos)).None?
  {
    if pos < |bytes| { ChunkData(size, out, n, bytes, pos, Min(pos + n, |bytes|)); }
  }

  /** Past the last chunk nothing more is decoded. */
  lemma PastLastChunk(size: SizeReader, out: Bytes, s: ChunkState, buf: Bytes)
    requires s.Trailer? || s.Done?
    ensures Finished(Prepend(out, PullFrom(size, s, buf))) == Some(out)
  {
    assert out + [] == out;
    if TurnOf(size, s, buf).Go? {
      Advance(size, out, s, buf);
    }
  }

  /** A decoded body does not change when more bytes arrive. */
  lemma BodySurvivesExtension(size: SizeReader, bytes: Bytes, more: Bytes)
    requires Body(size, bytes).Some?
    ensures Body(size, bytes + more) == Body(size, bytes)
  {
    PullSplit(size, Size, bytes, more);
    var p := PullFrom(size, Size, bytes);
    PastLastChunk(size, p.out, p.state, p.rest + more);
  }
}
