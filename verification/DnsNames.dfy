/**
 Names on the wire in the DNS codec (crates/kernway-dns/src/message.rs:104-225; sections
 2.3.4, 3.1 and 4.1.4 of RFC 1035): labels, the root, and compression pointers.

 A `Layout` says how a name is spelled in a buffer. `LaidOut` is the meaning of that
 spelling; the reader is shown to succeed exactly on the layouts within its limits.
 */
module DnsNames {
  import opened Common
  import opened Text

  datatype DnsError = Truncated | NameTooLong | MalformedName

  const DOT: byte := 46
  const MAX_LABEL: nat := 63
  const MAX_NAME: nat := 255
  const MAX_JUMPS: nat := 32

  function Word(hi: nat, lo: nat): nat {
    hi * 256 + lo
  }

  /** The 14-bit offset in the two bytes of a compression pointer. */
  function Target(hi: nat, lo: nat): nat
    requires hi >= 0xC0
  {
    Word(hi - 0xC0, lo)
  }

  // ---- Layouts ---------------------------------------------------------------

  datatype Layout = Root | Label(text: Bytes, rest: Layout) | Pointer(target: nat, rest: Layout)

  /** The buffer spells the layout from `pos` on. A pointer leads strictly back. */
  predicate LaidOut(buf: Bytes, pos: nat, l: Layout)
    decreases l
  {
    match l
    case Root => pos < |buf| && buf[pos] == 0
    case Label(text, rest) =>
      && 1 <= |text| <= MAX_LABEL && pos + 1 + |text| <= |buf| && buf[pos] == |text|
      && buf[pos + 1..pos + 1 + |text|] == text && LaidOut(buf, pos + 1 + |text|, rest)
    case Pointer(target, rest) =>
      && pos + 1 < |buf| && buf[pos] >= 0xC0 && target == Target(buf[pos], buf[pos + 1])
      && target < pos && LaidOut(buf, target, rest)
  }

  function Labels(l: Layout): seq<Bytes> {
    match l
    case Root => []
    case Label(text, rest) => [text] + Labels(rest)
    case Pointer(_, rest) => Labels(rest)
  }

  function NameLength(l: Layout): nat {
    match l
    case Root => 0
    case Label(text, rest) => |text| + 1 + NameLength(rest)
    case Pointer(_, rest) => NameLength(rest)
  }

  function Jumps(l: Layout): nat {
    match l
    case Root => 0
    case Label(_, rest) => Jumps(rest)
    case Pointer(_, rest) => 1 + Jumps(rest)
  }

  /** Just after the name where it starts: after its first pointer or its terminator. */
  function End(pos: nat, l: Layout): nat
    decreases l
  {
    match l
    case Root => pos + 1
    case Label(text, rest) => End(pos + 1 + |text|, rest)
    case Pointer(_, _) => pos + 2
  }

  predicate WithinLimits(l: Layout) {
    NameLength(l) <= MAX_NAME && Jumps(l) <= MAX_JUMPS
  }

  /** A name ends strictly after it starts, within the buffer. */
  lemma {:induction false} EndIsInside(buf: Bytes, pos: nat, l: Layout)
    requires LaidOut(buf, pos, l)
    ensures pos < End(pos, l) <= |buf|
    decreases l
  {
    if l.Label? { EndIsInside(buf, pos + 1 + |l.text|, l.rest); }
  }

  // ---- Reading ---------------------------------------------------------------

  /** The layout the reader's loop follows from `pos`, with `len` name bytes and `jumps` pointers behind it. */
  function ReadName(buf: Bytes, pos: nat, len: nat, jumps: nat): Result<Layout, DnsError>
    requires jumps <= MAX_JUMPS
    decreases MAX_JUMPS - jumps, |buf| - pos
  {
    if pos >= |buf| then Err(Truncated)
    else
      var b: int := buf[pos];
      if b == 0 then Ok(Root)
      else if b < 0x40 then
        var end := pos + 1 + b;
        if end > |buf| then Err(Truncated)
        else if len + b + 1 > MAX_NAME then Err(NameTooLong)
        else
          match ReadName(buf, end, len + b + 1, jumps)
          case Err(e) => Err(e)
          case Ok(rest) => Ok(Label(buf[pos + 1..end], rest))
      else if b >= 0xC0 then
        if pos + 1 >= |buf| then Err(Truncated)
        else
          var target := Target(b, buf[pos + 1]);
          if jumps + 1 > MAX_JUMPS || target >= pos then Err(MalformedName)
          else
            match ReadName(buf, target, len, jumps + 1)
            case Err(e) => Err(e)
            case Ok(rest) => Ok(Pointer(target, rest))
      else Err(MalformedName)
  }

  /** Whatever is read is laid out that way and within the limits. */
  lemma {:induction false} ReadIsLaidOut(buf: Bytes, pos: nat, len: nat, jumps: nat)
    requires jumps <= MAX_JUMPS && len <= MAX_NAME && ReadName(buf, pos, len, jumps).Ok?
    ensures var l := ReadName(buf, pos, len, jumps).value;
            LaidOut(buf, pos, l) && len + NameLength(l) <= MAX_NAME && jumps + Jumps(l) <= MAX_JUMPS
    decreases MAX_JUMPS - jumps, |buf| - pos
  {
    var b: int := buf[pos];
    if 0 < b < 0x40 {
      ReadIsLaidOut(buf, pos + 1 + b, len + b + 1, jumps);
    } else if b >= 0xC0 {
      ReadIsLaidOut(buf, Target(b, buf[pos + 1]), len, jumps + 1);
    }
  }

  lemma LabelIsRead(buf: Bytes, pos: nat, text: Bytes, rest: Layout, len: nat, jumps: nat)
    requires jumps <= MAX_JUMPS && pos + 1 + |text| <= |buf| && 0 < |text| < 0x40 && buf[pos] == |text|
    requires buf[pos + 1..pos + 1 + |text|] == text && len + |text| + 1 <= MAX_NAME
    requires ReadName(buf, pos + 1 + |text|, len + |text| + 1, jumps) == Ok(rest)
    ensures ReadName(buf, pos, len, jumps) == Ok(Label(text, rest))
  {
  }

  /** Whatever is laid out within the limits is read. */
  lemma {:induction false} LaidOutIsRead(buf: Bytes, pos: nat, l: Layout, len: nat, jumps: nat)
    requires LaidOut(buf, pos, l) && len + NameLength(l) <= MAX_NAME && jumps + Jumps(l) <= MAX_JUMPS
    ensures ReadName(buf, pos, len, jumps) == Ok(l)
    decreases l
  {
    match l
    case Root =>
    case Label(text, rest) =>
      LaidOutIsRead(buf, pos + 1 + |text|, rest, len + |text| + 1, jumps);
      LabelIsRead(buf, pos, text, rest, len, jumps);
    case Pointer(target, rest) => LaidOutIsRead(buf, target, rest, len, jumps + 1);
  }

  /** The reader succeeds exactly on the layouts within its limits. */
  lemma ReadIffLaidOut(buf: Bytes, pos: nat, l: Layout)
    ensures ReadName(buf, pos, 0, 0) == Ok(l) <==> LaidOut(buf, pos, l) && WithinLimits(l)
  {
    if ReadName(buf, pos, 0, 0) == Ok(l) { ReadIsLaidOut(buf, pos, 0, 0); }
    if LaidOut(buf, pos, l) && WithinLimits(l) { LaidOutIsRead(buf, pos, l, 0, 0); }
  }

  // ---- The reader ------------------------------------------------------------

  /** The dotted name a read comes to. */
  function Dotted(r: Result<Layout, DnsError>): Result<Bytes, DnsError> {
    match r
    case Ok(l) => Ok(Join(Labels(l), DOT))
    case Err(e) => Err(e)
  }

  datatype NameTurn = Fail(error: DnsError) | Stop | Text(text: Bytes, end: nat) | Jump(target: nat)

  /**
   A read goes on as `rest` after the labels `front`: both fail alike, or the labels of `rest`
   follow `front` and the name ends where `rest` does, or here if a pointer leads there.
   */
  predicate Leads(r: Result<Layout, DnsError>, at: nat, front: seq<Bytes>, rest: Result<Layout, DnsError>,
                  next: Option<nat>) {
    if r.Err? then rest == r
    else
      && rest.Ok? && Labels(r.value) == front + Labels(rest.value)
      && End(at, r.value) == if next.Some? then End(next.value, rest.value) else at + 2
  }

  lemma LabelLeads(buf: Bytes, at: nat, len: nat, jumps: nat)
    requires jumps <= MAX_JUMPS && at < |buf| && 0 < buf[at] < 0x40 && at + 1 + buf[at] <= |buf| &&
      len + buf[at] + 1 <= MAX_NAME
    ensures var end := at + 1 + buf[at];
            Leads(ReadName(buf, at, len, jumps), at, [buf[at + 1..end]], ReadName(buf, end, len + buf[at] + 1, jumps),
              Some(end))
  {
  }

  lemma PointerLeads(buf: Bytes, at: nat, len: nat, jumps: nat)
    requires jumps <= MAX_JUMPS && at + 1 < |buf| && buf[at] >= 0xC0
    ensures var r, target := ReadName(buf, at, len, jumps), Target(buf[at], buf[at + 1]);
            if jumps + 1 > MAX_JUMPS || target >= at then r == Err(MalformedName)
            else Leads(r, at, [], ReadName(buf, target, len, jumps + 1), None)
  {
    var r := ReadName(buf, at, len, jumps);
    if r.Ok? { assert [] + Labels(r.value) == Labels(r.value); }
  }

  /** The whole read, seen from the middle: the labels `before`, then what is `left`. */
  predicate Midway(all: Result<Layout, DnsError>, start: nat, before: seq<Bytes>, left: Result<Layout, DnsError>,
                   at: nat, after: Option<nat>) {
    if all.Err? then left == all
    else
      && left.Ok? && Labels(all.value) == before + Labels(left.value)
      && End(start, all.value) == if after.Some? then after.value else End(at, left.value)
  }

  lemma MidwayLabel(all: Result<Layout, DnsError>, start: nat, before: seq<Bytes>, left: Result<Layout, DnsError>,
                    at: nat, after: Option<nat>, text: Bytes, rest: Result<Layout, DnsError>, next: nat)
    requires Midway(all, start, before, left, at, after) && Leads(left, at, [text], rest, Some(next))
    ensures Midway(all, start, before + [text], rest, next, after)
  {
    if all.Ok? { assert before + ([text] + Labels(rest.value)) == before + [text] + Labels(rest.value); }
  }

  lemma MidwayJump(all: Result<Layout, DnsError>, start: nat, before: seq<Bytes>, left: Result<Layout, DnsError>,
                   at: nat, after: Option<nat>, rest: Result<Layout, DnsError>, next: nat)
    requires Midway(all, start, before, left, at, after) && Leads(left, at, [], rest, None)
    ensures Midway(all, start, before, rest, next, if after.Some? then after else Some(at + 2))
  {
    if all.Ok? { assert [] + Labels(rest.value) == Labels(rest.value); }
  }

  /**
   Where the reader's loop has got to: the dotted labels, their length, the position, the
   pointers followed, and where the cursor goes afterwards once that is known.
   */
  datatype Progress = Progress(labels: Bytes, nameLen: nat, at: nat, jumps: nat, after: Option<nat>)

  ghost predicate OnTrack(buf: Bytes, all: Result<Layout, DnsError>, start: nat, before: seq<Bytes>, p: Progress) {
    && p.jumps <= MAX_JUMPS && p.nameLen <= MAX_NAME
    && p.labels == Join(before, DOT) && (p.labels == [] <==> before == [])
    && Midway(all, start, before, ReadName(buf, p.at, p.nameLen, p.jumps), p.at, p.after)
  }

  /** A label behind those already read, after a dot if there are any. */
  method AppendLabel(labels: Bytes, text: Bytes, ghost before: seq<Bytes>) returns (r: Bytes)
    requires labels == Join(before, DOT) && (labels == [] <==> before == []) && text != []
    ensures r == Join(before + [text], DOT) && r != []
  {
    JoinAppend(before, text, DOT);
    r := labels;
    if r != [] { r := r + [DOT]; }
    r := r + text;
  }

  class Reader {
    const buf: Bytes
    var pos: nat

    constructor (buf: Bytes)
      ensures this.buf == buf && pos == 0
    {
      this.buf, pos := buf, 0;
    }

    /** Reads one name and moves the cursor to where it ends, not to where its pointers lead. */
    method Name() returns (r: Result<Bytes, DnsError>)
      modifies this
      ensures r == Dotted(ReadName(buf, old(pos), 0, 0))
      ensures r.Ok? ==> pos == End(old(pos), ReadName(buf, old(pos), 0, 0).value) && old(pos) < pos <= |buf|
    {
      ghost var all := ReadName(buf, pos, 0, 0);
      if all.Ok? {
        ReadIsLaidOut(buf, pos, 0, 0);
        EndIsInside(buf, pos, all.value);
      }
      if all.Ok? { assert [] + Labels(all.value) == Labels(all.value); }
      ghost var before: seq<Bytes> := [];
      var p := Progress([], 0, pos, 0, None);
      while true
        invariant OnTrack(buf, all, old(pos), before, p)
        decreases MAX_JUMPS - p.jumps, |buf| - p.at
      {
        var done;
        done, p, before := NameStep(p, all, old(pos), before);
        if done.Some? {
          if p.after.Some? { pos := p.after.value; }
          return done.value;
        }
      }
      assert false;
    }

    /** Once round the loop of `Name`: the answer, or a label or a pointer further. */
    method NameStep(p: Progress, ghost all: Result<Layout, DnsError>, ghost start: nat, ghost before: seq<Bytes>)
        returns (done: Option<Result<Bytes, DnsError>>, p': Progress, ghost before': seq<Bytes>)
      requires OnTrack(buf, all, start, before, p)
      ensures done.Some? ==> done.value == Dotted(all) && (all.Ok? ==> p'.after == Some(End(start, all.value)))
      ensures done.None? ==> OnTrack(buf, all, start, before', p')
      ensures done.None? ==> p.jumps < p'.jumps || (p.jumps == p'.jumps && p.at < p'.at <= |buf|)
    {
      p', before' := p, before;
      var turn := OneTurn(p.at, p.nameLen, p.jumps, all, start, before, p.after);
      match turn {
        case Fail(e) => done := Some(Err(e));
        case Stop =>
          done := Some(Ok(p.labels));
          p' := p.(at := p.at + 1, after := if p.after.Some? then p.after else Some(p.at + 1));
        case Text(text, end) =>
          var labels := AppendLabel(p.labels, text, before);
          done, before' := None, before + [text];
          p' := p.(labels := labels, nameLen := p.nameLen + |text| + 1, at := end);
        case Jump(target) =>
          done := None;
          p' := p.(at := target, jumps := p.jumps + 1, after := if p.after.Some? then p.after else Some(p.at + 2));
      }
    }

    /** What stands at `at`: the loop of `Name` takes one of these each time round. */
    method OneTurn(at: nat, nameLen: nat, jumps: nat, ghost all: Result<Layout, DnsError>, ghost start: nat,
                   ghost before: seq<Bytes>, ghost after: Option<nat>) returns (t: NameTurn)
      requires jumps <= MAX_JUMPS && nameLen <= MAX_NAME
      requires Midway(all, start, before, ReadName(buf, at, nameLen, jumps), at, after)
      ensures t.Fail? ==> all == Err(t.error)
      ensures t.Stop? ==>
        all.Ok? && Labels(all.value) == before && End(start, all.value) == if after.Some? then after.value else at + 1
      ensures t.Text? ==>
                && at < t.end <= |buf| && t.text != [] && nameLen + |t.text| + 1 <= MAX_NAME
                && Midway(all, start, before + [t.text], ReadName(buf, t.end, nameLen + |t.text| + 1, jumps), t.end,
                  after)
      ensures t.Jump? ==>
                && jumps < MAX_JUMPS
                && Midway(all, start, before, ReadName(buf, t.target, nameLen, jumps + 1), t.target,
                  if after.Some? then after else Some(at + 2))
    {
      ghost var left := ReadName(buf, at, nameLen, jumps);
      if at >= |buf| { return Fail(Truncated); }
      var len: nat := buf[at];
      if len == 0 {
        assert before + [] == before;
        return Stop;
      }
      if len < 0x40 {
        var end := at + 1 + len;
        if end > |buf| { return Fail(Truncated); }
        if nameLen + len + 1 > MAX_NAME { return Fail(NameTooLong); }
        LabelLeads(buf, at, nameLen, jumps);
        MidwayLabel(all, start, before, left, at, after, buf[at + 1..end], ReadName(buf, end, nameLen + len + 1, jumps),
          end);
        return Text(buf[at + 1..end], end);
      }
      if len >= 0xC0 {
        if at + 1 >= |buf| { return Fail(Truncated); }
        var target := Target(len, buf[at + 1]);
        PointerLeads(buf, at, nameLen, jumps);
        if jumps + 1 > MAX_JUMPS || target >= at { return Fail(MalformedName); }
        MidwayJump(all, start, before, left, at, after, ReadName(buf, target, nameLen, jumps + 1), target);
        return Jump(target);
      }
      return Fail(MalformedName);
    }

    method U8() returns (r: Result<byte, DnsError>)
      modifies this
      ensures r == if old(pos) < |buf| then Ok(buf[old(pos)]) else Err(Truncated)
      ensures pos == old(pos) + if r.Ok? then 1 else 0
    {
      if pos >= |buf| { return Err(Truncated); }
      r := Ok(buf[pos]);
      pos := pos + 1;
    }

    method U16() returns (r: Result<nat, DnsError>)
      modifies this
      ensures r == ReadU16(buf, old(pos)) && (r.Ok? ==> pos == old(pos) + 2)
    {
      var hi := U8();
      if hi.Err? { return Err(hi.error); }
      var lo := U8();
      if lo.Err? { return Err(lo.error); }
      r := Ok(Word(hi.value, lo.value));
    }

    method U32() returns (r: Result<nat, DnsError>)
      modifies this
      ensures r == ReadU32(buf, old(pos)) && (r.Ok? ==> pos == old(pos) + 4)
    {
      var hi := U16();
      if hi.Err? { return Err(hi.error); }
      var lo := U16();
      if lo.Err? { return Err(lo.error); }
      r := Ok(hi.value * 65536 + lo.value);
    }

    method Take(n: nat) returns (r: Result<Bytes, DnsError>)
      modifies this
      ensures r == if old(pos) + n <= |buf| then Ok(buf[old(pos)..old(pos) + n]) else Err(Truncated)
      ensures pos == old(pos) + if r.Ok? then n else 0
    {
      if pos + n > |buf| { return Err(Truncated); }
      r := Ok(buf[pos..pos + n]);
      pos := pos + n;
    }
  }

  function ReadU16(buf: Bytes, pos: nat): Result<nat, DnsError> {
    if pos + 2 <= |buf| then Ok(Word(buf[pos], buf[pos + 1])) else Err(Truncated)
  }

  function ReadU32(buf: Bytes, pos: nat): Result<nat, DnsError> {
    if pos + 4 <= |buf| then
      Ok(Word(buf[pos], buf[pos + 1]) * 65536 + Word(buf[pos + 2], buf[pos + 3]))
    else Err(Truncated)
  }

  // ---- Writing ---------------------------------------------------------------

  /** The labels of a name, its trailing dot dropped. */
  function NameLabels(name: Bytes): seq<Bytes> {
    var trimmed := WithoutDot(name);
    if trimmed == [] then [] else Split(trimmed, DOT)
  }

  function WithoutDot(name: Bytes): Bytes {
    if name != [] && name[|name| - 1] == DOT then name[..|name| - 1] else name
  }

  function WireLength(labels: seq<Bytes>): nat {
    if labels == [] then 0 else |labels[0]| + 1 + WireLength(labels[1..])
  }

  /** Every label has 1 to 63 bytes, and the name with its terminator at most 255. */
  predicate Encodable(labels: seq<Bytes>) {
    (forall i :: 0 <= i < |labels| ==> 1 <= |labels[i]| <= MAX_LABEL) && WireLength(labels) + 1 <= MAX_NAME
  }

  function Wire(labels: seq<Bytes>): Bytes
    requires forall i :: 0 <= i < |labels| ==> |labels[i]| <= MAX_LABEL
  {
    if labels == [] then [] else [|labels[0]| as byte] + labels[0] + Wire(labels[1..])
  }

  lemma {:induction false} WireAppend(labels: seq<Bytes>, last: Bytes)
    requires forall i :: 0 <= i < |labels| ==> |labels[i]| <= MAX_LABEL
    requires |last| <= MAX_LABEL
    ensures Wire(labels + [last]) == Wire(labels) + [|last| as byte] + last
    ensures WireLength(labels + [last]) == WireLength(labels) + |last| + 1
  {
    if labels == [] {
      assert labels + [last] == [last];
      assert Wire([last][1..]) == [];
      assert [|last| as byte] + last + [] == [] + [|last| as byte] + last;
    } else {
      WireAppend(labels[1..], last);
      assert (labels + [last])[1..] == labels[1..] + [last];
      var head := [|labels[0]| as byte] + labels[0];
      assert head + (Wire(labels[1..]) + [|last| as byte] + last) == head + Wire(labels[1..]) + [|last| as byte] + last;
    }
  }

  lemma {:induction false} WireLengthGrows(labels: seq<Bytes>, n: nat)
    requires n <= |labels|
    ensures WireLength(labels[..n]) <= WireLength(labels)
    decreases n
  {
    if n > 0 {
      WireLengthGrows(labels[1..], n - 1);
      assert labels[..n][1..] == labels[1..][..n - 1];
    }
  }

  /** Appends a name as length-prefixed labels and a zero byte. */
  method EncodeName(buf: Bytes, name: Bytes) returns (r: Result<(), DnsError>, buf': Bytes)
    ensures r == if Encodable(NameLabels(name)) then Ok(()) else Err(NameTooLong)
    ensures r.Ok? ==> buf' == buf + Wire(NameLabels(name)) + [0]
    ensures buf <= buf'
  {
    var trimmed := WithoutDot(name);
    var ok := true;
    buf' := buf;
    if trimmed != [] {
      ok, buf' := EncodeLabels(buf, Split(trimmed, DOT));
      if !ok { return Err(NameTooLong), buf'; }
    } else {
      assert buf + [] == buf;
    }
    buf' := buf' + [0];
    r := Ok(());
  }

  /** Appends labels until one is empty or too long, or the name is. */
  method EncodeLabels(buf: Bytes, parts: seq<Bytes>) returns (ok: bool, buf': Bytes)
    ensures ok <==> Encodable(parts)
    ensures ok ==> buf' == buf + Wire(parts)
    ensures buf <= buf'
  {
    var total := 1;
    buf' := buf;
    assert buf + Wire(parts[..0]) == buf;
    for i := 0 to |parts|
      invariant Encodable(parts[..i]) && total == WireLength(parts[..i]) + 1
      invariant buf' == buf + Wire(parts[..i])
    {
      NotEncodable(parts, i + 1);
      assert parts[..i + 1][i] == parts[i] && parts[..i + 1] == parts[..i] + [parts[i]];
      if |parts[i]| == 0 || |parts[i]| > MAX_LABEL { return false, buf'; }
      WireAppend(parts[..i], parts[i]);
      total := total + 1 + |parts[i]|;
      if total > MAX_NAME { return false, buf'; }
      WireBehind(buf, Wire(parts[..i]), [|parts[i]| as byte], parts[i]);
      buf' := buf' + [|parts[i]| as byte] + parts[i];
    }
    assert parts[..|parts|] == parts;
    ok := true;
  }

  lemma WireBehind(a: Bytes, b: Bytes, c: Bytes, d: Bytes)
    ensures a + (b + c + d) == a + b + c + d
  {
  }

  /** Labels that cannot be encoded cannot be with more behind them. */
  lemma NotEncodable(labels: seq<Bytes>, n: nat)
    requires n <= |labels|
    ensures Encodable(labels) ==> Encodable(labels[..n])
  {
    WireLengthGrows(labels, n);
  }

  // ---- Round trip ------------------------------------------------------------

  /** The uncompressed layout of a list of labels. */
  function Plain(labels: seq<Bytes>): Layout {
    if labels == [] then Root else Label(labels[0], Plain(labels[1..]))
  }

  lemma FirstLabel(before: Bytes, text: Bytes, wire: Bytes, after: Bytes)
    requires |text| <= MAX_LABEL
    ensures var buf, head := before + ([|text| as byte] + text + wire) + [0] + after, before + [|text| as byte] + text;
            && buf == head + wire + [0] + after
            && buf[|before|] == |text| && buf[|before| + 1..|before| + 1 + |text|] == text
  {
  }

  /** What is written, amid any bytes, is laid out plainly and ends where the writing ended. */
  lemma {:induction false} WrittenIsLaidOut(before: Bytes, labels: seq<Bytes>, after: Bytes)
    requires forall i :: 0 <= i < |labels| ==> 1 <= |labels[i]| <= MAX_LABEL
    ensures LaidOut(before + Wire(labels) + [0] + after, |before|, Plain(labels))
    decreases |labels|
  {
    var buf := before + Wire(labels) + [0] + after;
    if labels == [] {
      assert buf[|before|] == 0;
    } else {
      var text := labels[0];
      WrittenIsLaidOut(before + [|text| as byte] + text, labels[1..], after);
      FirstLabel(before, text, Wire(labels[1..]), after);
    }
  }

  lemma {:induction false} PlainIs(pos: nat, labels: seq<Bytes>)
    requires forall i :: 0 <= i < |labels| ==> 1 <= |labels[i]| <= MAX_LABEL
    ensures var l := Plain(labels);
            && Labels(l) == labels && NameLength(l) == WireLength(labels) && Jumps(l) == 0
            && End(pos, l) == pos + |Wire(labels)| + 1
    decreases |labels|
  {
    if labels != [] {
      PlainIs(pos + 1 + |labels[0]|, labels[1..]);
      assert labels == [labels[0]] + labels[1..];
    }
  }

  /** Reading back what was encoded, amid any bytes, gives the name without its trailing dot and the exact end. */
  lemma NameRoundTrip(before: Bytes, name: Bytes, after: Bytes)
    requires Encodable(NameLabels(name))
    ensures var buf := before + Wire(NameLabels(name)) + [0] + after;
            var r := ReadName(buf, |before|, 0, 0);
            && Dotted(r) == Ok(WithoutDot(name))
            && End(|before|, r.value) == |before| + |Wire(NameLabels(name))| + 1
  {
    var labels := NameLabels(name);
    LabelsRoundTrip(before, labels, after);
    if labels != [] { JoinOfSplit(WithoutDot(name), DOT); }
  }

  lemma LabelsRoundTrip(before: Bytes, labels: seq<Bytes>, after: Bytes)
    requires Encodable(labels)
    ensures var buf := before + Wire(labels) + [0] + after;
            && ReadName(buf, |before|, 0, 0) == Ok(Plain(labels))
            && Dotted(Ok(Plain(labels))) == Ok(Join(labels, DOT))
            && End(|before|, Plain(labels)) == |before| + |Wire(labels)| + 1
  {
    WrittenIsLaidOut(before, labels, after);
    PlainIs(|before|, labels);
    LaidOutIsRead(before + Wire(labels) + [0] + after, |before|, Plain(labels), 0, 0);
  }

  // ---- Compression -----------------------------------------------------------

  /**
   Two bytes with their top bits set, and the other fourteen holding an earlier position, are
   read as the name that is there, and the reader goes on behind them.
   */
  lemma PointerReads(buf: Bytes, pos: nat, target: nat, l: Layout)
    requires pos + 1 < |buf| && target < pos && target < 0x4000
    requires buf[pos] == 0xC0 + target / 256 && buf[pos + 1] == target % 256
    requires LaidOut(buf, target, l) && NameLength(l) <= MAX_NAME && Jumps(l) < MAX_JUMPS
    ensures ReadName(buf, pos, 0, 0) == Ok(Pointer(target, l))
    ensures Labels(Pointer(target, l)) == Labels(l) && End(pos, Pointer(target, l)) == pos + 2
  {
    assert target == target / 256 * 256 + target % 256;
    LaidOutIsRead(buf, pos, Pointer(target, l), 0, 0);
  }

  // ---- The two limits --------------------------------------------------------

  lemma {:induction false} LabelsOf(buf: Bytes, pos: nat, l: Layout)
    requires LaidOut(buf, pos, l)
    ensures WireLength(Labels(l)) == NameLength(l)
    ensures forall i :: 0 <= i < |Labels(l)| ==> 1 <= |Labels(l)[i]| <= MAX_LABEL
    decreases l
  {
    match l
    case Root =>
    case Label(text, rest) =>
      LabelsOf(buf, pos + 1 + |text|, rest);
      assert Labels(l)[1..] == Labels(rest);
    case Pointer(target, rest) => LabelsOf(buf, target, rest);
  }

  /**
   The encoder counts the zero byte behind a name, the reader does not. So a name that is
   read can be written again exactly if it is not of the one length that only the reader lets
   through, 256 octets on the wire.
   */
  lemma ReadIsEncodableIff(buf: Bytes, pos: nat, l: Layout)
    requires ReadName(buf, pos, 0, 0) == Ok(l)
    ensures Encodable(Labels(l)) <==> NameLength(l) + 1 != 256
  {
    ReadIffLaidOut(buf, pos, l);
    LabelsOf(buf, pos, l);
  }

  function Letters(n: nat): Bytes {
    seq(n, i => 97)
  }

  /** Three labels of 63 bytes and one of 62. */
  function LongName(): seq<Bytes> {
    [Letters(63), Letters(63), Letters(63), Letters(62)]
  }

  lemma OneLonger(first: Bytes, rest: seq<Bytes>)
    ensures WireLength([first] + rest) == |first| + 1 + WireLength(rest)
  {
    assert ([first] + rest)[1..] == rest;
  }

  lemma LongNameIs()
    ensures WireLength(LongName()) == 255
  {
    var a, b := Letters(63), Letters(62);
    OneLonger(b, []);
    OneLonger(a, [b] + []);
    OneLonger(a, [a] + ([b] + []));
    OneLonger(a, [a] + ([a] + ([b] + [])));
    assert LongName() == [a] + ([a] + ([a] + ([b] + [])));
  }

  lemma {:induction false} WireIsLong(labels: seq<Bytes>)
    requires forall i :: 0 <= i < |labels| ==> |labels[i]| <= MAX_LABEL
    ensures |Wire(labels)| == WireLength(labels)
  {
    if labels != [] { WireIsLong(labels[1..]); }
  }

  /** A name over the limit of section 2.3.4 that is read, and cannot be encoded. */
  lemma LongNameIsRead()
    ensures var buf := Wire(LongName()) + [0];
            |buf| == 256 && ReadName(buf, 0, 0, 0) == Ok(Plain(LongName())) && !Encodable(LongName())
  {
    var labels := LongName();
    var buf := Wire(labels) + [0];
    LongNameIs();
    WireIsLong(labels);
    assert [] + Wire(labels) + [0] + [] == buf;
    WrittenIsLaidOut([], labels, []);
    PlainIs(0, labels);
    LaidOutIsRead(buf, 0, Plain(labels), 0, 0);
  }
}
