/**
 Byte strings and the few operations of Rust's `str` the parsers rest on: searching,
 UTF-8 validity, trimming, ASCII case, and reading an unsigned integer.
 */
module Text {
  import opened Common

  type byte = x: int | 0 <= x < 256
  type Bytes = seq<byte>

  const LF: byte := 10
  const CR: byte := 13
  const SPACE: byte := 32
  const TAB: byte := 9
  const COLON: byte := 58
  const SEMICOLON: byte := 59
  const PLUS: byte := 43
  const CRLF: Bytes := [13, 10]

  /** The largest `usize` on a 64-bit target. */
  const USIZE_MAX: nat := 0xFFFF_FFFF_FFFF_FFFF

  // ---- Searching -------------------------------------------------------------

  /** `needle` occurs in `hay` at `i`. */
  predicate OccursAt<T(==)>(hay: seq<T>, needle: seq<T>, i: nat) {
    i + |needle| <= |hay| && hay[i..i + |needle|] == needle
  }

  function FindFrom<T(==)>(hay: seq<T>, needle: seq<T>, from: nat): (r: Option<nat>)
    ensures r.Some? ==> from <= r.value && r.value + |needle| <= |hay|
    decreases |hay| - from
  {
    if from + |needle| > |hay| then None
    else if hay[from..from + |needle|] == needle then Some(from)
    else FindFrom(hay, needle, from + 1)
  }

  /** The index of the first occurrence of `needle`. */
  function Find<T(==)>(hay: seq<T>, needle: seq<T>): (r: Option<nat>)
    ensures r.Some? ==> r.value + |needle| <= |hay|
  {
    FindFrom(hay, needle, 0)
  }

  lemma {:induction false} FindFromIsFirst<T>(hay: seq<T>, needle: seq<T>, from: nat)
    ensures var r := FindFrom(hay, needle, from);
            match r
            case Some(i) => OccursAt(hay, needle, i) && forall j :: from <= j < i ==> !OccursAt(hay, needle, j)
            case None => forall j :: from <= j ==> !OccursAt(hay, needle, j)
    decreases |hay| - from
  {
    if from + |needle| <= |hay| && hay[from..from + |needle|] != needle {
      FindFromIsFirst(hay, needle, from + 1);
    }
  }

  /** `Find` gives an occurrence with none before it, and nothing only when there is none. */
  lemma FindIsFirst<T>(hay: seq<T>, needle: seq<T>)
    ensures match Find(hay, needle)
            case Some(i) => OccursAt(hay, needle, i) && forall j: nat :: j < i ==> !OccursAt(hay, needle, j)
            case None => forall j: nat :: !OccursAt(hay, needle, j)
  {
    FindFromIsFirst(hay, needle, 0);
  }

  lemma FindIs<T>(hay: seq<T>, needle: seq<T>, i: nat)
    requires OccursAt(hay, needle, i)
    requires forall j: nat :: j < i ==> !OccursAt(hay, needle, j)
    ensures Find(hay, needle) == Some(i)
  {
    FindIsFirst(hay, needle);
  }

  /** A first occurrence stays the first when bytes are added at the end. */
  lemma FindExtends<T>(hay: seq<T>, more: seq<T>, needle: seq<T>)
    requires Find(hay, needle).Some?
    ensures Find(hay + more, needle) == Find(hay, needle)
  {
    var i := Find(hay, needle).value;
    FindIsFirst(hay, needle);
    forall j: nat | j <= i ensures OccursAt(hay + more, needle, j) <==> OccursAt(hay, needle, j) {
      if j + |needle| <= |hay| {
        assert (hay + more)[j..j + |needle|] == hay[j..j + |needle|];
      }
    }
    FindIs(hay + more, needle, i);
  }

  /** The part before the first `sep`: the first piece of a split. */
  function Before<T(==)>(s: seq<T>, sep: T): (r: seq<T>)
    ensures |r| <= |s|
  {
    if s == [] || s[0] == sep then [] else [s[0]] + Before(s[1..], sep)
  }

  // ---- UTF-8 -----------------------------------------------------------------

  predicate Between(b: byte, lo: byte, hi: byte) {
    lo <= b <= hi
  }

  predicate Continuation(b: byte) {
    Between(b, 0x80, 0xBF)
  }

  /** The length of the well-formed UTF-8 character at the front of `s`, or 0 if there is none. */
  function CharLen(s: Bytes): (n: nat)
    ensures n <= |s|
  {
    if |s| >= 1 && s[0] < 0x80 then 1
    else if |s| >= 2 && Between(s[0], 0xC2, 0xDF) && Continuation(s[1]) then 2
    else if |s| >= 3 && Continuation(s[2]) &&
            ((s[0] == 0xE0 && Between(s[1], 0xA0, 0xBF)) || (Between(s[0], 0xE1, 0xEC) && Continuation(s[1])) ||
             (s[0] == 0xED && Between(s[1], 0x80, 0x9F)) || (Between(s[0], 0xEE, 0xEF) && Continuation(s[1]))) then 3
    else if |s| >= 4 && Continuation(s[2]) && Continuation(s[3]) &&
            ((s[0] == 0xF0 && Between(s[1], 0x90, 0xBF)) || (Between(s[0], 0xF1, 0xF3) && Continuation(s[1])) ||
             (s[0] == 0xF4 && Between(s[1], 0x80, 0x8F))) then 4
    else 0
  }

  /** `std::str::from_utf8` accepts `s`. */
  predicate Utf8(s: Bytes) {
    s == [] || (CharLen(s) > 0 && Utf8(s[CharLen(s)..]))
  }

  // ---- Trimming --------------------------------------------------------------

  /** The three-byte characters with the Unicode White_Space property. */
  predicate WideSpace(a: byte, b: byte, c: byte) {
    || (a == 0xE1 && b == 0x9A && c == 0x80)
    || (a == 0xE2 && b == 0x80 && (Between(c, 0x80, 0x8A) || c == 0xA8 || c == 0xA9 || c == 0xAF))
    || (a == 0xE2 && b == 0x81 && c == 0x9F)
    || (a == 0xE3 && b == 0x80 && c == 0x80)
  }

  predicate AsciiSpace(b: byte) {
    Between(b, 9, 13) || b == 32
  }

  predicate PairSpace(a: byte, b: byte) {
    a == 0xC2 && (b == 0x85 || b == 0xA0)
  }

  /** The length of the white-space character at the front of `s`, or 0. */
  function SpaceAtStart(s: Bytes): (n: nat)
    ensures n <= |s|
  {
    if |s| >= 1 && AsciiSpace(s[0]) then 1
    else if |s| >= 2 && PairSpace(s[0], s[1]) then 2
    else if |s| >= 3 && WideSpace(s[0], s[1], s[2]) then 3
    else 0
  }

  /** The length of the white-space character at the end of `s`, or 0. */
  function SpaceAtEnd(s: Bytes): (n: nat)
    ensures n <= |s|
  {
    var k := |s|;
    if k >= 1 && AsciiSpace(s[k - 1]) then 1
    else if k >= 2 && PairSpace(s[k - 2], s[k - 1]) then 2
    else if k >= 3 && WideSpace(s[k - 3], s[k - 2], s[k - 1]) then 3
    else 0
  }

  function TrimStart(s: Bytes): (r: Bytes)
    ensures |r| <= |s|
  {
    if SpaceAtStart(s) == 0 then s else TrimStart(s[SpaceAtStart(s)..])
  }

  function TrimEnd(s: Bytes): (r: Bytes)
    ensures |r| <= |s|
  {
    if SpaceAtEnd(s) == 0 then s else TrimEnd(s[..|s| - SpaceAtEnd(s)])
  }

  /** `str::trim`. */
  function Trim(s: Bytes): Bytes {
    TrimEnd(TrimStart(s))
  }

  lemma VisibleStart(s: Bytes)
    requires s != [] && Between(s[0], 33, 126)
    ensures TrimStart(s) == s
  {
  }

  lemma VisibleEnd(s: Bytes)
    requires s != [] && Between(s[|s| - 1], 33, 126)
    ensures TrimEnd(s) == s
  {
  }

  // ---- Integers --------------------------------------------------------------

  /** The value of a digit, up to base 16. */
  function Digit(b: byte): Option<nat> {
    if Between(b, 48, 57) then Some(b - 48)
    else if Between(b, 97, 102) then Some(b - 87)
    else if Between(b, 65, 70) then Some(b - 55)
    else None
  }

  function WithDigit(n: nat, radix: nat, digit: nat): nat {
    n * radix + digit
  }

  function DigitsValue(s: Bytes, radix: nat): Option<nat> {
    if s == [] then Some(0)
    else
      var front, last := DigitsValue(s[..|s| - 1], radix), Digit(s[|s| - 1]);
      if front.Some? && last.Some? && last.value < radix then Some(WithDigit(front.value, radix, last.value)) else None
  }

  /** `from_str_radix` for an unsigned type with the given largest value. */
  function ParseUnsigned(s: Bytes, radix: nat, max: nat): Option<nat> {
    if s == [] then None
    else
      var v := DigitsValue(if s[0] == PLUS && |s| > 1 then s[1..] else s, radix);
      if v.Some? && v.value <= max then v else None
  }

  // ---- ASCII case ------------------------------------------------------------

  function Lower(b: byte): byte {
    if Between(b, 65, 90) then b + 32 else b
  }

  function Upper(b: byte): byte {
    if Between(b, 97, 122) then b - 32 else b
  }

  function LowerAll(s: Bytes): (r: Bytes)
    ensures |r| == |s| && forall i :: 0 <= i < |s| ==> r[i] == Lower(s[i])
  {
    seq(|s|, i requires 0 <= i < |s| => Lower(s[i]))
  }

  lemma LowerTwice(s: Bytes)
    ensures LowerAll(LowerAll(s)) == LowerAll(s)
  {
  }

  /** `eq_ignore_ascii_case`. */
  predicate SameIgnoringCase(a: Bytes, b: Bytes) {
    LowerAll(a) == LowerAll(b)
  }

  /** The bytes of an ASCII literal. */
  function Ascii(s: string): (r: Bytes)
    requires forall i :: 0 <= i < |s| ==> s[i] as int < 128
    ensures |r| == |s| && forall i :: 0 <= i < |s| ==> r[i] == s[i] as int
  {
    seq(|s|, i requires 0 <= i < |s| => s[i] as int)
  }

  // ---- Pieces ----------------------------------------------------------------

  function Concat<T>(pieces: seq<seq<T>>): seq<T> {
    if pieces == [] then [] else pieces[0] + Concat(pieces[1..])
  }

  lemma CutAt<T>(s: seq<T>, n: nat, k: nat)
    requires n <= k <= |s|
    ensures s[..n] + s[n..k] == s[..k]
  {
  }

  lemma Assoc<T>(a: seq<T>, b: seq<T>, c: seq<T>)
    ensures a + (b + c) == a + b + c
  {
  }

  /** `str::split` on one separator. */
  function Split<T(==)>(s: seq<T>, sep: T): (parts: seq<seq<T>>)
    ensures parts != []
    decreases |s|
  {
    var first := Before(s, sep);
    if |first| == |s| then [s] else [first] + Split(s[|first| + 1..], sep)
  }

  function Join<T>(parts: seq<seq<T>>, sep: T): seq<T> {
    if parts == [] then []
    else if |parts| == 1 then parts[0]
    else parts[0] + [sep] + Join(parts[1..], sep)
  }

  lemma {:induction false} BeforeStops<T>(a: seq<T>, sep: T, b: seq<T>)
    requires sep !in a
    ensures Before(a + [sep] + b, sep) == a && Before(a, sep) == a
  {
    if a == [] {
      assert [] + [sep] + b == [sep] + b;
    } else {
      BeforeStops(a[1..], sep, b);
      assert (a + [sep] + b)[1..] == a[1..] + [sep] + b;
      assert [a[0]] + a[1..] == a;
    }
  }

  /** It is a beginning without the separator. */
  lemma {:induction false} BeforeIs<T>(s: seq<T>, sep: T)
    ensures Before(s, sep) <= s && sep !in Before(s, sep)
  {
    if s != [] && s[0] != sep { BeforeIs(s[1..], sep); }
  }

  lemma {:induction false} BeforeIsNext<T>(s: seq<T>, sep: T)
    ensures var first := Before(s, sep); |first| < |s| ==> s[|first|] == sep && s == first + [sep] + s[|first| + 1..]
    ensures |Before(s, sep)| == |s| ==> Before(s, sep) == s
  {
    if s != [] && s[0] != sep {
      BeforeIsNext(s[1..], sep);
      OneBefore(s, Before(s[1..], sep), sep);
    }
  }

  lemma OneBefore<T>(s: seq<T>, first: seq<T>, sep: T)
    requires s != [] && |first| <= |s| - 1
    requires |first| < |s| - 1 ==> s[1..][|first|] == sep && s[1..] == first + [sep] + s[1..][|first| + 1..]
    requires |first| == |s| - 1 ==> first == s[1..]
    ensures var all := [s[0]] + first; |all| < |s| ==> s[|all|] == sep && s == all + [sep] + s[|all| + 1..]
    ensures |first| == |s| - 1 ==> [s[0]] + first == s
  {
    assert s == [s[0]] + s[1..];
    if |first| < |s| - 1 { assert s[1..][|first| + 1..] == s[|first| + 2..]; }
  }

  /** Joining the pieces of a split gives the text back; no piece holds the separator. */
  lemma {:induction false} JoinOfSplit<T>(s: seq<T>, sep: T)
    ensures Join(Split(s, sep), sep) == s
    ensures forall i :: 0 <= i < |Split(s, sep)| ==> sep !in Split(s, sep)[i]
    decreases |s|
  {
    var first := Before(s, sep);
    BeforeIs(s, sep);
    BeforeIsNext(s, sep);
    if |first| < |s| {
      var rest := s[|first| + 1..];
      JoinOfSplit(rest, sep);
      assert Split(s, sep)[1..] == Split(rest, sep);
    }
  }

  /** Splitting joined pieces gives the pieces back, if none holds the separator. */
  lemma {:induction false} SplitOfJoin<T>(parts: seq<seq<T>>, sep: T)
    requires parts != [] && forall i :: 0 <= i < |parts| ==> sep !in parts[i]
    ensures Split(Join(parts, sep), sep) == parts
    decreases |parts|
  {
    if |parts| == 1 {
      BeforeStops(parts[0], sep, []);
      assert parts == [parts[0]];
    } else {
      var rest := Join(parts[1..], sep);
      BeforeStops(parts[0], sep, rest);
      SplitOfJoin(parts[1..], sep);
      assert Join(parts, sep)[|parts[0]| + 1..] == rest;
      assert parts == [parts[0]] + parts[1..];
    }
  }

  lemma {:induction false} JoinAppend<T>(parts: seq<seq<T>>, last: seq<T>, sep: T)
    ensures Join(parts + [last], sep) == if parts == [] then last else Join(parts, sep) + [sep] + last
    decreases |parts|
  {
    if |parts| == 0 {
      assert parts + [last] == [last];
    } else if |parts| == 1 {
      assert (parts + [last])[1..] == [last];
    } else {
      JoinAppend(parts[1..], last, sep);
      assert (parts + [last])[1..] == parts[1..] + [last];
      assert parts[0] + [sep] + (Join(parts[1..], sep) + [sep] + last) == Join(parts, sep) + [sep] + last;
    }
  }
}
