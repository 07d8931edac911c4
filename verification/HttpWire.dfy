/**
 What the two sides of an HTTP/1.1 connection share: heads as lines that end in CRLF,
 header lines, and decimal numbers (crates/kernway-http/src/writer.rs:63-148,
 crates/kernway-http-client/src/lib.rs:1371-1422).
 */
module HttpWire {
  import opened Common
  import opened Text
  import opened Fields

  // ---- Lines -----------------------------------------------------------------

  /** Lines on the wire; a head is such lines and one more CRLF. */
  function Wire(lines: seq<Bytes>): Bytes {
    if lines == [] then [] else lines[0] + CRLF + Wire(lines[1..])
  }

  lemma Regroup(a: Bytes, b: Bytes, c: Bytes, d: Bytes)
    ensures a + b + (c + d) == a + b + c + d
  {}

  lemma {:induction false} WireAppend(a: seq<Bytes>, b: seq<Bytes>)
    ensures Wire(a + b) == Wire(a) + Wire(b)
  {
    if a == [] {
      assert a + b == b;
    } else {
      WireAppend(a[1..], b);
      assert (a + b)[1..] == a[1..] + b;
      Regroup(a[0], CRLF, Wire(a[1..]), Wire(b));
    }
  }

  /** Text that cannot be taken for a line end. */
  predicate OneLine(s: Bytes) {
    CR !in s && LF !in s
  }

  predicate Plain(lines: seq<Bytes>) {
    forall i :: 0 <= i < |lines| ==> lines[i] != [] && OneLine(lines[i])
  }

  function HeaderLine(p: Pair): Bytes {
    p.name + [COLON, SPACE] + p.value
  }

  function HeaderLines(pairs: seq<Pair>): (lines: seq<Bytes>)
    ensures |lines| == |pairs| && forall i :: 0 <= i < |pairs| ==> lines[i] == HeaderLine(pairs[i])
  {
    if pairs == [] then [] else [HeaderLine(pairs[0])] + HeaderLines(pairs[1..])
  }

  /** Text of a fixed message: visible ASCII and spaces. */
  predicate Printable(s: string) {
    forall i :: 0 <= i < |s| ==> ' ' <= s[i] <= '~'
  }

  lemma AsciiIsPlain(s: string)
    requires Printable(s)
    ensures OneLine(Ascii(s))
  {
  }

  // ---- Numbers ---------------------------------------------------------------

  /** A number in decimal. */
  function Digits(n: nat): Bytes {
    if n < 10 then [48 + n] else Digits(n / 10) + [48 + n % 10]
  }

  predicate AllDigits(s: Bytes) {
    forall i :: 0 <= i < |s| ==> Between(s[i], 48, 57)
  }

  lemma {:induction false} DigitsRead(n: nat)
    ensures Digits(n) != [] && AllDigits(Digits(n)) && DigitsValue(Digits(n), 10) == Some(n)
  {
    var s := Digits(n);
    if n < 10 {
      assert s[..0] == [];
    } else {
      DigitsRead(n / 10);
      assert s[..|s| - 1] == Digits(n / 10);
    }
  }

  /** Reading back a written number gives the number, if the type can hold it. */
  lemma DigitsParse(n: nat, max: nat)
    requires n <= max
    ensures ParseUnsigned(Digits(n), 10, max) == Some(n)
  {
    DigitsRead(n);
  }

  ghost function Pow10(k: nat): nat {
    if k == 0 then 1 else 10 * Pow10(k - 1)
  }

  lemma FiveMoreDigits(k: nat)
    ensures Pow10(k + 5) == 100_000 * Pow10(k)
  {
    assert Pow10(k + 2) == 100 * Pow10(k);
    assert Pow10(k + 4) == 100 * Pow10(k + 2);
  }

  lemma TwentyDigitsSuffice(n: nat, k: nat)
    requires n <= USIZE_MAX && k == 20
    ensures n < Pow10(k)
  {
    FiveMoreDigits(k - 5);
    FiveMoreDigits(k - 10);
    FiveMoreDigits(k - 15);
    FiveMoreDigits(k - 20);
  }

  /** Decimal digits, filled backwards into a buffer that covers every 64-bit number. */
  method Itoa(n: nat) returns (digits: Bytes)
    requires n <= USIZE_MAX
    ensures digits == Digits(n)
  {
    var buf := new byte[20](_ => 0);
    var start: nat, rest: nat := buf.Length, n;
    TwentyDigitsSuffice(n, start);
    ghost var goal := Digits(n);
    assert Digits(rest) + buf[start..] == goal;
    while true
      invariant 0 < start <= buf.Length && rest < Pow10(start)
      invariant Digits(rest) + buf[start..] == goal
      decreases start
    {
      ghost var done := buf[start..];
      var digit: byte, next := 48 + rest % 10, rest / 10;
      DigitStep(rest, next, digit, start, done, goal);
      start := start - 1;
      buf[start] := digit;
      assert buf[start..] == [digit] + done;
      rest := next;
      if rest == 0 { return buf[start..]; }
    }
  }

  /** One digit more in the buffer, one less to go. */
  lemma DigitStep(rest: nat, next: nat, digit: byte, k: nat, done: Bytes, goal: Bytes)
    requires k > 0 && rest < Pow10(k) && next == rest / 10 && digit == 48 + rest % 10 && Digits(rest) + done == goal
    ensures next < Pow10(k - 1) && (next > 0 ==> k > 1)
    ensures if next == 0 then [digit] + done == goal else Digits(next) + ([digit] + done) == goal
  {
    if next > 0 { Assoc(Digits(next), [digit], done); }
  }

  // ---- UTF-8 -----------------------------------------------------------------

  lemma CharLenExtends(a: Bytes, b: Bytes)
    requires CharLen(a) > 0
    ensures CharLen(a + b) == CharLen(a)
  {
    var s := a + b;
    assert forall i :: 0 <= i < |a| ==> s[i] == a[i];
  }

  lemma {:induction false} Utf8Concat(a: Bytes, b: Bytes)
    requires Utf8(a) && Utf8(b)
    ensures Utf8(a + b)
    decreases |a|
  {
    if a == [] {
      assert a + b == b;
    } else {
      var n := CharLen(a);
      CharLenExtends(a, b);
      Utf8Concat(a[n..], b);
      assert (a + b)[n..] == a[n..] + b;
    }
  }

  predicate IsAscii(s: Bytes) {
    forall i :: 0 <= i < |s| ==> s[i] < 0x80
  }

  lemma {:induction false} AsciiIsUtf8(s: Bytes)
    requires IsAscii(s)
    ensures Utf8(s)
  {
    if s != [] { AsciiIsUtf8(s[1..]); }
  }

  lemma {:induction false} WireIsUtf8(lines: seq<Bytes>)
    requires forall i :: 0 <= i < |lines| ==> Utf8(lines[i])
    ensures Utf8(Wire(lines))
  {
    if lines != [] {
      WireIsUtf8(lines[1..]);
      AsciiIsUtf8(CRLF);
      Utf8Concat(lines[0], CRLF);
      Utf8Concat(lines[0] + CRLF, Wire(lines[1..]));
    }
  }
}
