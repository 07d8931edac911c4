/**
 Inline expressions (crates/kernleaf/src/lib.rs:343-363, 500-557, 810-859): where the parts
 of a text are, and what is written for them in markup and in a script.
 */
module InlineRules {
  import opened Common
  import opened Text
  import opened Markup
  import opened Rendering
  import opened DirectiveRules

  // ---- Script strings --------------------------------------------------------

  const U003C: Bytes := [92, 117, 48, 48, 51, 67]
  const U003E: Bytes := [92, 117, 48, 48, 51, 69]
  const U0026: Bytes := [92, 117, 48, 48, 50, 54]

  /** The text a script makes of the inside of a string literal, as far as these escapes go. */
  function DecodeJs(s: Bytes): Bytes {
    if s == [] then []
    else if s[0] != 92 || |s| == 1 then [s[0]] + DecodeJs(s[1..])
    else if U003C <= s then [60] + DecodeJs(s[6..])
    else if U003E <= s then [62] + DecodeJs(s[6..])
    else if U0026 <= s then [38] + DecodeJs(s[6..])
    else [if s[1] == 110 then 10 else if s[1] == 114 then 13 else if s[1] == 116 then 9 else s[1]] + DecodeJs(s[2..])
  }

  /** No quote, bare or behind whole escapes, ends the string, and no backslash hangs at the end. */
  predicate StaysInString(s: Bytes) {
    s == [] ||
    if s[0] == 92 then |s| >= 2 && StaysInString(s[2..])
    else s[0] != 34 && s[0] != 39 && StaysInString(s[1..])
  }

  /** `safe` stands for `value` inside a string literal: it ends neither the string nor the script. */
  predicate StandsInString(safe: Bytes, value: Bytes) {
    && StaysInString(safe) && 60 !in safe && 62 !in safe && 38 !in safe && 10 !in safe && 13 !in safe
    && DecodeJs(safe) == value
  }

  lemma JsByteIs(b: byte)
    ensures EscapeJsByte(b) ==
            if b == 92 || b == 39 || b == 34 || b == 47 then [92, b]
            else if b == 10 then [92, 110] else if b == 13 then [92, 114] else if b == 9 then [92, 116]
            else if b == 60 then U003C else if b == 62 then U003E else if b == 38 then U0026
            else [b]
  {
  }

  /** A backslash and one letter. */
  lemma PairDecodes(c: byte, rest: Bytes)
    requires c != 117
    ensures var b := if c == 110 then 10 else if c == 114 then 13 else if c == 116 then 9 else c;
            DecodeJs([92, c] + rest) == [b] + DecodeJs(rest)
    ensures StaysInString([92, c] + rest) == StaysInString(rest)
  {
    var s := [92, c] + rest;
    assert s[2..] == rest && s[1] == c;
  }

  lemma UnicodeDecodes(u: Bytes, b: byte, rest: Bytes)
    requires (u == U003C && b == 60) || (u == U003E && b == 62) || (u == U0026 && b == 38)
    ensures DecodeJs(u + rest) == [b] + DecodeJs(rest)
  {
    FrontIs(u, rest);
    var s := u + rest;
    assert s[4] == u[4] && s[5] == u[5];
  }

  lemma UnicodeStays(u: Bytes, rest: Bytes)
    requires u == U003C || u == U003E || u == U0026
    ensures StaysInString(u + rest) == StaysInString(rest)
  {
    var s := u + rest;
    assert s[2..] == u[2..] + rest;
    PlainStays(u[2..], rest);
  }

  lemma {:induction false} PlainStays(s: Bytes, rest: Bytes)
    requires 92 !in s && 34 !in s && 39 !in s
    ensures StaysInString(s + rest) == StaysInString(rest)
  {
    if s == [] {
      assert s + rest == rest;
    } else {
      PlainStays(s[1..], rest);
      assert (s + rest)[1..] == s[1..] + rest && (s + rest)[0] == s[0];
    }
  }

  lemma ByteDecodes(b: byte, rest: Bytes)
    ensures DecodeJs(EscapeJsByte(b) + rest) == [b] + DecodeJs(rest)
    ensures StaysInString(EscapeJsByte(b) + rest) == StaysInString(rest)
  {
    JsByteIs(b);
    if b == 92 || b == 39 || b == 34 || b == 47 {
      PairDecodes(b, rest);
    } else if b == 10 {
      PairDecodes(110, rest);
    } else if b == 13 {
      PairDecodes(114, rest);
    } else if b == 9 {
      PairDecodes(116, rest);
    } else if b == 60 || b == 62 || b == 38 {
      UnicodeDecodes(EscapeJsByte(b), b, rest);
      UnicodeStays(EscapeJsByte(b), rest);
    } else {
      FrontIs([b], rest);
      assert ([b] + rest)[0] == b;
    }
  }

  lemma JsByteIsInert(b: byte)
    ensures var s := EscapeJsByte(b); 60 !in s && 62 !in s && 38 !in s && 10 !in s && 13 !in s
  {
    JsByteIs(b);
  }

  /** A value escaped for a script can break out of neither the string nor the script element. */
  lemma {:induction false} EscapeJsStands(value: Bytes)
    ensures StandsInString(EscapeJs(value), value)
  {
    if value != [] {
      EscapeJsStands(value[1..]);
      ByteDecodes(value[0], EscapeJs(value[1..]));
      JsByteIsInert(value[0]);
      assert value == [value[0]] + value[1..];
    }
  }

  // ---- The parts of a text ---------------------------------------------------

  function Open(escaped: bool): Bytes {
    if escaped then [91, 91] else [91, 40]
  }

  function Close(escaped: bool): Bytes {
    if escaped then [93, 93] else [41, 93]
  }

  /** No part starts in the text, nor with a bracket behind it. */
  predicate NoPart(s: Bytes) {
    !HasInline(s + [91])
  }

  /** A part as it is spelled. */
  function PartText(before: Bytes, escaped: bool, inside: Bytes, rest: Bytes): Bytes {
    before + Open(escaped) + (inside + Close(escaped) + rest)
  }

  lemma NoneBefore(before: Bytes, tail: Bytes, mark: Bytes, i: nat)
    requires mark == [91, 91] || mark == [91, 40]
    requires NoPart(before) && i < |before| && tail != [] && tail[0] == 91
    ensures !OccursAt(before + tail, mark, i)
  {
    var s := before + [91];
    FindIsFirst(s, [91, 91]);
    FindIsFirst(s, [91, 40]);
    assert (before + tail)[i..i + 2] == s[i..i + 2];
    assert !OccursAt(s, mark, i);
  }

  lemma OpenShape(before: Bytes, escaped: bool, tail: Bytes)
    ensures var s := before + Open(escaped) + tail;
            && s == before + (Open(escaped) + tail) && s[..|before|] == before && s[|before| + 2..] == tail
            && s[|before|..|before| + 2] == Open(escaped)
  {
  }

  lemma OpensAt(before: Bytes, escaped: bool, tail: Bytes)
    requires NoPart(before)
    ensures var s := before + Open(escaped) + tail; Find(s, Open(escaped)) == Some(|before|)
  {
    var s := before + Open(escaped) + tail;
    OpenShape(before, escaped, tail);
    forall j: nat | j < |before| ensures !OccursAt(s, Open(escaped), j) {
      NoneBefore(before, Open(escaped) + tail, Open(escaped), j);
    }
    FindIs(s, Open(escaped), |before|);
  }

  lemma OtherOpensLater(before: Bytes, escaped: bool, tail: Bytes)
    requires NoPart(before)
    ensures var r := Find(before + Open(escaped) + tail, Open(!escaped)); r.Some? ==> r.value > |before|
  {
    var s, other := before + Open(escaped) + tail, Open(!escaped);
    OpenShape(before, escaped, tail);
    FindIsFirst(s, other);
    forall j: nat | j <= |before| ensures !OccursAt(s, other, j) {
      if j < |before| {
        NoneBefore(before, Open(escaped) + tail, other, j);
      } else {
        assert Open(escaped)[1] != other[1];
      }
    }
  }

  lemma ClosesAt(inside: Bytes, escaped: bool, rest: Bytes)
    requires Find(inside + Close(escaped), Close(escaped)) == Some(|inside|)
    ensures var s := inside + Close(escaped) + rest;
            Find(s, Close(escaped)) == Some(|inside|) && s[..|inside|] == inside && s[|inside| + 2..] == rest
  {
    FindExtends(inside + Close(escaped), rest, Close(escaped));
  }

  /** Parts are found where they are spelled, the expression trimmed. */
  lemma PartIsFound(before: Bytes, escaped: bool, inside: Bytes, rest: Bytes)
    requires NoPart(before) && Find(inside + Close(escaped), Close(escaped)) == Some(|inside|)
    ensures NextInline(PartText(before, escaped, inside, rest)) == Part(before, escaped, Trim(inside), rest)
  {
    var tail := inside + Close(escaped) + rest;
    OpenShape(before, escaped, tail);
    OpensAt(before, escaped, tail);
    OtherOpensLater(before, escaped, tail);
    ClosesAt(inside, escaped, rest);
  }

  /** What may be written for a value: in markup and in scripts it cannot get out of its place. */
  ghost predicate WrittenFor(mode: Mode, escaped: bool, written: Bytes, value: Bytes) {
    if !escaped then written == value
    else match mode
         case Html => StandsFor(written, value)
         case JavaScript => StandsInString(written, value)
         case Css => true
  }

  /**
   What is before a part is written as it is, then the value, unescaped for `[(…)]` and
   made safe for its context for `[[…]]`, then the rest likewise.
   */
  lemma PartWrites(env: Env, before: Bytes, escaped: bool, inside: Bytes, rest: Bytes, scope: Scope, mode: Mode)
      returns (written: Bytes)
    requires NoPart(before) && Find(inside + Close(escaped), Close(escaped)) == Some(|inside|)
    ensures RenderInline(env, PartText(before, escaped, inside, rest), scope, mode) ==
            before + written + RenderInline(env, rest, scope, mode)
    ensures WrittenFor(mode, escaped, written, env.eval(Trim(inside), scope).text)
  {
    var value := env.eval(Trim(inside), scope).text;
    PartIsFound(before, escaped, inside, rest);
    EscapeStandsFor(value);
    EscapeJsStands(value);
    written := if escaped then EscapeFor(env, mode, value) else value;
  }

  /** A text without parts is written as it is. */
  lemma LiteralWrites(env: Env, text: Bytes, scope: Scope, mode: Mode)
    requires !HasInline(text)
    ensures RenderInline(env, text, scope, mode) == text
  {
  }

  // ---- Adding a template -----------------------------------------------------

  /** A part compiles if its expression does, and so on behind it. */
  lemma PartCompilesIff(syn: Syntax, before: Bytes, escaped: bool, inside: Bytes, rest: Bytes)
    requires NoPart(before) && Find(inside + Close(escaped), Close(escaped)) == Some(|inside|)
    ensures InlineOk(syn, PartText(before, escaped, inside, rest)) <==> syn.expr(Trim(inside)) && InlineOk(syn, rest)
  {
    PartIsFound(before, escaped, inside, rest);
  }

  /** A part that is not closed does not. */
  lemma UnclosedFails(syn: Syntax, before: Bytes, escaped: bool, tail: Bytes)
    requires NoPart(before) && Find(tail, Close(escaped)).None?
    ensures !InlineOk(syn, before + Open(escaped) + tail)
  {
    OpenShape(before, escaped, tail);
    OpensAt(before, escaped, tail);
    OtherOpensLater(before, escaped, tail);
  }

  /** A text without parts does. */
  lemma LiteralCompiles(syn: Syntax, text: Bytes)
    requires !HasInline(text)
    ensures InlineOk(syn, text)
  {
  }
}
