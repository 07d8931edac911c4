/**
 Other ways to spell markup (crates/kernleaf/src/lib.rs:687-807): attributes in single quotes,
 without quotes and without a value, gaps, tags that close themselves.
 */
module MarkupSpellings {
  import opened Common
  import opened Text
  import opened Markup
  import opened MarkupRoundTrip

  predicate Gap(s: Bytes) {
    forall i :: 0 <= i < |s| ==> Blank(s[i])
  }

  lemma {:induction false} GapIsSkipped(gap: Bytes, s: Bytes)
    requires Gap(gap) && (s == [] || !Blank(s[0]))
    ensures SkipBlanks(gap + s) == s
  {
    if gap == [] {
      assert gap + s == s;
    } else {
      GapIsSkipped(gap[1..], s);
      assert (gap + s)[1..] == gap[1..] + s;
    }
  }

  // ---- Attributes ------------------------------------------------------------

  /** How a value is spelled: in either kind of quotes, or bare. */
  datatype Form = Double | Single | Bare

  /** What may stand in a bare value. */
  predicate BareOk(b: byte) {
    !Blank(b) && b != GT && b != SLASH
  }

  predicate ValueOk(form: Form, value: Bytes) {
    match form
    case Double => QUOTE !in value
    case Single => APOSTROPHE !in value
    case Bare =>
      value != [] && value[0] != QUOTE && value[0] != APOSTROPHE && forall i :: 0 <= i < |value| ==> BareOk(value[i])
  }

  function ValueText(form: Form, value: Bytes): Bytes {
    match form
    case Double => [QUOTE] + value + [QUOTE]
    case Single => [APOSTROPHE] + value + [APOSTROPHE]
    case Bare => value
  }

  /** What may follow a value: anything behind quotes, what ends it behind a bare one. */
  predicate Follows(form: Form, rest: Bytes) {
    form.Bare? && rest != [] ==> !BareOk(rest[0])
  }

  lemma {:induction false} BareReads(value: Bytes, rest: Bytes)
    requires (forall i :: 0 <= i < |value| ==> BareOk(value[i])) && (rest != [] ==> !BareOk(rest[0]))
    ensures UnquotedAt(value + rest) == value
  {
    if value == [] {
      assert value + rest == rest;
    } else {
      BareReads(value[1..], rest);
      assert (value + rest)[1..] == value[1..] + rest;
      assert value == [value[0]] + value[1..];
    }
  }

  lemma QuotesRead(q: byte, value: Bytes, rest: Bytes)
    requires (q == QUOTE || q == APOSTROPHE) && q !in value
    ensures ReadValue([q] + value + [q] + rest) == Read(value, rest)
  {
    var s := [q] + value + [q] + rest;
    BeforeStops(value, q, rest);
    assert s[1..] == value + [q] + rest && s[|value| + 2..] == rest;
  }

  lemma ValueReadsAs(form: Form, value: Bytes, rest: Bytes)
    requires ValueOk(form, value) && Follows(form, rest)
    ensures ReadValue(ValueText(form, value) + rest) == Read(value, rest)
    ensures var s := ValueText(form, value) + rest; s != [] && !Blank(s[0])
  {
    match form
    case Double => QuotesRead(QUOTE, value, rest);
    case Single => QuotesRead(APOSTROPHE, value, rest);
    case Bare =>
      BareReads(value, rest);
      assert (value + rest)[|value|..] == rest && (value + rest)[0] == value[0];
  }

  /** An attribute with a value, spelled in any form and with any gaps around the equals sign. */
  lemma AttrReadsAs(name: Bytes, g: Bytes, h: Bytes, form: Form, value: Bytes, rest: Bytes)
    requires NameOk(name) && Gap(g) && Gap(h) && ValueOk(form, value) && Follows(form, rest)
    ensures var s := name + (g + ([EQUALS] + (h + (ValueText(form, value) + rest))));
            NameAt(s) == name && ReadAttr(s) == Read(Attr(name, value), rest)
  {
    var tail := ValueText(form, value) + rest;
    var after := [EQUALS] + (h + tail);
    var s := name + (g + after);
    ValueReadsAs(form, value, rest);
    GapIsSkipped(h, tail);
    GapIsSkipped(g, after);
    assert (g + after)[0] == if g == [] then EQUALS else g[0];
    NameReads(name, g + after);
    assert s[|name|..] == g + after && after[1..] == h + tail;
    AttrIs(s, name, after);
  }

  /** An attribute without a value has the empty one. */
  lemma LoneAttrReadsAs(name: Bytes, g: Bytes, rest: Bytes)
    requires NameOk(name) && Gap(g) && (rest == [] || (!Blank(rest[0]) && rest[0] != EQUALS))
    requires g != [] || rest == [] || EndsName(rest[0])
    ensures var s := name + (g + rest); NameAt(s) == name && ReadAttr(s) == Read(Attr(name, []), rest)
  {
    var s := name + (g + rest);
    GapIsSkipped(g, rest);
    if g + rest != [] { assert (g + rest)[0] == if g == [] then rest[0] else g[0]; }
    NameReads(name, g + rest);
    assert s[|name|..] == g + rest;
    AttrIs(s, name, rest);
  }

  // ---- Tags ------------------------------------------------------------------

  /** The end of a tag, with or without the slash that closes it. */
  lemma TagEndReadsAs(g: Bytes, closes: bool, rest: Bytes)
    requires Gap(g)
    ensures var end := if closes then SELF_CLOSE else [GT];
            ReadAttrs(g + (end + rest)) == Some(Read(TagEnd([], closes), rest))
  {
    var end := if closes then SELF_CLOSE else [GT];
    var s := end + rest;
    GapIsSkipped(g, s);
    assert s[|end|..] == rest;
    if closes { assert SELF_CLOSE <= s; }
  }

  /** One attribute more in front of others. */
  lemma MoreAttrs(g: Bytes, s: Bytes, a: Attr, more: Bytes, others: seq<Attr>, closes: bool, rest: Bytes)
    requires Gap(g) && s != [] && !EndsName(s[0]) && NameAt(s) != [] && ReadAttr(s) == Read(a, more)
    requires ReadAttrs(more) == Some(Read(TagEnd(others, closes), rest))
    ensures ReadAttrs(g + s) == Some(Read(TagEnd([a] + others, closes), rest))
  {
    GapIsSkipped(g, s);
    assert !(SELF_CLOSE <= s);
  }

  /** A tag that closes itself is an element without content, whatever its name. */
  lemma SelfClosedReadsAs(tag: Bytes, attrs: Bytes, raw: seq<Attr>, statics: seq<Attr>, ds: seq<Attr>, rest: Bytes)
    requires TagOk(tag) && attrs != [] && EndsName(attrs[0]) && Merged(raw, statics, ds)
    requires ReadAttrs(attrs) == Some(Read(TagEnd(raw, true), rest))
    ensures ReadElement([LT] + (tag + attrs)) == Some(Read(Element(tag, true, statics, ds, []), rest))
  {
    var s := [LT] + (tag + attrs);
    NameReads(tag, attrs);
    OpenSlices(tag, attrs);
    MergeIsSplit(raw, statics, ds);
    assert s[1..] == tag + attrs;
  }

  /** A closing tag may have gaps behind its name. */
  lemma CloseReadsAs(tag: Bytes, g: Bytes, rest: Bytes)
    requires NameOk(tag) && Gap(g)
    ensures SkipClose(CLOSE_TAG + (tag + (g + ([GT] + rest)))) == rest
  {
    var tail := g + ([GT] + rest);
    var s := CLOSE_TAG + (tag + tail);
    assert tail[0] == if g == [] then GT else g[0];
    NameReads(tag, tail);
    GapIsSkipped(g, [GT] + rest);
    assert s[2..] == tag + tail && s[2 + |tag|..] == tail && ([GT] + rest)[1..] == rest;
  }
}
