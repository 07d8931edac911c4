/**
 kernleaf's HTML (crates/kernleaf/src/lib.rs:318-341, 394-446, 509-520, 585-807): the
 template DOM, how it is read from text and how it is written back.

 Reading is given as functions of the text ahead. The main results are that reading undoes
 spelling on every template (`SourceReadsBack`) and writing on every plain one
 (`WrittenReadsBack`).
 */
module Markup {
  import opened Common
  import opened Text

  const LT: byte := 60
  const GT: byte := 62
  const SLASH: byte := 47
  const BANG: byte := 33
  const EQUALS: byte := 61
  const QUOTE: byte := 34
  const APOSTROPHE: byte := 39
  const CLOSE_TAG: Bytes := [60, 47]
  const SELF_CLOSE: Bytes := [47, 62]
  const COMMENT_OPEN: Bytes := [60, 33, 45, 45]
  const COMMENT_CLOSE: Bytes := [45, 45, 62]
  const DECLARATION_OPEN: Bytes := [60, 33]
  const INLINE_ESCAPED: Bytes := [91, 91]
  const INLINE_RAW: Bytes := [91, 40]
  const INLINE_ESCAPED_CLOSE: Bytes := [93, 93]
  const INLINE_RAW_CLOSE: Bytes := [41, 93]

  datatype Attr = Attr(name: Bytes, value: Bytes)

  /**
   A node of a template. An element's `th:` attributes are its directives, kept as text;
   a text run with inline expressions is kept whole.
   */
  datatype Dom =
    | Text(text: Bytes)
    | Inline(raw: Bytes)
    | Comment(body: Bytes)
    | Declaration(decl: Bytes)
    | Element(tag: Bytes, isVoid: bool, attrs: seq<Attr>, directives: seq<Attr>, children: seq<Dom>)

  /** What was read and the text after it. */
  datatype Read<T> = Read(value: T, rest: Bytes)

  // ---- Characters and tags ---------------------------------------------------

  /** `u8::is_ascii_whitespace`. */
  predicate Blank(b: byte) {
    b == 9 || b == 10 || b == 12 || b == 13 || b == 32
  }

  /** Ends a tag or attribute name. */
  predicate EndsName(b: byte) {
    Blank(b) || b == GT || b == SLASH || b == EQUALS
  }

  predicate Listed(tag: Bytes, names: seq<Bytes>) {
    names != [] && (tag == names[0] || Listed(tag, names[1..]))
  }

  function VoidTags(): seq<Bytes> {
    [Ascii("area"), Ascii("base"), Ascii("br"), Ascii("col"), Ascii("embed"), Ascii("hr"), Ascii("img"), Ascii("input"),
     Ascii("link"), Ascii("meta"), Ascii("param"), Ascii("source"), Ascii("track"), Ascii("wbr")]
  }

  function RawTextTags(): seq<Bytes> {
    [Ascii("script"), Ascii("style"), Ascii("textarea"), Ascii("title")]
  }

  /** What a tag's content is: none, text up to its closing tag, or nodes. */
  datatype Content = NoContent | RawText | Nodes

  function ContentOf(tag: Bytes): Content {
    if Listed(LowerAll(tag), VoidTags()) then NoContent
    else if Listed(LowerAll(tag), RawTextTags()) then RawText
    else Nodes
  }

  function SkipBlanks(s: Bytes): (r: Bytes)
    ensures |r| <= |s|
  {
    if s != [] && Blank(s[0]) then SkipBlanks(s[1..]) else s
  }

  /** The name at the front of the text. */
  function NameAt(s: Bytes): (r: Bytes)
    ensures |r| <= |s|
  {
    if s == [] || EndsName(s[0]) then [] else [s[0]] + NameAt(s[1..])
  }

  // ---- Attributes ------------------------------------------------------------

  function UnquotedAt(s: Bytes): (r: Bytes)
    ensures |r| <= |s|
  {
    if s == [] || Blank(s[0]) || s[0] == GT || s[0] == SLASH then [] else [s[0]] + UnquotedAt(s[1..])
  }

  function ReadValue(s: Bytes): (r: Read<Bytes>)
    ensures |r.rest| <= |s|
  {
    if s == [] then Read([], s)
    else if s[0] == QUOTE || s[0] == APOSTROPHE then
      var value := Before(s[1..], s[0]);
      Read(value, if |value| < |s| - 1 then s[|value| + 2..] else [])
    else
      var value := UnquotedAt(s);
      Read(value, s[|value|..])
  }

  /** One attribute: its name is at the front of the text. */
  function ReadAttr(s: Bytes): (r: Read<Attr>)
    requires NameAt(s) != []
    ensures |r.rest| < |s|
  {
    var name := NameAt(s);
    var after := SkipBlanks(s[|name|..]);
    if after != [] && after[0] == EQUALS then
      var value := ReadValue(SkipBlanks(after[1..]));
      Read(Attr(name, value.value), value.rest)
    else Read(Attr(name, []), after)
  }

  lemma AttrIs(here: Bytes, name: Bytes, after: Bytes)
    requires name == NameAt(here) && name != [] && after == SkipBlanks(here[|name|..])
    ensures ReadAttr(here) ==
            if after != [] && after[0] == EQUALS then
              var value := ReadValue(SkipBlanks(after[1..]));
              Read(Attr(name, value.value), value.rest)
            else Read(Attr(name, []), after)
  {
  }

  datatype TagEnd = TagEnd(attrs: seq<Attr>, selfClosing: bool)

  /** Attributes up to the end of the tag; nothing if the tag has none. */
  function ReadAttrs(text: Bytes): (r: Option<Read<TagEnd>>)
    ensures r.Some? ==> |r.value.rest| < |text|
    decreases |text|
  {
    var s := SkipBlanks(text);
    if s == [] then None
    else if s[0] == GT then Some(Read(TagEnd([], false), s[1..]))
    else if SELF_CLOSE <= s then Some(Read(TagEnd([], true), s[2..]))
    else if NameAt(s) == [] then ReadAttrs(s[1..])
    else
      var attr := ReadAttr(s);
      match ReadAttrs(attr.rest)
      case None => None
      case Some(Read(end, rest)) => Some(Read(TagEnd([attr.value] + end.attrs, end.selfClosing), rest))
  }

  // ---- Text ------------------------------------------------------------------

  predicate HasInline(raw: Bytes) {
    Find(raw, INLINE_ESCAPED).Some? || Find(raw, INLINE_RAW).Some?
  }

  function CompileText(raw: Bytes): Dom {
    if HasInline(raw) then Inline(raw) else Text(raw)
  }

  /** A closing tag for `tag` starts here: its name, then a blank, `>` or the end. */
  predicate ClosesRaw(tag: Bytes, s: Bytes) {
    && CLOSE_TAG <= s && 2 + |tag| <= |s| && SameIgnoringCase(s[2..2 + |tag|], tag)
    && (|s| == 2 + |tag| || s[2 + |tag|] == GT || Blank(s[2 + |tag|]))
  }

  /** The content of a raw-text element: up to its closing tag, or everything. */
  function RawContent(tag: Bytes, s: Bytes): (r: Bytes)
    ensures |r| <= |s|
  {
    if s == [] || ClosesRaw(tag, s) then [] else [s[0]] + RawContent(tag, s[1..])
  }

  // ---- Nodes -----------------------------------------------------------------

  const TH: Bytes := [116, 104, 58]
  const XMLNS_TH: Bytes := [120, 109, 108, 110, 115, 58, 116, 104]

  function StaticAttrs(raw: seq<Attr>): seq<Attr> {
    if raw == [] then []
    else if raw[0].name == XMLNS_TH || TH <= raw[0].name then StaticAttrs(raw[1..])
    else [raw[0]] + StaticAttrs(raw[1..])
  }

  function Directives(raw: seq<Attr>): seq<Attr> {
    if raw == [] then []
    else if raw[0].name != XMLNS_TH && TH <= raw[0].name then
      [Attr(raw[0].name[3..], raw[0].value)] + Directives(raw[1..])
    else Directives(raw[1..])
  }

  function BuildElement(tag: Bytes, isVoid: bool, raw: seq<Attr>, children: seq<Dom>): Dom {
    Element(tag, isVoid, StaticAttrs(raw), Directives(raw), children)
  }

  /** Past the closing tag, if one is there. */
  function SkipClose(s: Bytes): (r: Bytes)
    ensures |r| <= |s|
  {
    if CLOSE_TAG <= s then
      var after := SkipBlanks(s[2 + |NameAt(s[2..])|..]);
      if after != [] && after[0] == GT then after[1..] else after
    else s
  }

  function ReadComment(s: Bytes): (r: Option<Read<Dom>>)
    requires COMMENT_OPEN <= s
    ensures r.Some? ==> |r.value.rest| < |s|
  {
    match Find(s[4..], COMMENT_CLOSE)
    case None => None
    case Some(i) => Some(Read(Comment(s[4..4 + i]), s[4 + i + 3..]))
  }

  function ReadDeclaration(s: Bytes): (r: Option<Read<Dom>>)
    requires DECLARATION_OPEN <= s
    ensures r.Some? ==> |r.value.rest| < |s|
  {
    var decl := Before(s, GT);
    if |decl| == |s| then None else Some(Read(Declaration(decl + [GT]), s[|decl| + 1..]))
  }

  function ReadText(s: Bytes): (r: Read<Dom>)
    requires s != [] && s[0] != LT
    ensures |r.rest| < |s|
  {
    var raw := Before(s, LT);
    Read(CompileText(raw), s[|raw|..])
  }

  function ReadElement(s: Bytes): (r: Option<Read<Dom>>)
    requires s != [] && s[0] == LT
    ensures r.Some? ==> |r.value.rest| < |s|
    decreases |s|, 0
  {
    var tag := NameAt(s[1..]);
    if tag == [] then None
    else
      match ReadAttrs(s[1 + |tag|..])
      case None => None
      case Some(Read(end, rest)) =>
        ReadBody(tag, end.attrs, if end.selfClosing then NoContent else ContentOf(tag), rest)
  }

  /** The content of an element and its closing tag. */
  function ReadBody(tag: Bytes, attrs: seq<Attr>, content: Content, s: Bytes): (r: Option<Read<Dom>>)
    ensures r.Some? ==> |r.value.rest| <= |s|
    decreases |s|, 3
  {
    match content
    case NoContent => Some(Read(BuildElement(tag, true, attrs, []), s))
    case RawText =>
      var text := RawContent(LowerAll(tag), s);
      Some(Read(BuildElement(tag, false, attrs, [CompileText(text)]), SkipClose(s[|text|..])))
    case Nodes =>
      match ReadNodes(s)
      case None => None
      case Some(Read(children, rest)) => Some(Read(BuildElement(tag, false, attrs, children), SkipClose(rest)))
  }

  function ReadNode(s: Bytes): (r: Option<Read<Dom>>)
    requires s != []
    ensures r.Some? ==> |r.value.rest| < |s|
    decreases |s|, 1
  {
    if s[0] != LT then Some(ReadText(s))
    else if COMMENT_OPEN <= s then ReadComment(s)
    else if DECLARATION_OPEN <= s then ReadDeclaration(s)
    else ReadElement(s)
  }

  /** Siblings, up to a closing tag or the end. */
  function ReadNodes(s: Bytes): (r: Option<Read<seq<Dom>>>)
    ensures r.Some? ==> |r.value.rest| <= |s|
    decreases |s|, 2
  {
    if s == [] || CLOSE_TAG <= s then Some(Read([], s))
    else
      match ReadNode(s)
      case None => None
      case Some(Read(node, rest)) =>
        match ReadNodes(rest)
        case None => None
        case Some(Read(nodes, rest')) => Some(Read([node] + nodes, rest'))
  }

  // ---- Expressions and directives --------------------------------------------

  /** What the parsers of expressions and of `th:authorize` accept. */
  datatype Syntax = Syntax(expr: Bytes -> bool, authorize: Bytes -> bool)

  datatype InlineStep = NoMore | Unclosed | Part(before: Bytes, escaped: bool, expr: Bytes, rest: Bytes)

  /** The next `[[…]]` or `[(…)]` of a text, with what is before and after it. */
  function NextInline(raw: Bytes): (step: InlineStep)
    ensures step.Part? ==> |step.rest| < |raw|
  {
    var escaped, plain := Find(raw, INLINE_ESCAPED), Find(raw, INLINE_RAW);
    if escaped.None? && plain.None? then NoMore
    else
      var isEscaped := escaped.Some? && (plain.None? || escaped.value < plain.value);
      var at := if isEscaped then escaped.value else plain.value;
      var after := raw[at + 2..];
      match Find(after, if isEscaped then INLINE_ESCAPED_CLOSE else INLINE_RAW_CLOSE)
      case None => Unclosed
      case Some(end) => Part(raw[..at], isEscaped, Trim(after[..end]), after[end + 2..])
  }

  /** Every inline part of a text is closed and holds an expression. */
  predicate InlineOk(syn: Syntax, raw: Bytes)
    decreases |raw|
  {
    match NextInline(raw)
    case NoMore => true
    case Unclosed => false
    case Part(_, _, expr, rest) => syn.expr(expr) && InlineOk(syn, rest)
  }

  datatype Each = Each(variable: Bytes, items: Bytes)

  /** `item : ${items}`, the iteration status variable dropped. */
  function ParseEach(value: Bytes): Option<Each> {
    var head := Before(value, COLON);
    var variable := Trim(Before(Trim(head), 44));
    if |head| == |value| || variable == [] then None else Some(Each(variable, Trim(value[|head| + 1..])))
  }

  /** A directive's value is one its name calls for. */
  predicate DirectiveOk(syn: Syntax, d: Attr) {
    if d.name == Ascii("each") then ParseEach(d.value).Some? && syn.expr(ParseEach(d.value).value.items)
    else if d.name == Ascii("authorize") then syn.authorize(d.value)
    else d.name in [Ascii("inline"), Ascii("fragment"), Ascii("insert"), Ascii("replace")] || syn.expr(d.value)
  }

  predicate DirectivesOk(syn: Syntax, ds: seq<Attr>) {
    ds == [] || (DirectiveOk(syn, ds[0]) && DirectivesOk(syn, ds[1..]))
  }

  /** Nothing in the node keeps a template from being added. */
  predicate Compiles(syn: Syntax, node: Dom) {
    match node
    case Inline(raw) => InlineOk(syn, raw)
    case Element(_, _, _, ds, children) => DirectivesOk(syn, ds) && CompilesAll(syn, children)
    case _ => true
  }

  predicate CompilesAll(syn: Syntax, nodes: seq<Dom>) {
    nodes == [] || (Compiles(syn, nodes[0]) && CompilesAll(syn, nodes[1..]))
  }

  /** What is read, if it compiles. */
  function Compiled(syn: Syntax, r: Option<Read<Dom>>): Option<Read<Dom>> {
    if r.Some? && Compiles(syn, r.value.value) then r else None
  }

  function CompiledAll(syn: Syntax, r: Option<Read<seq<Dom>>>): Option<Read<seq<Dom>>> {
    if r.Some? && CompilesAll(syn, r.value.value) then r else None
  }

  // ---- Writing ---------------------------------------------------------------

  function EscapeByte(b: byte): (r: Bytes)
    ensures r != [] && (|r| == 1 ==> r == [b] && b != QUOTE)
  {
    if b == 38 then Ascii("&amp;")
    else if b == LT then Ascii("&lt;")
    else if b == GT then Ascii("&gt;")
    else if b == QUOTE then Ascii("&quot;")
    else if b == APOSTROPHE then Ascii("&#x27;")
    else [b]
  }

  /** `escape_html_into`. */
  function Escape(s: Bytes): Bytes {
    if s == [] then [] else EscapeByte(s[0]) + Escape(s[1..])
  }

  function WriteAttr(a: Attr): Bytes {
    [SPACE] + a.name + [EQUALS, QUOTE] + Escape(a.value) + [QUOTE]
  }

  function WriteAttrs(attrs: seq<Attr>): Bytes {
    if attrs == [] then [] else WriteAttr(attrs[0]) + WriteAttrs(attrs[1..])
  }

  function OpenTag(tag: Bytes, attrs: seq<Attr>): Bytes {
    [LT] + tag + WriteAttrs(attrs) + [GT]
  }

  function CloseTag(tag: Bytes): Bytes {
    CLOSE_TAG + tag + [GT]
  }

  /** What rendering writes for a node without directives. */
  function Write(node: Dom): Bytes {
    match node
    case Text(t) => t
    case Inline(raw) => raw
    case Comment(c) => COMMENT_OPEN + c + COMMENT_CLOSE
    case Declaration(d) => d
    case Element(tag, isVoid, attrs, _, children) =>
      if isVoid then OpenTag(tag, attrs) else OpenTag(tag, attrs) + WriteAll(children) + CloseTag(tag)
  }

  function WriteAll(nodes: seq<Dom>): Bytes {
    if nodes == [] then [] else Write(nodes[0]) + WriteAll(nodes[1..])
  }

  // ---- Templates as they are spelled -----------------------------------------

  function SourceAttr(a: Attr): Bytes {
    [SPACE] + a.name + [EQUALS, QUOTE] + a.value + [QUOTE]
  }

  function SourceAttrs(attrs: seq<Attr>): Bytes {
    if attrs == [] then [] else SourceAttr(attrs[0]) + SourceAttrs(attrs[1..])
  }

  function SourceTag(tag: Bytes, raw: seq<Attr>): Bytes {
    [LT] + tag + SourceAttrs(raw) + [GT]
  }

  /** A directive as the attribute that spells it. */
  function Spelled(directives: seq<Attr>): seq<Attr> {
    if directives == [] then []
    else [Attr(TH + directives[0].name, directives[0].value)] + Spelled(directives[1..])
  }

  /** The text of a template, directives and inline expressions included. */
  function Source(node: Dom): Bytes {
    match node
    case Text(t) => t
    case Inline(raw) => raw
    case Comment(c) => COMMENT_OPEN + c + COMMENT_CLOSE
    case Declaration(d) => d
    case Element(tag, isVoid, attrs, directives, children) =>
      var open := SourceTag(tag, attrs + Spelled(directives));
      if isVoid then open else open + SourceAll(children) + CloseTag(tag)
  }

  function SourceAll(nodes: seq<Dom>): Bytes {
    if nodes == [] then [] else Source(nodes[0]) + SourceAll(nodes[1..])
  }

  // ---- Canonical DOMs --------------------------------------------------------

  predicate NameOk(name: Bytes) {
    name != [] && forall i :: 0 <= i < |name| ==> !EndsName(name[i])
  }

  predicate TagOk(tag: Bytes) {
    NameOk(tag) && tag[0] != BANG
  }

  /** An attribute that can be spelled in double quotes. */
  predicate SpelledOk(a: Attr) {
    NameOk(a.name) && QUOTE !in a.value
  }

  predicate StaticOk(a: Attr) {
    SpelledOk(a) && a.name != XMLNS_TH && !(TH <= a.name)
  }

  /** A text run: plain, or with inline expressions. */
  predicate IsRun(node: Dom) {
    (node.Text? && !HasInline(node.text)) || (node.Inline? && HasInline(node.raw))
  }

  function RunText(node: Dom): Bytes
    requires IsRun(node)
  {
    if node.Text? then node.text else node.raw
  }

  /** Nothing in the text closes the element before its end. */
  predicate NoCloser(tag: Bytes, text: Bytes) {
    forall i :: 0 <= i < |text| ==> !(|text| > i + 2 + |tag| && ClosesRaw(LowerAll(tag), text[i..]))
  }

  /** A template node that its own text spells. */
  predicate Template(node: Dom) {
    match node
    case Text(t) => IsRun(node) && t != [] && LT !in t
    case Inline(t) => IsRun(node) && t != [] && LT !in t
    case Comment(c) => Find(c, COMMENT_CLOSE).None?
    case Declaration(d) =>
      DECLARATION_OPEN <= d && !(COMMENT_OPEN <= d) && d[|d| - 1] == GT && GT !in d[..|d| - 1]
    case Element(tag, isVoid, attrs, directives, children) =>
      && TagOk(tag) && (forall i :: 0 <= i < |attrs| ==> StaticOk(attrs[i]))
      && (forall i :: 0 <= i < |directives| ==> SpelledOk(Attr(TH + directives[i].name, directives[i].value)))
      && isVoid == (ContentOf(tag) == NoContent)
      && match ContentOf(tag)
         case NoContent => children == []
         case RawText => |children| == 1 && IsRun(children[0]) && NoCloser(tag, RunText(children[0]))
         case Nodes => TemplateAll(children)
  }

  /** Template siblings, no two text runs in a row. */
  predicate TemplateAll(nodes: seq<Dom>) {
    nodes == [] ||
    (Template(nodes[0]) && TemplateAll(nodes[1..]) && (|nodes| > 1 && IsRun(nodes[0]) ==> !IsRun(nodes[1])))
  }

  /** Nothing in the DOM is a directive, an inline expression or changed by escaping. */
  predicate Plain(node: Dom) {
    match node
    case Inline(_) => false
    case Element(_, _, attrs, directives, children) =>
      && directives == [] && (forall i :: 0 <= i < |attrs| ==> Escape(attrs[i].value) == attrs[i].value)
      && PlainAll(children)
    case _ => true
  }

  predicate PlainAll(nodes: seq<Dom>) {
    nodes == [] || (Plain(nodes[0]) && PlainAll(nodes[1..]))
  }

  predicate CanonicalAll(nodes: seq<Dom>) {
    TemplateAll(nodes) && PlainAll(nodes)
  }
}
