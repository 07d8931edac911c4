/**
 Reading the text of a template, directives and inline expressions included, gives its DOM
 (`SourceReadsBack`). So reading what rendering writes for a plain one gives that back.
 */
module MarkupRoundTrip {
  import opened Common
  import opened Text
  import opened Markup

  // ---- Names and blanks ------------------------------------------------------

  lemma {:induction false} NameReads(name: Bytes, rest: Bytes)
    requires forall i :: 0 <= i < |name| ==> !EndsName(name[i])
    requires rest == [] || EndsName(rest[0])
    ensures NameAt(name + rest) == name
  {
    if name == [] {
      assert name + rest == rest;
    } else {
      NameReads(name[1..], rest);
      assert (name + rest)[1..] == name[1..] + rest;
      assert name == [name[0]] + name[1..];
    }
  }

  lemma NoBlanks(s: Bytes)
    requires s == [] || !Blank(s[0])
    ensures SkipBlanks(s) == s
  {
  }

  // ---- Attributes ------------------------------------------------------------

  lemma QuotedReads(value: Bytes, rest: Bytes)
    requires QUOTE !in value
    ensures ReadValue([QUOTE] + value + [QUOTE] + rest) == Read(value, rest)
  {
    var s := [QUOTE] + value + [QUOTE] + rest;
    BeforeStops(value, QUOTE, rest);
    assert s[1..] == value + [QUOTE] + rest && s[|value| + 2..] == rest;
  }

  lemma AttrReads(a: Attr, rest: Bytes)
    requires SpelledOk(a)
    ensures NameAt((SourceAttr(a) + rest)[1..]) == a.name && ReadAttr((SourceAttr(a) + rest)[1..]) == Read(a, rest)
  {
    var tail := [QUOTE] + a.value + [QUOTE] + rest;
    AttrShape(a.name, a.value, rest);
    NameReads(a.name, [EQUALS] + tail);
    QuotedReads(a.value, rest);
    ValueReads(a.name, a.value, tail, rest);
  }

  lemma AttrShape(name: Bytes, value: Bytes, rest: Bytes)
    ensures ([SPACE] + name + [EQUALS, QUOTE] + value + [QUOTE] + rest)[1..] ==
      name + ([EQUALS] + ([QUOTE] + value + [QUOTE] + rest))
  {
  }

  lemma ValueReads(name: Bytes, value: Bytes, tail: Bytes, rest: Bytes)
    requires name != [] && NameAt(name + ([EQUALS] + tail)) == name && ReadValue(tail) == Read(value, rest)
    requires tail != [] && !Blank(tail[0])
    ensures ReadAttr(name + ([EQUALS] + tail)) == Read(Attr(name, value), rest)
  {
    var s, after := name + ([EQUALS] + tail), [EQUALS] + tail;
    assert s[|name|..] == after && after[1..] == tail;
    NoBlanks(after);
    NoBlanks(tail);
    AttrIs(s, name, after);
  }

  lemma {:induction false} AttrsRead(attrs: seq<Attr>, rest: Bytes)
    requires forall i :: 0 <= i < |attrs| ==> SpelledOk(attrs[i])
    ensures ReadAttrs(SourceAttrs(attrs) + [GT] + rest) == Some(Read(TagEnd(attrs, false), rest))
    decreases |attrs|
  {
    var text := SourceAttrs(attrs) + [GT] + rest;
    if attrs == [] {
      assert text == [GT] + rest && text[1..] == rest;
    } else {
      var a, more := attrs[0], SourceAttrs(attrs[1..]) + [GT] + rest;
      AttrsRead(attrs[1..], rest);
      AttrFirst(a, more, attrs[1..], rest);
      assert text == SourceAttr(a) + more;
      assert attrs == [a] + attrs[1..];
    }
  }

  lemma AttrFirst(a: Attr, more: Bytes, others: seq<Attr>, rest: Bytes)
    requires SpelledOk(a) && ReadAttrs(more) == Some(Read(TagEnd(others, false), rest))
    ensures ReadAttrs(SourceAttr(a) + more) == Some(Read(TagEnd([a] + others, false), rest))
  {
    AttrReads(a, more);
    AttrFollowed(SourceAttr(a) + more, a, more, others, rest);
  }

  lemma AttrFollowed(text: Bytes, a: Attr, more: Bytes, others: seq<Attr>, rest: Bytes)
    requires |text| >= 2 && text[0] == SPACE && !EndsName(text[1])
    requires NameAt(text[1..]) != [] && ReadAttr(text[1..]) == Read(a, more) &&
      ReadAttrs(more) == Some(Read(TagEnd(others, false), rest))
    ensures ReadAttrs(text) == Some(Read(TagEnd([a] + others, false), rest))
  {
    NoBlanks(text[1..]);
    assert SkipBlanks(text) == text[1..];
  }

  // ---- Static attributes and directives --------------------------------------

  /**
   `raw` holds the static attributes and, spelled with `th:`, the directives, each kind in
   its order; the namespace declaration may be anywhere.
   */
  predicate Merged(raw: seq<Attr>, statics: seq<Attr>, directives: seq<Attr>) {
    if raw == [] then statics == [] && directives == []
    else if raw[0].name == XMLNS_TH then Merged(raw[1..], statics, directives)
    else if TH <= raw[0].name then
      directives != [] && raw[0] == Attr(TH + directives[0].name, directives[0].value) &&
      Merged(raw[1..], statics, directives[1..])
    else statics != [] && raw[0] == statics[0] && Merged(raw[1..], statics[1..], directives)
  }

  /** An element is built of just what its attributes merge. */
  lemma {:induction false} MergeIsSplit(raw: seq<Attr>, statics: seq<Attr>, directives: seq<Attr>)
    requires Merged(raw, statics, directives)
    ensures StaticAttrs(raw) == statics && Directives(raw) == directives
    decreases |raw|
  {
    if raw == [] {
    } else if raw[0].name == XMLNS_TH {
      MergeIsSplit(raw[1..], statics, directives);
    } else if TH <= raw[0].name {
      MergeIsSplit(raw[1..], statics, directives[1..]);
      assert directives == [directives[0]] + directives[1..] && raw[0].name[3..] == directives[0].name;
    } else {
      MergeIsSplit(raw[1..], statics[1..], directives);
      assert statics == [statics[0]] + statics[1..];
    }
  }

  lemma {:induction false} SpelledMerges(directives: seq<Attr>)
    ensures Merged(Spelled(directives), [], directives)
  {
    if directives != [] {
      SpelledMerges(directives[1..]);
      var first := Spelled(directives)[0];
      assert first.name[0] == TH[0] != XMLNS_TH[0];
      assert Spelled(directives)[1..] == Spelled(directives[1..]);
    }
  }

  /** First the static ones, then the directives. */
  lemma {:induction false} BothMerge(statics: seq<Attr>, directives: seq<Attr>)
    requires forall i :: 0 <= i < |statics| ==> StaticOk(statics[i])
    ensures Merged(statics + Spelled(directives), statics, directives)
    decreases |statics|
  {
    if statics == [] {
      SpelledMerges(directives);
      assert statics + Spelled(directives) == Spelled(directives);
    } else {
      BothMerge(statics[1..], directives);
      assert (statics + Spelled(directives))[1..] == statics[1..] + Spelled(directives);
    }
  }

  lemma {:induction false} SpelledAreOk(directives: seq<Attr>)
    requires forall i :: 0 <= i < |directives| ==> SpelledOk(Attr(TH + directives[i].name, directives[i].value))
    ensures forall i :: 0 <= i < |Spelled(directives)| ==> SpelledOk(Spelled(directives)[i])
  {
    if directives != [] { SpelledAreOk(directives[1..]); }
  }

  // ---- Tags ------------------------------------------------------------------

  /** The attributes' text starts with a blank, or there is none. */
  lemma AttrsStart(attrs: seq<Attr>)
    ensures SourceAttrs(attrs) != [] ==> SourceAttrs(attrs)[0] == SPACE
  {
  }

  lemma OpenShape(tag: Bytes, attrs: seq<Attr>, rest: Bytes)
    ensures SourceTag(tag, attrs) + rest == [LT] + (tag + (SourceAttrs(attrs) + [GT] + rest))
  {
  }

  lemma TailEndsName(attrs: seq<Attr>, rest: Bytes)
    ensures EndsName((SourceAttrs(attrs) + [GT] + rest)[0])
  {
    AttrsStart(attrs);
  }

  lemma OpenReads(tag: Bytes, attrs: seq<Attr>, rest: Bytes)
    requires TagOk(tag) && forall i :: 0 <= i < |attrs| ==> SpelledOk(attrs[i])
    ensures var s := SourceTag(tag, attrs) + rest;
            && s[0] == LT && s[1] != SLASH && s[1] != BANG && NameAt(s[1..]) == tag
            && ReadAttrs(s[1 + |tag|..]) == Some(Read(TagEnd(attrs, false), rest))
  {
    var tail := SourceAttrs(attrs) + [GT] + rest;
    OpenShape(tag, attrs, rest);
    TailEndsName(attrs, rest);
    NameReads(tag, tail);
    AttrsRead(attrs, rest);
    OpenSlices(tag, tail);
  }

  lemma OpenSlices(tag: Bytes, tail: Bytes)
    requires TagOk(tag)
    ensures var s := [LT] + (tag + tail);
            s[0] == LT && s[1] != SLASH && s[1] != BANG && s[1..] == tag + tail && s[1 + |tag|..] == tail
  {
    var s := [LT] + (tag + tail);
    assert s[1] == tag[0];
  }

  lemma CloseReads(tag: Bytes, rest: Bytes)
    requires TagOk(tag)
    ensures SkipClose(CloseTag(tag) + rest) == rest
  {
    var s := CloseTag(tag) + rest;
    assert s[2..] == tag + ([GT] + rest);
    NameReads(tag, [GT] + rest);
    assert s[2 + |tag|..] == [GT] + rest;
    NoBlanks([GT] + rest);
  }

  // ---- Leaves ----------------------------------------------------------------

  lemma CommentReads(c: Bytes, rest: Bytes)
    requires Find(c, COMMENT_CLOSE).None?
    ensures ReadComment(COMMENT_OPEN + c + COMMENT_CLOSE + rest) == Some(Read(Comment(c), rest))
  {
    var s, body := COMMENT_OPEN + c + COMMENT_CLOSE + rest, c + COMMENT_CLOSE + rest;
    assert s[4..] == body;
    FindIsFirst(c, COMMENT_CLOSE);
    assert OccursAt(body, COMMENT_CLOSE, |c|) by { assert body[|c|..|c| + 3] == COMMENT_CLOSE; }
    forall j: nat | j < |c| ensures !OccursAt(body, COMMENT_CLOSE, j) {
      if j + 3 <= |c| {
        assert body[j..j + 3] == c[j..j + 3];
        assert !OccursAt(c, COMMENT_CLOSE, j);
      } else {
        assert body[j..j + 3][2] == body[j + 2] == COMMENT_CLOSE[j + 2 - |c|];
      }
    }
    FindIs(body, COMMENT_CLOSE, |c|);
    assert s[4..4 + |c|] == c && s[4 + |c| + 3..] == rest;
  }

  lemma DeclarationReads(d: Bytes, rest: Bytes)
    requires Template(Declaration(d))
    ensures ReadDeclaration(d + rest) == Some(Read(Declaration(d), rest))
  {
    var front := d[..|d| - 1];
    assert d + rest == front + [GT] + rest;
    BeforeStops(front, GT, rest);
    assert front + [GT] == d;
  }

  lemma TextReads(t: Bytes, rest: Bytes)
    requires t != [] && LT !in t && (rest == [] || rest[0] == LT)
    ensures t + rest != [] && (t + rest)[0] != LT && ReadText(t + rest) == Read(CompileText(t), rest)
  {
    assert t[0] in t;
    if rest == [] {
      BeforeStops(t, LT, []);
      assert t + rest == t;
    } else {
      assert rest == [LT] + rest[1..] && t + rest == t + [LT] + rest[1..];
      BeforeStops(t, LT, rest[1..]);
    }
  }

  // ---- Raw text --------------------------------------------------------------

  /** The closing tag closes, and nothing in the text before it does. */
  lemma RawCloses(tag: Bytes, rest: Bytes)
    requires TagOk(tag)
    ensures ClosesRaw(LowerAll(tag), CloseTag(tag) + rest)
  {
    var s := CloseTag(tag) + rest;
    assert s[2..2 + |tag|] == tag && s[2 + |tag|] == GT;
    LowerTwice(tag);
  }

  lemma RawStays(tag: Bytes, text: Bytes, rest: Bytes)
    requires TagOk(tag) && text != [] && LT !in tag
    requires !(|text| > 2 + |tag| && ClosesRaw(LowerAll(tag), text))
    ensures !ClosesRaw(LowerAll(tag), text + CloseTag(tag) + rest)
  {
    var s, low := text + CloseTag(tag) + rest, LowerAll(tag);
    if |text| > 2 + |tag| {
      assert s[2..2 + |tag|] == text[2..2 + |tag|] && s[..2] == text[..2];
    } else if |text| == 2 + |tag| {
      assert s[2 + |tag|] == LT;
    } else if |text| >= 2 {
      var i := |text| - 2;
      assert s[2..2 + |tag|][i] == s[|text|] == LT;
      assert LowerAll(s[2..2 + |tag|])[i] == LT;
      assert LowerAll(low)[i] == Lower(Lower(tag[i]));
      assert tag[i] in tag;
    } else {
      assert s[1] == LT;
    }
  }

  lemma NoCloserTail(tag: Bytes, text: Bytes)
    requires text != [] && NoCloser(tag, text)
    ensures NoCloser(tag, text[1..]) && !(|text| > 2 + |tag| && ClosesRaw(LowerAll(tag), text))
  {
    var tail := text[1..];
    assert text[0..] == text;
    forall i | 0 <= i < |tail| ensures !(|tail| > i + 2 + |tag| && ClosesRaw(LowerAll(tag), tail[i..])) {
      assert tail[i..] == text[i + 1..];
    }
  }

  lemma ContentStep(low: Bytes, s: Bytes, text: Bytes)
    requires s != [] && text != [] && s[0] == text[0] && !ClosesRaw(low, s) && RawContent(low, s[1..]) == text[1..]
    ensures RawContent(low, s) == text
  {
    assert text == [text[0]] + text[1..];
  }

  lemma TailShape(text: Bytes, close: Bytes, rest: Bytes)
    requires text != []
    ensures (text + close + rest)[1..] == text[1..] + close + rest && (text + close + rest)[0] == text[0]
  {
  }

  lemma {:induction false} RawReads(tag: Bytes, text: Bytes, rest: Bytes)
    requires TagOk(tag) && LT !in tag && NoCloser(tag, text)
    ensures RawContent(LowerAll(tag), text + CloseTag(tag) + rest) == text
    decreases |text|
  {
    var s := text + CloseTag(tag) + rest;
    if text == [] {
      assert s == CloseTag(tag) + rest;
      RawCloses(tag, rest);
    } else {
      NoCloserTail(tag, text);
      RawStays(tag, text, rest);
      RawReads(tag, text[1..], rest);
      TailShape(text, CloseTag(tag), rest);
      ContentStep(LowerAll(tag), s, text);
    }
  }

  lemma {:induction false} ListedIsPlain(tag: Bytes, names: seq<Bytes>)
    requires Listed(tag, names) && forall i :: 0 <= i < |names| ==> LT !in names[i]
    ensures LT !in tag
  {
    if tag != names[0] { ListedIsPlain(tag, names[1..]); }
  }

  lemma RawTagsArePlain()
    ensures forall i :: 0 <= i < |RawTextTags()| ==> LT !in RawTextTags()[i]
  {
    var names := RawTextTags();
    assert LT !in names[0] && LT !in names[1] && LT !in names[2] && LT !in names[3];
  }

  /** A raw-text tag has no `<` in it. */
  lemma RawTagIsPlain(tag: Bytes)
    requires Listed(LowerAll(tag), RawTextTags())
    ensures LT !in tag
  {
    RawTagsArePlain();
    ListedIsPlain(LowerAll(tag), RawTextTags());
    forall i | 0 <= i < |tag| ensures tag[i] != LT {
      assert LowerAll(tag)[i] in LowerAll(tag) && LowerAll(tag)[i] == Lower(tag[i]);
    }
  }

  // ---- Nodes -----------------------------------------------------------------

  /** The text after a run of siblings: nothing, or a closing tag. */
  predicate Stops(rest: Bytes) {
    rest == [] || CLOSE_TAG <= rest
  }

  /** What a node's text starts with. */
  lemma NodeStart(node: Dom, rest: Bytes)
    requires Template(node)
    ensures Source(node) != [] && !(CLOSE_TAG <= Source(node) + rest)
    ensures (Source(node) + rest)[0] == LT <==> !IsRun(node)
  {
    match node
    case Text(t) => assert t[0] in t && (Source(node) + rest)[0] == t[0];
    case Inline(t) => assert t[0] in t && (Source(node) + rest)[0] == t[0];
    case Comment(c) => assert (Source(node) + rest)[1] == 33;
    case Declaration(d) => assert (Source(node) + rest)[0] == 60 && (Source(node) + rest)[1] == 33;
    case Element(_, _, _, _, _) => ElementStart(node, rest);
  }

  function RawOf(node: Dom): seq<Attr>
    requires node.Element?
  {
    node.attrs + Spelled(node.directives)
  }

  /** An element's text behind its opening tag. */
  function Behind(node: Dom): Bytes
    requires node.Element?
  {
    if node.isVoid then [] else SourceAll(node.children) + CloseTag(node.tag)
  }

  lemma SourceIsOpen(node: Dom)
    requires node.Element?
    ensures Source(node) == SourceTag(node.tag, RawOf(node)) + Behind(node)
  {
    if node.isVoid {
      assert SourceTag(node.tag, RawOf(node)) + [] == SourceTag(node.tag, RawOf(node));
    } else {
      Assoc(SourceTag(node.tag, RawOf(node)), SourceAll(node.children), CloseTag(node.tag));
    }
  }

  lemma ElementStart(node: Dom, rest: Bytes)
    requires Template(node) && node.Element?
    ensures var s := Source(node) + rest; Source(node) != [] && |s| >= 2 && s[0] == LT && s[1] != SLASH && s[1] != BANG
  {
    SourceIsOpen(node);
    OpenStart(node.tag, RawOf(node), Behind(node));
    StartStays(Source(node), rest);
  }

  lemma StartStays(s: Bytes, rest: Bytes)
    requires |s| >= 2
    ensures (s + rest)[0] == s[0] && (s + rest)[1] == s[1]
  {
  }

  lemma {:induction false} LeafReads(node: Dom, rest: Bytes)
    requires Template(node) && !node.Element? && (IsRun(node) ==> rest == [] || rest[0] == LT)
    ensures ReadNode(Source(node) + rest) == Some(Read(node, rest))
  {
    NodeStart(node, rest);
    match node
    case Text(t) => TextReads(t, rest);
    case Inline(t) => TextReads(t, rest);
    case Comment(c) =>
      CommentReads(c, rest);
      assert COMMENT_OPEN <= Source(node) + rest;
    case Declaration(d) =>
      DeclarationReads(d, rest);
      assert DECLARATION_OPEN <= d + rest;
      if |d| < 4 { assert (d + rest)[2] == d[2]; } else { assert (d + rest)[..4] == d[..4]; }
  }

  /** After the open tag an element is its body. */
  lemma ElementIsBody(tag: Bytes, raw: seq<Attr>, rest: Bytes)
    requires TagOk(tag) && forall i :: 0 <= i < |raw| ==> SpelledOk(raw[i])
    ensures var s := SourceTag(tag, raw) + rest;
            s[0] == LT && ReadElement(s) == ReadBody(tag, raw, ContentOf(tag), rest)
  {
    OpenReads(tag, raw, rest);
  }

  /** An element's text: its open tag and the rest. */
  function BodyText(tag: Bytes, content: Content, children: seq<Dom>, rest: Bytes): Bytes {
    if content == NoContent then rest else SourceAll(children) + CloseTag(tag) + rest
  }

  lemma SourceShape(node: Dom, rest: Bytes)
    requires node.Element? && node.isVoid == (ContentOf(node.tag) == NoContent)
    ensures Source(node) + rest ==
            SourceTag(node.tag, RawOf(node)) + BodyText(node.tag, ContentOf(node.tag), node.children, rest)
  {
    Regroup(SourceTag(node.tag, RawOf(node)), SourceAll(node.children), CloseTag(node.tag), rest);
  }

  lemma Regroup(a: Bytes, b: Bytes, c: Bytes, d: Bytes)
    ensures a + b + c + d == a + (b + c + d)
  {
  }

  lemma {:induction false} ElementReads(node: Dom, rest: Bytes)
    requires Template(node) && node.Element?
    ensures ReadElement(Source(node) + rest) == Some(Read(node, rest))
    decreases node, 1
  {
    SourceShape(node, rest);
    RawIsOk(node);
    ElementIsBody(node.tag, RawOf(node), BodyText(node.tag, ContentOf(node.tag), node.children, rest));
    BodyReads(node, rest);
    BothMerge(node.attrs, node.directives);
    MergeIsSplit(RawOf(node), node.attrs, node.directives);
  }

  lemma RawIsOk(node: Dom)
    requires Template(node) && node.Element?
    ensures forall i :: 0 <= i < |RawOf(node)| ==> SpelledOk(RawOf(node)[i])
  {
    SpelledAreOk(node.directives);
  }

  lemma {:induction false} BodyReads(node: Dom, rest: Bytes)
    requires Template(node) && node.Element?
    ensures ReadBody(node.tag, RawOf(node), ContentOf(node.tag),
                     BodyText(node.tag, ContentOf(node.tag), node.children, rest)) ==
            Some(Read(BuildElement(node.tag, node.isVoid, RawOf(node), node.children), rest))
    decreases node, 0
  {
    match ContentOf(node.tag)
    case NoContent =>
    case RawText =>
      RawTagIsPlain(node.tag);
      RawBodyReads(node.tag, RawOf(node), node.children, rest);
    case Nodes => NodesBodyReads(node.tag, RawOf(node), node.children, rest);
  }

  lemma {:induction false} NodesBodyReads(tag: Bytes, raw: seq<Attr>, children: seq<Dom>, rest: Bytes)
    requires TagOk(tag) && TemplateAll(children)
    ensures ReadBody(tag, raw, Nodes, SourceAll(children) + CloseTag(tag) + rest) ==
            Some(Read(BuildElement(tag, false, raw, children), rest))
    decreases children, 2
  {
    var close := CloseTag(tag) + rest;
    assert SourceAll(children) + CloseTag(tag) + rest == SourceAll(children) + close;
    NodesRead(children, close);
    CloseReads(tag, rest);
  }

  lemma RawBodyReads(tag: Bytes, raw: seq<Attr>, children: seq<Dom>, rest: Bytes)
    requires TagOk(tag) && LT !in tag && |children| == 1 && IsRun(children[0])
    requires NoCloser(tag, RunText(children[0]))
    ensures ReadBody(tag, raw, RawText, SourceAll(children) + CloseTag(tag) + rest) ==
            Some(Read(BuildElement(tag, false, raw, children), rest))
  {
    var text, close := RunText(children[0]), CloseTag(tag) + rest;
    assert SourceAll(children) == text by { assert text + [] == text; }
    RawReads(tag, text, rest);
    assert (text + CloseTag(tag) + rest)[|text|..] == close;
    CloseReads(tag, rest);
    assert children == [CompileText(text)];
  }

  lemma {:induction false} NodesRead(nodes: seq<Dom>, rest: Bytes)
    requires TemplateAll(nodes) && Stops(rest)
    ensures ReadNodes(SourceAll(nodes) + rest) == Some(Read(nodes, rest))
    decreases nodes, 1
  {
    if nodes == [] {
      assert SourceAll(nodes) + rest == rest;
    } else {
      var more := SourceAll(nodes[1..]) + rest;
      NodesRead(nodes[1..], rest);
      if IsRun(nodes[0]) { AfterText(nodes, rest); }
      NodeReads(nodes[0], more);
      SiblingsRead(nodes, rest);
    }
  }

  lemma SiblingsRead(nodes: seq<Dom>, rest: Bytes)
    requires nodes != []
    requires var more := SourceAll(nodes[1..]) + rest;
             && Source(nodes[0]) + more != [] && !(CLOSE_TAG <= Source(nodes[0]) + more)
             && ReadNode(Source(nodes[0]) + more) == Some(Read(nodes[0], more))
             && ReadNodes(more) == Some(Read(nodes[1..], rest))
    ensures ReadNodes(SourceAll(nodes) + rest) == Some(Read(nodes, rest))
  {
    var node, others := nodes[0], nodes[1..];
    NodesStep(Source(node) + (SourceAll(others) + rest), node, SourceAll(others) + rest, others, rest);
    SourceAllStep(nodes, rest);
  }

  lemma SourceAllStep(nodes: seq<Dom>, rest: Bytes)
    requires nodes != []
    ensures SourceAll(nodes) + rest == Source(nodes[0]) + (SourceAll(nodes[1..]) + rest) &&
      nodes == [nodes[0]] + nodes[1..]
  {
    var a, b := Source(nodes[0]), SourceAll(nodes[1..]);
    assert a + b + rest == a + (b + rest);
  }

  lemma {:induction false} NodeReads(node: Dom, more: Bytes)
    requires Template(node) && (IsRun(node) ==> more == [] || more[0] == LT)
    ensures Source(node) + more != [] && !(CLOSE_TAG <= Source(node) + more)
    ensures ReadNode(Source(node) + more) == Some(Read(node, more))
    decreases node, 2
  {
    NodeStart(node, more);
    if node.Element? {
      ElementReads(node, more);
      NotLeaf(node, more);
    } else {
      LeafReads(node, more);
    }
  }

  /** Siblings are read one after the other. */
  lemma NodesStep(s: Bytes, node: Dom, more: Bytes, nodes: seq<Dom>, rest: Bytes)
    requires s != [] && !(CLOSE_TAG <= s)
    requires ReadNode(s) == Some(Read(node, more)) && ReadNodes(more) == Some(Read(nodes, rest))
    ensures ReadNodes(s) == Some(Read([node] + nodes, rest))
  {
  }

  /** An element's text is not taken for a comment or a declaration. */
  lemma NotLeaf(node: Dom, rest: Bytes)
    requires Template(node) && node.Element?
    ensures var s := Source(node) + rest; s[0] == LT && !(COMMENT_OPEN <= s) && !(DECLARATION_OPEN <= s)
  {
    ElementStart(node, rest);
    NoLeafMark(Source(node) + rest);
  }

  lemma OpenStart(tag: Bytes, raw: seq<Attr>, tail: Bytes)
    requires TagOk(tag)
    ensures var s := SourceTag(tag, raw) + tail; |s| >= 2 && s[0] == LT && s[1] == tag[0]
  {
  }

  lemma NoLeafMark(s: Bytes)
    requires |s| >= 2 && s[1] != BANG
    ensures !(COMMENT_OPEN <= s) && !(DECLARATION_OPEN <= s)
  {
  }

  /** After a text run comes markup or the end. */
  lemma AfterText(nodes: seq<Dom>, rest: Bytes)
    requires TemplateAll(nodes) && nodes != [] && IsRun(nodes[0]) && Stops(rest)
    ensures var more := SourceAll(nodes[1..]) + rest; more == [] || more[0] == LT
  {
    var others := nodes[1..];
    if others == [] {
      assert SourceAll(others) + rest == rest;
    } else {
      NodeStart(others[0], SourceAll(others[1..]) + rest);
      assert SourceAll(others) + rest == Source(others[0]) + (SourceAll(others[1..]) + rest);
    }
  }

  /** Reading a template's text gives its DOM, with all the text consumed. */
  lemma SourceReadsBack(nodes: seq<Dom>)
    requires TemplateAll(nodes)
    ensures ReadNodes(SourceAll(nodes)) == Some(Read(nodes, []))
  {
    NodesRead(nodes, []);
    assert SourceAll(nodes) + [] == SourceAll(nodes);
  }

  /** One element is all there is. */
  lemma OneElement(tag: Bytes, raw: seq<Attr>, tail: Bytes, node: Dom)
    requires TagOk(tag) && ReadElement(SourceTag(tag, raw) + tail) == Some(Read(node, []))
    ensures ReadNodes(SourceTag(tag, raw) + tail) == Some(Read([node], []))
  {
    var s := SourceTag(tag, raw) + tail;
    OpenStart(tag, raw, tail);
    NoLeafMark(s);
    assert s[1] == tag[0] && !(CLOSE_TAG <= s);
    assert ReadNode(s) == Some(Read(node, [])) && ReadNodes([]) == Some(Read([], []));
    NodesStep(s, node, [], [], []);
    assert [node] + [] == [node];
  }

  /** And so it is with the attributes of an element in any order. */
  lemma MergedReadsBack(tag: Bytes, raw: seq<Attr>, statics: seq<Attr>, directives: seq<Attr>, children: seq<Dom>)
    requires TagOk(tag) && ContentOf(tag) == Nodes && TemplateAll(children)
    requires (forall i :: 0 <= i < |raw| ==> SpelledOk(raw[i])) && Merged(raw, statics, directives)
    ensures ReadNodes(SourceTag(tag, raw) + (SourceAll(children) + CloseTag(tag))) ==
            Some(Read([Element(tag, false, statics, directives, children)], []))
  {
    var body := SourceAll(children) + CloseTag(tag);
    assert body + [] == body;
    ElementIsBody(tag, raw, body);
    NodesBodyReads(tag, raw, children, []);
    MergeIsSplit(raw, statics, directives);
    OneElement(tag, raw, body, Element(tag, false, statics, directives, children));
  }

  // ---- Plain templates -------------------------------------------------------

  lemma {:induction false} PlainAttrs(attrs: seq<Attr>)
    requires forall i :: 0 <= i < |attrs| ==> Escape(attrs[i].value) == attrs[i].value
    ensures WriteAttrs(attrs) == SourceAttrs(attrs)
  {
    if attrs != [] { PlainAttrs(attrs[1..]); }
  }

  lemma {:induction false} PlainIsSource(nodes: seq<Dom>)
    requires PlainAll(nodes)
    ensures WriteAll(nodes) == SourceAll(nodes)
    decreases nodes, 0
  {
    if nodes != [] {
      PlainNodeIsSource(nodes[0]);
      PlainIsSource(nodes[1..]);
    }
  }

  lemma {:induction false} PlainNodeIsSource(node: Dom)
    requires Plain(node)
    ensures Write(node) == Source(node)
    decreases node, 1
  {
    if node.Element? {
      PlainAttrs(node.attrs);
      assert node.attrs + Spelled(node.directives) == node.attrs;
      PlainIsSource(node.children);
    }
  }

  /** Reading what was written gives back the DOM, with all the text consumed. */
  lemma WrittenReadsBack(nodes: seq<Dom>)
    requires CanonicalAll(nodes)
    ensures ReadNodes(WriteAll(nodes)) == Some(Read(nodes, []))
  {
    PlainIsSource(nodes);
    SourceReadsBack(nodes);
  }

  lemma {:induction false} PlainCompiles(syn: Syntax, nodes: seq<Dom>)
    requires PlainAll(nodes)
    ensures CompilesAll(syn, nodes)
    decreases nodes
  {
    if nodes != [] {
      if nodes[0].Element? { PlainCompiles(syn, nodes[0].children); }
      PlainCompiles(syn, nodes[1..]);
    }
  }

  /** Such a template can be added, whatever the expression parser accepts: it holds no expression. */
  lemma WrittenCompiles(syn: Syntax, nodes: seq<Dom>)
    requires CanonicalAll(nodes)
    ensures CompiledAll(syn, ReadNodes(WriteAll(nodes))) == Some(Read(nodes, []))
  {
    WrittenReadsBack(nodes);
    PlainCompiles(syn, nodes);
  }
}
