/**
 The template parser as it runs (crates/kernleaf/src/lib.rs:579-807): a position in the
 text moved forward by loops. Each method is proved against the function of the text
 ahead in `Markup`.
 */
module MarkupParser {
  import opened Common
  import opened Text
  import opened Markup

  /** Nodes already read in front of what is read next. */
  function After<T>(before: seq<T>, r: Option<Read<seq<T>>>): Option<Read<seq<T>>> {
    match r
    case None => None
    case Some(Read(more, rest)) => Some(Read(before + more, rest))
  }

  function AttrsAfter(before: seq<Attr>, r: Option<Read<TagEnd>>): Option<Read<TagEnd>> {
    match r
    case None => None
    case Some(Read(end, rest)) => Some(Read(TagEnd(before + end.attrs, end.selfClosing), rest))
  }

  lemma AttrsAfterStep(before: seq<Attr>, a: Attr, r: Option<Read<TagEnd>>)
    ensures AttrsAfter(before, match r
                               case None => None
                               case Some(Read(end, rest)) =>
                                 Some(Read(TagEnd([a] + end.attrs, end.selfClosing), rest))) ==
            AttrsAfter(before + [a], r)
  {
    if r.Some? { assert before + ([a] + r.value.value.attrs) == before + [a] + r.value.value.attrs; }
  }

  lemma {:induction false} BlanksSkipped(s: Bytes)
    ensures SkipBlanks(s) == [] || !Blank(SkipBlanks(s)[0])
    ensures SkipBlanks(SkipBlanks(s)) == SkipBlanks(s)
  {
    if s != [] && Blank(s[0]) { BlanksSkipped(s[1..]); }
  }

  /** Blanks in front of attributes do not matter. */
  lemma AttrsSkip(s: Bytes)
    ensures ReadAttrs(s) == ReadAttrs(SkipBlanks(s))
  {
    BlanksSkipped(s);
  }

  /** One attribute in front of the rest. */
  lemma AttrsStep(before: seq<Attr>, s: Bytes)
    requires s != [] && !EndsName(s[0])
    ensures var a := ReadAttr(s); AttrsAfter(before, ReadAttrs(s)) == AttrsAfter(before + [a.value], ReadAttrs(a.rest))
  {
    var a := ReadAttr(s);
    AttrsAfterStep(before, a.value, ReadAttrs(a.rest));
  }

  /** What can stand where a tag may end, and is no attribute. */
  lemma TagStep(before: seq<Attr>, here: Bytes)
    requires here != [] && !Blank(here[0])
    ensures here[0] == GT ==> AttrsAfter(before, ReadAttrs(here)) == Some(Read(TagEnd(before, false), here[1..]))
    ensures SELF_CLOSE <= here ==> AttrsAfter(before, ReadAttrs(here)) == Some(Read(TagEnd(before, true), here[2..]))
    ensures EndsName(here[0]) && here[0] != GT && !(SELF_CLOSE <= here) ==>
      AttrsAfter(before, ReadAttrs(here)) == AttrsAfter(before, ReadAttrs(here[1..]))
  {
    assert SkipBlanks(here) == here;
    assert before + [] == before;
  }

  lemma ElementIs(here: Bytes, tag: Bytes)
    requires here != [] && here[0] == LT && tag == NameAt(here[1..]) && tag != []
    ensures ReadElement(here) ==
            match ReadAttrs(here[1 + |tag|..])
            case None => None
            case Some(Read(end, rest)) =>
              ReadBody(tag, end.attrs, if end.selfClosing then NoContent else ContentOf(tag), rest)
  {
  }

  lemma CloseIs(here: Bytes, name: Bytes, after: Bytes)
    requires CLOSE_TAG <= here && name == NameAt(here[2..]) && after == SkipBlanks(here[2 + |name|..])
    ensures SkipClose(here) == if after != [] && after[0] == GT then after[1..] else after
  {
  }

  // ---- Scanning: how far a loop has still to go ------------------------------

  lemma PassedIs(s: Bytes, start: nat, pos: nat, whole: Bytes)
    requires start <= pos <= |s| && whole <= s[start..] && |whole| == pos - start
    ensures whole == s[start..pos]
  {
    assert s[start..pos] == s[start..][..pos - start];
  }

  lemma {:induction false} NameIsPrefix(s: Bytes)
    ensures NameAt(s) <= s
  {
    if s != [] && !EndsName(s[0]) { NameIsPrefix(s[1..]); }
  }

  lemma {:induction false} UnquotedIsPrefix(s: Bytes)
    ensures UnquotedAt(s) <= s
  {
    if s != [] && !(Blank(s[0]) || s[0] == GT || s[0] == SLASH) { UnquotedIsPrefix(s[1..]); }
  }

  lemma {:induction false} RawIsPrefix(tag: Bytes, s: Bytes)
    ensures RawContent(tag, s) <= s
  {
    if s != [] && !ClosesRaw(tag, s) { RawIsPrefix(tag, s[1..]); }
  }

  lemma NameStep(s: Bytes, pos: nat)
    requires pos <= |s|
    ensures |NameAt(s[pos..])| == if pos < |s| && !EndsName(s[pos]) then 1 + |NameAt(s[pos + 1..])| else 0
  {
    var here := s[pos..];
    if pos < |s| { assert here[1..] == s[pos + 1..]; }
  }

  lemma TextStep(s: Bytes, pos: nat, stop: byte)
    requires pos <= |s|
    ensures |Before(s[pos..], stop)| == if pos < |s| && s[pos] != stop then 1 + |Before(s[pos + 1..], stop)| else 0
  {
    var here := s[pos..];
    if pos < |s| { assert here[1..] == s[pos + 1..]; }
  }

  lemma UnquotedStep(s: Bytes, pos: nat)
    requires pos <= |s|
    ensures |UnquotedAt(s[pos..])| ==
            if pos < |s| && !(Blank(s[pos]) || s[pos] == GT || s[pos] == SLASH) then 1 + |UnquotedAt(s[pos + 1..])|
            else 0
  {
    var here := s[pos..];
    if pos < |s| { assert here[1..] == s[pos + 1..]; }
  }

  lemma RawStep(s: Bytes, pos: nat, tag: Bytes)
    requires pos <= |s|
    ensures |RawContent(tag, s[pos..])| ==
            if pos < |s| && !ClosesRaw(tag, s[pos..]) then 1 + |RawContent(tag, s[pos + 1..])| else 0
  {
    var here := s[pos..];
    if pos < |s| { assert here[1..] == s[pos + 1..]; }
  }

  // ---- Errors of expressions and directives ----------------------------------

  /** The check of `compile_text`: part by part. */
  method CompileInline(syn: Syntax, raw: Bytes) returns (ok: bool)
    ensures ok == InlineOk(syn, raw)
  {
    var rest := raw;
    while true
      invariant InlineOk(syn, rest) == InlineOk(syn, raw)
      decreases |rest|
    {
      match NextInline(rest) {
        case NoMore => return true;
        case Unclosed => return false;
        case Part(_, _, expr, more) =>
          if !syn.expr(expr) { return false; }
          rest := more;
      }
    }
    assert false;
  }

  /** `compile_text`: plain text, or inline parts that compile. */
  method CompileTextNode(syn: Syntax, raw: Bytes) returns (r: Option<Dom>)
    ensures r == if Compiles(syn, CompileText(raw)) then Some(CompileText(raw)) else None
  {
    var ok := true;
    if HasInline(raw) { ok := CompileInline(syn, raw); }
    r := if ok then Some(CompileText(raw)) else None;
  }

  /** `build_element`: fails at the first directive whose value does not parse. */
  method BuildElementNode(syn: Syntax, tag: Bytes, isVoid: bool, attrs: seq<Attr>, children: seq<Dom>)
      returns (r: Option<Dom>)
    requires CompilesAll(syn, children)
    ensures var node := BuildElement(tag, isVoid, attrs, children);
            r == if Compiles(syn, node) then Some(node) else None
  {
    var ds := Directives(attrs);
    assert ds[0..] == ds;
    for i := 0 to |ds|
      invariant DirectivesOk(syn, ds[i..]) == DirectivesOk(syn, ds)
    {
      assert ds[i..][1..] == ds[i + 1..];
      if !DirectiveOk(syn, ds[i]) { return None; }
    }
    r := Some(BuildElement(tag, isVoid, attrs, children));
  }

  lemma OneCompiles(syn: Syntax, node: Dom)
    ensures CompilesAll(syn, [node]) == Compiles(syn, node)
  {
    assert [node][1..] == [];
  }

  /** One node in front of the rest, both compiled. */
  lemma NodesAfterStep(syn: Syntax, before: seq<Dom>, here: Bytes)
    requires here != [] && !(CLOSE_TAG <= here)
    ensures var first := Compiled(syn, ReadNode(here));
            After(before, CompiledAll(syn, ReadNodes(here))) ==
            if first.None? then None
            else After(before + [first.value.value], CompiledAll(syn, ReadNodes(first.value.rest)))
  {
    var node := ReadNode(here);
    if node.Some? {
      var first, more := node.value.value, ReadNodes(node.value.rest);
      if more.Some? {
        assert ([first] + more.value.value)[1..] == more.value.value;
        assert before + ([first] + more.value.value) == before + [first] + more.value.value;
      }
    }
  }

  class Parser {
    const s: Bytes
    const syn: Syntax
    var pos: nat

    constructor (source: Bytes, syn: Syntax)
      ensures s == source && this.syn == syn && pos == 0
    {
      s, this.syn, pos := source, syn, 0;
    }

    /** The result and the position are what `spec` says. */
    ghost predicate Gives<T>(r: Option<T>, spec: Option<Read<T>>)
      reads this`pos
    {
      pos <= |s| && (r.None? <==> spec.None?) && (r.Some? ==> spec == Some(Read(r.value, s[pos..])))
    }

    ghost function Ahead(): Bytes
      requires pos <= |s|
      reads this`pos
    {
      s[pos..]
    }

    predicate StartsWith(pat: Bytes)
      requires pos <= |s|
      reads this`pos
      ensures StartsWith(pat) <==> pat <= Ahead()
    {
      pos + |pat| <= |s| && s[pos..pos + |pat|] == pat
    }

    method SkipWs()
      requires pos <= |s|
      modifies this`pos
      ensures old(pos) <= pos <= |s| && Ahead() == SkipBlanks(old(Ahead()))
    {
      while pos < |s| && Blank(s[pos])
        invariant old(pos) <= pos <= |s| && SkipBlanks(s[pos..]) == SkipBlanks(old(Ahead()))
        decreases |s| - pos
      {
        assert s[pos..][1..] == s[pos + 1..];
        pos := pos + 1;
      }
    }

    method ReadNameHere() returns (name: Bytes)
      requires pos <= |s|
      modifies this`pos
      ensures pos <= |s| && pos == old(pos) + |name| && name == NameAt(old(Ahead()))
    {
      var start := pos;
      ghost var whole := NameAt(s[start..]);
      while pos < |s| && !EndsName(s[pos])
        invariant start <= pos <= |s| && |whole| == pos - start + |NameAt(s[pos..])|
        decreases |s| - pos
      {
        NameStep(s, pos);
        pos := pos + 1;
      }
      NameStep(s, pos);
      NameIsPrefix(s[start..]);
      PassedIs(s, start, pos, whole);
      name := s[start..pos];
    }

    /** Text up to `stop` or the end. */
    method ReadUntil(stop: byte) returns (text: Bytes)
      requires pos <= |s|
      modifies this`pos
      ensures pos <= |s| && pos == old(pos) + |text| && text == Before(old(Ahead()), stop)
    {
      var start := pos;
      ScanTo(stop);
      BeforeIs(s[start..], stop);
      PassedIs(s, start, pos, Before(s[start..], stop));
      text := s[start..pos];
    }

    method ScanTo(stop: byte)
      requires pos <= |s|
      modifies this`pos
      ensures old(pos) <= pos <= |s| && pos - old(pos) == |Before(old(Ahead()), stop)|
    {
      ghost var goal := |Before(s[pos..], stop)|;
      while pos < |s| && s[pos] != stop
        invariant old(pos) <= pos <= |s| && pos - old(pos) + |Before(s[pos..], stop)| == goal
        decreases |s| - pos
      {
        TextStep(s, pos, stop);
        pos := pos + 1;
      }
      TextStep(s, pos, stop);
    }

    method ReadUnquoted() returns (value: Bytes)
      requires pos <= |s|
      modifies this`pos
      ensures pos <= |s| && pos == old(pos) + |value| && value == UnquotedAt(old(Ahead()))
    {
      var start := pos;
      ghost var whole := UnquotedAt(s[start..]);
      while pos < |s| && !(Blank(s[pos]) || s[pos] == GT || s[pos] == SLASH)
        invariant start <= pos <= |s| && |whole| == pos - start + |UnquotedAt(s[pos..])|
        decreases |s| - pos
      {
        UnquotedStep(s, pos);
        pos := pos + 1;
      }
      UnquotedStep(s, pos);
      UnquotedIsPrefix(s[start..]);
      PassedIs(s, start, pos, whole);
      value := s[start..pos];
    }

    method ReadAttrValue() returns (value: Bytes)
      requires pos <= |s|
      modifies this`pos
      ensures old(pos) <= pos <= |s| && Read(value, Ahead()) == ReadValue(old(Ahead()))
    {
      if pos == |s| { return []; }
      var quote := s[pos];
      if quote == QUOTE || quote == APOSTROPHE {
        assert s[pos..][1..] == s[pos + 1..];
        pos := pos + 1;
        value := ReadUntil(quote);
        if pos < |s| { pos := pos + 1; }
      } else {
        value := ReadUnquoted();
      }
    }

    /** The value behind an equals sign. */
    method ReadAssigned() returns (value: Bytes)
      requires pos <= |s|
      modifies this`pos
      ensures old(pos) <= pos <= |s| && Read(value, Ahead()) == ReadValue(SkipBlanks(old(Ahead())))
    {
      SkipWs();
      value := ReadAttrValue();
    }

    /** An attribute's name and the blanks behind it. */
    method ReadAttrName() returns (name: Bytes)
      requires pos <= |s|
      modifies this`pos
      ensures old(pos) <= pos <= |s| && name == NameAt(old(Ahead())) && Ahead() == SkipBlanks(old(Ahead())[|name|..])
    {
      ghost var here := Ahead();
      name := ReadNameHere();
      assert here[|name|..] == Ahead();
      SkipWs();
    }

    method ReadOneAttr() returns (a: Attr)
      requires pos <= |s| && NameAt(Ahead()) != []
      modifies this`pos
      ensures old(pos) <= pos <= |s| && Read(a, Ahead()) == ReadAttr(old(Ahead()))
    {
      ghost var here := Ahead();
      var name := ReadAttrName();
      ghost var after := Ahead();
      AttrIs(here, name, after);
      if pos < |s| && s[pos] == EQUALS {
        assert after[1..] == s[pos + 1..];
        pos := pos + 1;
        var value := ReadAssigned();
        return Attr(name, value);
      }
      return Attr(name, []);
    }

    /** One attribute, a stray character, or the end of the tag. */
    method ReadTagPiece(before: seq<Attr>) returns (end: Option<TagEnd>, attrs: seq<Attr>)
      requires pos < |s| && !Blank(s[pos])
      modifies this`pos
      ensures old(pos) < pos <= |s|
      ensures AttrsAfter(before, ReadAttrs(old(Ahead()))) ==
              if end.Some? then Some(Read(end.value, Ahead())) else AttrsAfter(attrs, ReadAttrs(Ahead()))
    {
      ghost var here := s[pos..];
      end, attrs := None, before;
      TagStep(before, here);
      if s[pos] == GT {
        assert here[1..] == s[pos + 1..];
        pos := pos + 1;
        return Some(TagEnd(before, false)), before;
      }
      if StartsWith(SELF_CLOSE) {
        assert here[2..] == s[pos + 2..];
        pos := pos + 2;
        return Some(TagEnd(before, true)), before;
      }
      if EndsName(s[pos]) {
        assert here[1..] == s[pos + 1..];
        pos := pos + 1;
      } else {
        AttrsStep(before, here);
        var a := ReadOneAttr();
        attrs := before + [a];
      }
    }

    method ReadTagEnd() returns (r: Option<TagEnd>)
      requires pos <= |s|
      modifies this`pos
      ensures old(pos) <= pos <= |s| && (r.None? <==> ReadAttrs(old(Ahead())).None?)
      ensures r.Some? ==> ReadAttrs(old(Ahead())) == Some(Read(r.value, Ahead()))
    {
      ghost var all := ReadAttrs(Ahead());
      var attrs: seq<Attr> := [];
      if all.Some? { assert [] + all.value.value.attrs == all.value.value.attrs; }
      while true
        invariant old(pos) <= pos <= |s| && AttrsAfter(attrs, ReadAttrs(s[pos..])) == all
        decreases |s| - pos
      {
        AttrsSkip(s[pos..]);
        BlanksSkipped(s[pos..]);
        SkipWs();
        if pos == |s| { return None; }
        r, attrs := ReadTagPiece(attrs);
        if r.Some? { return; }
      }
    }

    method ReadTextNode() returns (r: Option<Dom>)
      requires pos < |s| && s[pos] != LT
      modifies this`pos
      ensures Gives(r, Compiled(syn, Some(ReadText(old(Ahead())))))
    {
      var raw := ReadUntil(LT);
      r := CompileTextNode(syn, raw);
    }

    method ReadRawTextNode(tag: Bytes) returns (r: Option<Dom>)
      requires pos <= |s|
      modifies this`pos
      ensures old(pos) <= pos <= |s| && pos == old(pos) + |RawContent(tag, old(Ahead()))|
      ensures var node := CompileText(RawContent(tag, old(Ahead())));
              r == if Compiles(syn, node) then Some(node) else None
    {
      var start, i := pos, pos;
      ghost var whole := RawContent(tag, s[start..]);
      while i < |s| && !ClosesRaw(tag, s[i..])
        invariant start <= i <= |s| && |whole| == i - start + |RawContent(tag, s[i..])|
        decreases |s| - i
      {
        RawStep(s, i, tag);
        i := i + 1;
      }
      RawStep(s, i, tag);
      RawIsPrefix(tag, s[start..]);
      PassedIs(s, start, i, whole);
      pos := i;
      r := CompileTextNode(syn, s[start..i]);
    }

    method ReadCommentNode() returns (r: Option<Dom>)
      requires pos <= |s| && COMMENT_OPEN <= Ahead()
      modifies this`pos
      ensures pos <= |s| && (r.None? <==> ReadComment(old(Ahead())).None?)
      ensures r.Some? ==> ReadComment(old(Ahead())) == Some(Read(r.value, Ahead()))
    {
      ghost var here := Ahead();
      var start := pos + 4;
      assert s[start..] == here[4..];
      var end := Find(s[start..], COMMENT_CLOSE);
      if end.None? { return None; }
      var body := s[start..start + end.value];
      assert body == here[4..4 + end.value] && s[start + end.value + 3..] == here[4 + end.value + 3..];
      pos := start + end.value + 3;
      return Some(Comment(body));
    }

    method ReadDeclarationNode() returns (r: Option<Dom>)
      requires pos <= |s| && DECLARATION_OPEN <= Ahead()
      modifies this`pos
      ensures pos <= |s| && (r.None? <==> ReadDeclaration(old(Ahead())).None?)
      ensures r.Some? ==> ReadDeclaration(old(Ahead())) == Some(Read(r.value, Ahead()))
    {
      var start := pos;
      var text := ReadUntil(GT);
      if pos == |s| { return None; }
      assert s[start..][|text| + 1..] == s[pos + 1..];
      pos := pos + 1;
      return Some(Declaration(text + [GT]));
    }

    method ConsumeClose()
      requires pos <= |s|
      modifies this`pos
      ensures old(pos) <= pos <= |s| && Ahead() == SkipClose(old(Ahead()))
    {
      ghost var here := Ahead();
      if StartsWith(CLOSE_TAG) {
        assert s[pos + 2..] == here[2..];
        pos := pos + 2;
        var name := ReadNameHere();
        assert here[2 + |name|..] == s[pos..];
        SkipWs();
        CloseIs(here, name, Ahead());
        if pos < |s| && s[pos] == GT {
          assert s[pos..][1..] == s[pos + 1..];
          pos := pos + 1;
        }
      }
    }

    method ReadElementNode() returns (r: Option<Dom>)
      requires pos < |s| && s[pos] == LT
      modifies this`pos
      ensures Gives(r, Compiled(syn, ReadElement(old(Ahead()))))
      decreases |s| - pos, 0
    {
      ghost var here := Ahead();
      var tag := ReadTag();
      if tag == [] { return None; }
      ElementIs(here, tag);
      var end := ReadTagEnd();
      if end.None? { return None; }
      r := ReadElementBody(tag, end.value.attrs, if end.value.selfClosing then NoContent else ContentOf(tag));
    }

    /** The name behind a `<`. */
    method ReadTag() returns (tag: Bytes)
      requires pos < |s|
      modifies this`pos
      ensures old(pos) < pos <= |s| && tag == NameAt(old(Ahead())[1..]) && Ahead() == old(Ahead())[1 + |tag|..]
    {
      ghost var here := Ahead();
      assert s[pos + 1..] == here[1..];
      pos := pos + 1;
      tag := ReadNameHere();
      assert here[1 + |tag|..] == s[pos..];
    }

    method ReadElementBody(tag: Bytes, attrs: seq<Attr>, content: Content) returns (r: Option<Dom>)
      requires pos <= |s|
      modifies this`pos
      ensures Gives(r, Compiled(syn, ReadBody(tag, attrs, content, old(Ahead()))))
      decreases |s| - pos, 4
    {
      ghost var here := Ahead();
      match content {
        case NoContent =>
          r := BuildElementNode(syn, tag, true, attrs, []);
        case RawText =>
          var text := ReadRawTextNode(LowerAll(tag));
          OneCompiles(syn, CompileText(RawContent(LowerAll(tag), here)));
          assert s[pos..] == here[|RawContent(LowerAll(tag), here)|..];
          if text.None? { return None; }
          ConsumeClose();
          r := BuildElementNode(syn, tag, false, attrs, [text.value]);
        case Nodes =>
          var children := ParseNodes();
          if children.None? { return None; }
          ConsumeClose();
          r := BuildElementNode(syn, tag, false, attrs, children.value);
      }
    }

    method ParseNode() returns (r: Option<Dom>)
      requires pos < |s|
      modifies this`pos
      ensures Gives(r, Compiled(syn, ReadNode(old(Ahead()))))
      decreases |s| - pos, 1
    {
      if s[pos] != LT {
        r := ReadTextNode();
      } else if StartsWith(COMMENT_OPEN) {
        r := ReadCommentNode();
      } else if StartsWith(DECLARATION_OPEN) {
        r := ReadDeclarationNode();
      } else {
        r := ReadElementNode();
      }
    }

    /** Nodes next to each other, up to the next `</` or the end of the text. */
    method ParseNodes() returns (r: Option<seq<Dom>>)
      requires pos <= |s|
      modifies this`pos
      ensures Gives(r, CompiledAll(syn, ReadNodes(old(Ahead()))))
      decreases |s| - pos, 3
    {
      ghost var all := CompiledAll(syn, ReadNodes(Ahead()));
      var nodes: seq<Dom> := [];
      if all.Some? { assert [] + all.value.value == all.value.value; }
      while pos < |s| && !StartsWith(CLOSE_TAG)
        invariant old(pos) <= pos <= |s| && After(nodes, CompiledAll(syn, ReadNodes(s[pos..]))) == all
        decreases |s| - pos
      {
        var more := ParseSibling(nodes, all);
        if more.None? { return None; }
        nodes := more.value;
      }
      assert nodes + [] == nodes;
      return Some(nodes);
    }

    /** One more sibling. */
    method ParseSibling(nodes: seq<Dom>, ghost all: Option<Read<seq<Dom>>>) returns (r: Option<seq<Dom>>)
      requires pos < |s| && !(CLOSE_TAG <= Ahead()) && After(nodes, CompiledAll(syn, ReadNodes(Ahead()))) == all
      modifies this`pos
      ensures r.None? ==> pos <= |s| && all.None?
      ensures r.Some? ==> old(pos) < pos <= |s| && After(r.value, CompiledAll(syn, ReadNodes(Ahead()))) == all
      decreases |s| - pos, 2
    {
      NodesAfterStep(syn, nodes, Ahead());
      var node := ParseNode();
      if node.None? { return None; }
      return Some(nodes + [node.value]);
    }
  }

  /** `Kernleaf::add`: the nodes of a template, read once, if everything in it compiles. */
  method ParseTemplate(source: Bytes, syn: Syntax) returns (r: Option<seq<Dom>>)
    ensures r == match CompiledAll(syn, ReadNodes(source)) case None => None case Some(Read(nodes, _)) => Some(nodes)
  {
    var p := new Parser(source, syn);
    assert source[0..] == source;
    r := p.ParseNodes();
  }
}
