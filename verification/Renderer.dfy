/**
 The renderer as it runs (crates/kernleaf/src/lib.rs:318-499): it appends to an output
 and pushes and pops loop variables on a scope. Each method is proved against the
 functions of `Rendering`; in particular it leaves the scope as it found it, on success
 and on error.
 */
module Renderer {
  import opened Common
  import opened Text
  import opened Markup
  import opened MarkupRoundTrip
  import opened Rendering

  class Walk {
    const env: Env
    const ts: Templates
    var out: Bytes
    var scope: Scope

    constructor (env: Env, ts: Templates)
      ensures this.env == env && this.ts == ts && out == [] && scope == []
    {
      this.env, this.ts, out, scope := env, ts, [], [];
    }

    method Nodes(nodes: seq<Dom>, mode: Mode, depth: nat) returns (ok: bool)
      requires depth <= MAX_FRAGMENT_DEPTH
      modifies this`out, this`scope
      ensures scope == old(scope)
      ensures Output(out, ok) == Then(Output(old(out), true), RenderNodes(env, ts, nodes, old(scope), mode, depth))
      decreases MAX_FRAGMENT_DEPTH - depth, nodes, 0
    {
      assert nodes[0..] == nodes;
      ghost var goal := Then(Output(out, true), RenderNodes(env, ts, nodes, scope, mode, depth));
      for i := 0 to |nodes|
        invariant scope == old(scope)
        invariant Then(Output(out, true), RenderNodes(env, ts, nodes[i..], scope, mode, depth)) == goal
      {
        SiblingsStep(env, ts, nodes, i, scope, mode, depth, out);
        ok := Node(nodes[i], mode, depth);
        if !ok { return; }
      }
      assert out + [] == out;
      ok := true;
    }

    method Node(node: Dom, mode: Mode, depth: nat) returns (ok: bool)
      requires depth <= MAX_FRAGMENT_DEPTH
      modifies this`out, this`scope
      ensures scope == old(scope)
      ensures Output(out, ok) == Then(Output(old(out), true), RenderNode(env, ts, node, old(scope), mode, depth))
      decreases MAX_FRAGMENT_DEPTH - depth, node, 4
    {
      match node
      case Text(t) => out := out + t; ok := true;
      case Inline(raw) =>
        InlineText(raw, mode);
        ok := true;
      case Comment(c) =>
        assert out + (COMMENT_OPEN + c + COMMENT_CLOSE) == out + COMMENT_OPEN + c + COMMENT_CLOSE;
        out := out + COMMENT_OPEN;
        out := out + c;
        out := out + COMMENT_CLOSE;
        ok := true;
      case Declaration(d) => out := out + d; ok := true;
      case Element(_, _, _, directives, _) =>
        var each := ViewOf(directives).each;
        if each.None? {
          ok := Instance(node, mode, depth);
        } else {
          var items := env.eval(each.value.items, scope).items;
          if items.Some? {
            ok := Loop(node, each.value.variable, items.value, mode, depth);
          } else {
            assert out + [] == out;
            ok := true;
          }
        }
    }

    /** An inline text, part by part. */
    method InlineText(raw: Bytes, mode: Mode)
      modifies this`out
      ensures out == old(out) + RenderInline(env, raw, scope, mode)
    {
      ghost var goal := out + RenderInline(env, raw, scope, mode);
      var rest := raw;
      while true
        invariant out + RenderInline(env, rest, scope, mode) == goal
        decreases |rest|
      {
        match NextInline(rest) {
          case NoMore =>
            out := out + rest;
            return;
          case Unclosed =>
            out := out + rest;
            return;
          case Part(before, escaped, expr, more) =>
            var value := env.eval(expr, scope).text;
            var written := if escaped then EscapeFor(env, mode, value) else value;
            PartShape(out, before, written, RenderInline(env, more, scope, mode));
            out := out + before + written;
            rest := more;
        }
      }
    }

    method Loop(node: Dom, variable: Bytes, items: seq<Value>, mode: Mode, depth: nat) returns (ok: bool)
      requires depth <= MAX_FRAGMENT_DEPTH && node.Element?
      modifies this`out, this`scope
      ensures scope == old(scope)
      ensures Output(out, ok) ==
              Then(Output(old(out), true), RenderLoop(env, ts, node, variable, items, old(scope), mode, depth))
      decreases MAX_FRAGMENT_DEPTH - depth, node, 3
    {
      assert items[0..] == items;
      ghost var here := scope;
      ghost var goal := Then(Output(out, true), RenderLoop(env, ts, node, variable, items, here, mode, depth));
      for i := 0 to |items|
        invariant scope == here
        invariant Then(Output(out, true), RenderLoop(env, ts, node, variable, items[i..], here, mode, depth)) == goal
      {
        LoopStep(env, ts, node, variable, items, i, here, mode, depth, out);
        scope := scope + [(variable, items[i])];
        ok := Instance(node, mode, depth);
        scope := scope[..|scope| - 1];
        if !ok { return; }
      }
      assert out + [] == out;
      ok := true;
    }

    method StaticAttributes(attrs: seq<Attr>)
      modifies this`out
      ensures out == old(out) + WriteAttrs(attrs)
    {
      ghost var all := out + WriteAttrs(attrs);
      for i := 0 to |attrs|
        invariant out + WriteAttrs(attrs[i..]) == all
      {
        ghost var rest := WriteAttrs(attrs[i + 1..]);
        assert attrs[i..][1..] == attrs[i + 1..];
        assert out + (WriteAttr(attrs[i]) + rest) == out + WriteAttr(attrs[i]) + rest;
        out := out + WriteAttr(attrs[i]);
      }
      assert out + [] == out;
    }

    method DynamicAttributes(dynamic: seq<Attr>)
      modifies this`out
      ensures out == old(out) + WriteDynamic(env, dynamic, scope)
    {
      ghost var all := out + WriteDynamic(env, dynamic, scope);
      for i := 0 to |dynamic|
        invariant out + WriteDynamic(env, dynamic[i..], scope) == all
      {
        ghost var rest := WriteDynamic(env, dynamic[i + 1..], scope);
        assert dynamic[i..][1..] == dynamic[i + 1..];
        var a := dynamic[i];
        var written := [SPACE] + a.name + [EQUALS, QUOTE] + Escape(env.eval(a.value, scope).text) + [QUOTE];
        assert out + (written + rest) == out + written + rest;
        out := out + written;
      }
      assert out + [] == out;
    }

    method Attributes(node: Dom, v: View)
      requires node.Element?
      modifies this`out
      ensures out == old(out) + Head(env, node, v, scope)
    {
      HeadShape(out, node.tag, WriteAttrs(node.attrs), WriteDynamic(env, v.dynamic, scope));
      out := out + [LT] + node.tag;
      StaticAttributes(node.attrs);
      DynamicAttributes(v.dynamic);
      out := out + [GT];
    }

    method Instance(node: Dom, mode: Mode, depth: nat) returns (ok: bool)
      requires depth <= MAX_FRAGMENT_DEPTH && node.Element?
      modifies this`out, this`scope
      ensures scope == old(scope)
      ensures Output(out, ok) == Then(Output(old(out), true), RenderInstance(env, ts, node, old(scope), mode, depth))
      decreases MAX_FRAGMENT_DEPTH - depth, node, 2
    {
      var v := ViewOf(node.directives);
      if (v.authorize.Some? && !env.allows(v.authorize.value)) ||
         (v.cond.Some? && !env.eval(v.cond.value, scope).truthy) ||
         (v.unless.Some? && env.eval(v.unless.value, scope).truthy)
      {
        assert out + [] == out;
        return true;
      }
      if v.replace.Some? {
        ok := Fragment(node, v.replace.value, mode, depth);
        return;
      }
      ok := Body(node, v, mode, depth);
    }

    method Body(node: Dom, v: View, mode: Mode, depth: nat) returns (ok: bool)
      requires depth <= MAX_FRAGMENT_DEPTH && node.Element? && v == ViewOf(node.directives)
      requires Shown(env, v, scope) && v.replace.None?
      modifies this`out, this`scope
      ensures scope == old(scope)
      ensures Output(out, ok) == Then(Output(old(out), true), RenderInstance(env, ts, node, old(scope), mode, depth))
      decreases MAX_FRAGMENT_DEPTH - depth, node, 1, 1
    {
      ghost var head, content := Head(env, node, v, scope), RenderContent(env, ts, node, scope, mode, depth);
      Assoc(out, head, TokenField(env, node));
      BodyShape(out, head + TokenField(env, node), content, CloseTag(node.tag));
      Attributes(node, v);
      if node.isVoid { return true; }
      out := out + TokenField(env, node);
      ok := Content(node, mode, depth);
      if ok { out := out + CloseTag(node.tag); }
    }

    method Content(node: Dom, mode: Mode, depth: nat) returns (ok: bool)
      requires depth <= MAX_FRAGMENT_DEPTH && node.Element?
      modifies this`out, this`scope
      ensures scope == old(scope)
      ensures Output(out, ok) == Then(Output(old(out), true), RenderContent(env, ts, node, old(scope), mode, depth))
      decreases MAX_FRAGMENT_DEPTH - depth, node, 1, 0
    {
      var v := ViewOf(node.directives);
      var childMode := if v.mode.Some? then v.mode.value else mode;
      if v.insert.Some? {
        ok := Fragment(node, v.insert.value, childMode, depth);
      } else if v.text.Some? {
        out := out + Escape(env.eval(v.text.value, scope).text);
        ok := true;
      } else if v.utext.Some? {
        out := out + env.eval(v.utext.value, scope).text;
        ok := true;
      } else {
        ok := Nodes(node.children, childMode, depth);
      }
    }

    method Fragment(host: Dom, r: FragmentRef, mode: Mode, depth: nat) returns (ok: bool)
      requires depth <= MAX_FRAGMENT_DEPTH
      modifies this`out, this`scope
      ensures scope == old(scope)
      ensures Output(out, ok) == Then(Output(old(out), true), Expand(env, ts, host, r, old(scope), mode, depth))
      decreases MAX_FRAGMENT_DEPTH - depth, host, 0
    {
      assert out + [] == out;
      if depth >= MAX_FRAGMENT_DEPTH { return false; }
      var nodes := Resolve(ts, r);
      if nodes.None? { return true; }
      ok := Nodes(nodes.value, mode, depth + 1);
    }
  }

  lemma PartShape(out: Bytes, before: Bytes, written: Bytes, rest: Bytes)
    ensures out + (before + written + rest) == out + before + written + rest
  {
  }

  lemma HeadShape(out: Bytes, tag: Bytes, attrs: Bytes, dynamic: Bytes)
    ensures out + [LT] + tag + attrs + dynamic + [GT] == out + ([LT] + tag + attrs + dynamic + [GT])
  {
  }

  lemma BodyShape(out: Bytes, head: Bytes, content: Output, close: Bytes)
    ensures out + head + content.text == out + (head + content.text)
    ensures out + head + content.text + close == out + (head + content.text + close)
  {
  }

  lemma SiblingsStep(env: Env, ts: Templates, nodes: seq<Dom>, i: nat, scope: Scope, mode: Mode, depth: nat,
                     written: Bytes)
    requires depth <= MAX_FRAGMENT_DEPTH && i < |nodes|
    ensures var first := RenderNode(env, ts, nodes[i], scope, mode, depth);
            Then(Output(written, true), RenderNodes(env, ts, nodes[i..], scope, mode, depth)) ==
            if first.ok then
              Then(Output(written + first.text, true), RenderNodes(env, ts, nodes[i + 1..], scope, mode, depth))
            else Output(written + first.text, false)
  {
    assert nodes[i..][1..] == nodes[i + 1..];
    ThenStep(written, RenderNode(env, ts, nodes[i], scope, mode, depth),
      RenderNodes(env, ts, nodes[i + 1..], scope, mode, depth));
  }

  lemma LoopStep(env: Env, ts: Templates, node: Dom, variable: Bytes, items: seq<Value>, i: nat, scope: Scope,
                 mode: Mode, depth: nat, written: Bytes)
    requires depth <= MAX_FRAGMENT_DEPTH && node.Element? && i < |items|
    ensures var first := RenderInstance(env, ts, node, scope + [(variable, items[i])], mode, depth);
            Then(Output(written, true), RenderLoop(env, ts, node, variable, items[i..], scope, mode, depth)) ==
            if first.ok then
              Then(Output(written + first.text, true),
                RenderLoop(env, ts, node, variable, items[i + 1..], scope, mode, depth))
            else Output(written + first.text, false)
  {
    assert items[i..][1..] == items[i + 1..];
    ThenStep(written, RenderInstance(env, ts, node, scope + [(variable, items[i])], mode, depth),
             RenderLoop(env, ts, node, variable, items[i + 1..], scope, mode, depth));
  }

  lemma ThenStep(written: Bytes, first: Output, rest: Output)
    ensures Then(Output(written, true), if first.ok then Then(first, rest) else first) ==
            if first.ok then Then(Output(written + first.text, true), rest) else Output(written + first.text, false)
  {
    if first.ok { assert written + (first.text + rest.text) == written + first.text + rest.text; }
  }

  // ---- Without directives, rendering is writing ------------------------------

  lemma {:induction false} PlainRenders(env: Env, ts: Templates, nodes: seq<Dom>, scope: Scope, mode: Mode, depth: nat)
    requires PlainAll(nodes) && env.csrf.None? && depth <= MAX_FRAGMENT_DEPTH
    ensures RenderNodes(env, ts, nodes, scope, mode, depth) == Output(WriteAll(nodes), true)
    decreases nodes, 0
  {
    if nodes != [] {
      PlainNodeRenders(env, ts, nodes[0], scope, mode, depth);
      PlainRenders(env, ts, nodes[1..], scope, mode, depth);
    }
  }

  lemma {:induction false} PlainNodeRenders(env: Env, ts: Templates, node: Dom, scope: Scope, mode: Mode, depth: nat)
    requires Plain(node) && env.csrf.None? && depth <= MAX_FRAGMENT_DEPTH
    ensures RenderNode(env, ts, node, scope, mode, depth) == Output(Write(node), true)
    decreases node, 1
  {
    if node.Element? {
      assert ViewOf(node.directives) == PLAIN;
      PlainHead(env, node, scope);
      if !node.isVoid {
        PlainRenders(env, ts, node.children, scope, mode, depth);
        assert RenderContent(env, ts, node, scope, mode, depth) == Output(WriteAll(node.children), true);
        assert OpenTag(node.tag, node.attrs) + TokenField(env, node) == OpenTag(node.tag, node.attrs);
      }
    }
  }

  lemma PlainHead(env: Env, node: Dom, scope: Scope)
    requires node.Element?
    ensures Head(env, node, PLAIN, scope) == OpenTag(node.tag, node.attrs)
  {
    assert [LT] + node.tag + WriteAttrs(node.attrs) + [] == [LT] + node.tag + WriteAttrs(node.attrs);
  }

  /** Rendering a canonical template without directives, no CSRF token in play, and reading the result gives it back. */
  lemma RenderedReadsBack(env: Env, ts: Templates, nodes: seq<Dom>, scope: Scope, mode: Mode)
    requires CanonicalAll(nodes) && env.csrf.None?
    ensures var r := RenderNodes(env, ts, nodes, scope, mode, 0); r.ok && ReadNodes(r.text) == Some(Read(nodes, []))
  {
    PlainRenders(env, ts, nodes, scope, mode, 0);
    WrittenReadsBack(nodes);
  }
}
