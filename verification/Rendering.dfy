/**
 Rendering (crates/kernleaf/src/lib.rs:280-499, 887-987): walking a template's nodes
 against a model, expanding fragments, at most 32 deep.

 Expressions are opaque: the environment says what the text of one evaluates to in a
 loop scope. The results are about what the walk itself decides: that it ends, what it
 leaves in the scope, and when the depth limit stops it.
 */
module Rendering {
  import opened Common
  import opened Text
  import opened Markup

  const MAX_FRAGMENT_DEPTH: nat := 32

  // ---- Directives ------------------------------------------------------------

  datatype Mode = Html | JavaScript | Css

  datatype FragmentRef = FragmentRef(template: Option<Bytes>, name: Bytes)

  /** An element's directives, sorted out. */
  datatype View = View(
    each: Option<Each>, authorize: Option<Bytes>, cond: Option<Bytes>, unless: Option<Bytes>,
    replace: Option<FragmentRef>, insert: Option<FragmentRef>, text: Option<Bytes>, utext: Option<Bytes>,
    mode: Option<Mode>, fragment: Option<Bytes>, dynamic: seq<Attr>)

  const PLAIN: View := View(None, None, None, None, None, None, None, None, None, None, [])

  function StripSuffix(s: Bytes, b: byte): Option<Bytes> {
    if s != [] && s[|s| - 1] == b then Some(s[..|s| - 1]) else None
  }

  /** `~{tpl :: name}`, `tpl :: name`, `:: name` or `tpl`; parameters are dropped. */
  function ParseFragmentRef(value: Bytes): FragmentRef {
    var v := Trim(value);
    var inner := if [126, 123] <= v then StripSuffix(v[2..], 125) else None;
    RefOf(Trim(if inner.Some? then inner.value else v))
  }

  function RefOf(r: Bytes): FragmentRef {
    match Find(r, [COLON, COLON])
    case Some(i) =>
      var tpl := Trim(r[..i]);
      FragmentRef(if tpl == [] then None else Some(tpl), FragmentName(r[i + 2..]))
    case None => FragmentRef(Some(r), [])
  }

  function FragmentName(value: Bytes): Bytes {
    Trim(Before(Trim(value), 40))
  }

  /** `trim_matches` of single quotes. */
  function Unquote(s: Bytes): Bytes {
    if s == [] then []
    else if s[0] == APOSTROPHE then Unquote(s[1..])
    else if s[|s| - 1] == APOSTROPHE then Unquote(s[..|s| - 1])
    else s
  }

  function ParseMode(value: Bytes): Mode {
    if value == Ascii("javascript") || value == Ascii("js") then JavaScript
    else if value == Ascii("css") then Css
    else Html
  }

  function Apply(v: View, d: Attr): View {
    if d.name == Ascii("text") then v.(text := Some(d.value))
    else if d.name == Ascii("utext") then v.(utext := Some(d.value))
    else if d.name == Ascii("if") then v.(cond := Some(d.value))
    else if d.name == Ascii("unless") then v.(unless := Some(d.value))
    else if d.name == Ascii("each") then (if ParseEach(d.value).Some? then v.(each := ParseEach(d.value)) else v)
    else if d.name == Ascii("inline") then v.(mode := Some(ParseMode(Unquote(Trim(d.value)))))
    else if d.name == Ascii("authorize") then v.(authorize := Some(d.value))
    else if d.name == Ascii("fragment") then v.(fragment := Some(FragmentName(d.value)))
    else if d.name == Ascii("insert") then v.(insert := Some(ParseFragmentRef(d.value)))
    else if d.name == Ascii("replace") then v.(replace := Some(ParseFragmentRef(d.value)))
    else v.(dynamic := v.dynamic + [d])
  }

  /** Directives apply in order, so the last of a kind wins. */
  function ViewOf(ds: seq<Attr>): View {
    if ds == [] then PLAIN else Apply(ViewOf(ds[..|ds| - 1]), ds[|ds| - 1])
  }

  // ---- Fragments -------------------------------------------------------------

  /** Every template, in the order a search over all of them visits them. */
  type Templates = seq<(Bytes, seq<Dom>)>

  /** The first element declared as the fragment `name`, depth first. */
  function FindFragment(nodes: seq<Dom>, name: Bytes): Option<Dom> {
    if nodes == [] then None
    else
      var node := nodes[0];
      if node.Element? && ViewOf(node.directives).fragment == Some(name) then Some(node)
      else
        var inside := if node.Element? then FindFragment(node.children, name) else None;
        if inside.Some? then inside else FindFragment(nodes[1..], name)
  }

  function Lookup(templates: Templates, name: Bytes): Option<seq<Dom>> {
    if templates == [] then None
    else if templates[0].0 == name then Some(templates[0].1)
    else Lookup(templates[1..], name)
  }

  function Search(templates: Templates, name: Bytes): Option<seq<Dom>> {
    if templates == [] then None
    else
      match FindFragment(templates[0].1, name)
      case Some(node) => Some([node])
      case None => Search(templates[1..], name)
  }

  function Resolve(templates: Templates, r: FragmentRef): Option<seq<Dom>> {
    match r.template
    case Some(t) =>
      (match Lookup(templates, t)
       case None => None
       case Some(nodes) => if r.name == [] then Some(nodes) else Search([(t, nodes)], r.name))
    case None =>
      if r.name == [] then (if templates == [] then None else Some(templates[0].1))
      else Search(templates, r.name)
  }

  // ---- The walk --------------------------------------------------------------

  datatype Value = Value(text: Bytes, truthy: bool, items: Option<seq<Value>>)

  type Scope = seq<(Bytes, Value)>

  /** What the model, the messages and the authorization facts answer, and how CSS is escaped. */
  datatype Env = Env(
    eval: (Bytes, Scope) -> Value,
    css: Bytes -> Bytes,
    allows: Bytes -> bool,
    csrf: Option<Bytes>)

  /** What was written, and whether the walk came to its end. */
  datatype Output = Output(text: Bytes, ok: bool)

  function Then(a: Output, b: Output): Output {
    if a.ok then Output(a.text + b.text, b.ok) else a
  }

  function EscapeJsByte(b: byte): Bytes {
    if b == 92 then [92, 92]
    else if b == APOSTROPHE then [92, APOSTROPHE]
    else if b == QUOTE then [92, QUOTE]
    else if b == 10 then Ascii("\\n")
    else if b == 13 then Ascii("\\r")
    else if b == 9 then Ascii("\\t")
    else if b == LT then Ascii("\\u003C")
    else if b == GT then Ascii("\\u003E")
    else if b == 38 then Ascii("\\u0026")
    else if b == SLASH then [92, SLASH]
    else [b]
  }

  /** `escape_js_into`. */
  function EscapeJs(s: Bytes): Bytes {
    if s == [] then [] else EscapeJsByte(s[0]) + EscapeJs(s[1..])
  }

  function EscapeFor(env: Env, mode: Mode, s: Bytes): Bytes {
    match mode
    case Html => Escape(s)
    case JavaScript => EscapeJs(s)
    case Css => env.css(s)
  }

  /** An inline text: what is between its parts as it is, the parts evaluated, `[[…]]` escaped for the mode. */
  function RenderInline(env: Env, raw: Bytes, scope: Scope, mode: Mode): Bytes
    decreases |raw|
  {
    match NextInline(raw)
    case NoMore => raw
    case Unclosed => raw  // no such template is added
    case Part(before, escaped, expr, rest) =>
      var value := env.eval(expr, scope).text;
      before + (if escaped then EscapeFor(env, mode, value) else value) + RenderInline(env, rest, scope, mode)
  }

  function RenderNodes(env: Env, ts: Templates, nodes: seq<Dom>, scope: Scope, mode: Mode, depth: nat): Output
    requires depth <= MAX_FRAGMENT_DEPTH
    decreases MAX_FRAGMENT_DEPTH - depth, nodes, 0
  {
    if nodes == [] then Output([], true)
    else
      var first := RenderNode(env, ts, nodes[0], scope, mode, depth);
      if first.ok then Then(first, RenderNodes(env, ts, nodes[1..], scope, mode, depth)) else first
  }

  function RenderNode(env: Env, ts: Templates, node: Dom, scope: Scope, mode: Mode, depth: nat): Output
    requires depth <= MAX_FRAGMENT_DEPTH
    decreases MAX_FRAGMENT_DEPTH - depth, node, 4
  {
    match node
    case Text(t) => Output(t, true)
    case Inline(raw) => Output(RenderInline(env, raw, scope, mode), true)
    case Comment(c) => Output(COMMENT_OPEN + c + COMMENT_CLOSE, true)
    case Declaration(d) => Output(d, true)
    case Element(_, _, _, directives, _) =>
      match ViewOf(directives).each
      case None => RenderInstance(env, ts, node, scope, mode, depth)
      case Some(each) =>
        match env.eval(each.items, scope).items
        case None => Output([], true)
        case Some(items) => RenderLoop(env, ts, node, each.variable, items, scope, mode, depth)
  }

  function RenderLoop(env: Env, ts: Templates, node: Dom, variable: Bytes, items: seq<Value>, scope: Scope, mode: Mode,
                      depth: nat): Output
    requires depth <= MAX_FRAGMENT_DEPTH && node.Element?
    decreases MAX_FRAGMENT_DEPTH - depth, node, 3, |items|
  {
    if items == [] then Output([], true)
    else
      var first := RenderInstance(env, ts, node, scope + [(variable, items[0])], mode, depth);
      if first.ok then Then(first, RenderLoop(env, ts, node, variable, items[1..], scope, mode, depth)) else first
  }

  /** `th:authorize`, `th:if` and `th:unless` let the element through. */
  predicate Shown(env: Env, v: View, scope: Scope) {
    && (v.authorize.Some? ==> env.allows(v.authorize.value))
    && (v.cond.Some? ==> env.eval(v.cond.value, scope).truthy)
    && (v.unless.Some? ==> !env.eval(v.unless.value, scope).truthy)
  }

  function WriteDynamic(env: Env, dynamic: seq<Attr>, scope: Scope): Bytes {
    if dynamic == [] then []
    else [SPACE] + dynamic[0].name + [EQUALS, QUOTE] + Escape(env.eval(dynamic[0].value, scope).text) + [QUOTE] +
         WriteDynamic(env, dynamic[1..], scope)
  }

  function Head(env: Env, node: Dom, v: View, scope: Scope): Bytes
    requires node.Element?
  {
    [LT] + node.tag + WriteAttrs(node.attrs) + WriteDynamic(env, v.dynamic, scope) + [GT]
  }

  /** The value of the first static `method` attribute, if it is one other than `get`. */
  predicate ChangesState(attrs: seq<Attr>) {
    attrs != [] &&
    if SameIgnoringCase(attrs[0].name, Ascii("method")) then !SameIgnoringCase(attrs[0].value, Ascii("get"))
    else ChangesState(attrs[1..])
  }

  /** With a token in play, a state-changing form starts with a hidden field. */
  function TokenField(env: Env, node: Dom): Bytes
    requires node.Element?
  {
    if env.csrf.Some? && SameIgnoringCase(node.tag, Ascii("form")) && ChangesState(node.attrs) then
      Ascii("<input type=\"hidden\" name=\"") + Ascii("_csrf") + Ascii("\" value=\"") + Escape(env.csrf.value) +
      [QUOTE, GT]
    else []
  }

  /** One instance of an element, its loop already resolved. */
  function RenderInstance(env: Env, ts: Templates, node: Dom, scope: Scope, mode: Mode, depth: nat): Output
    requires depth <= MAX_FRAGMENT_DEPTH && node.Element?
    decreases MAX_FRAGMENT_DEPTH - depth, node, 2
  {
    var v := ViewOf(node.directives);
    if !Shown(env, v, scope) then Output([], true)
    else if v.replace.Some? then Expand(env, ts, node, v.replace.value, scope, mode, depth)
    else
      var head := Output(Head(env, node, v, scope), true);
      if node.isVoid then head
      else
        var open := Output(Head(env, node, v, scope) + TokenField(env, node), true);
        Then(Then(open, RenderContent(env, ts, node, scope, mode, depth)), Output(CloseTag(node.tag), true))
  }

  /** The body, in precedence order: a fragment, an expression, or the children. */
  function RenderContent(env: Env, ts: Templates, node: Dom, scope: Scope, mode: Mode, depth: nat): Output
    requires depth <= MAX_FRAGMENT_DEPTH && node.Element?
    decreases MAX_FRAGMENT_DEPTH - depth, node, 1
  {
    var v := ViewOf(node.directives);
    var childMode := if v.mode.Some? then v.mode.value else mode;
    if v.insert.Some? then Expand(env, ts, node, v.insert.value, scope, childMode, depth)
    else if v.text.Some? then Output(Escape(env.eval(v.text.value, scope).text), true)
    else if v.utext.Some? then Output(env.eval(v.utext.value, scope).text, true)
    else RenderNodes(env, ts, node.children, scope, childMode, depth)
  }

  /** A fragment, one level deeper; an unknown one is nothing, one too deep is an error. */
  function Expand(env: Env, ts: Templates, host: Dom, r: FragmentRef, scope: Scope, mode: Mode, depth: nat): Output
    requires depth <= MAX_FRAGMENT_DEPTH
    decreases MAX_FRAGMENT_DEPTH - depth, host, 0
  {
    if depth >= MAX_FRAGMENT_DEPTH then Output([], false)
    else
      match Resolve(ts, r)
      case None => Output([], true)
      case Some(nodes) => RenderNodes(env, ts, nodes, scope, mode, depth + 1)
  }

  // ---- References ------------------------------------------------------------

  /** The fragment references rendering a node can come to, wherever the model leads it. */
  function Refs(node: Dom): seq<FragmentRef> {
    if !node.Element? then []
    else
      var v := ViewOf(node.directives);
      if v.replace.Some? then [v.replace.value]
      else if node.isVoid then []
      else if v.insert.Some? then [v.insert.value]
      else if v.text.Some? || v.utext.Some? then []
      else RefsAll(node.children)
  }

  function RefsAll(nodes: seq<Dom>): seq<FragmentRef> {
    if nodes == [] then [] else Refs(nodes[0]) + RefsAll(nodes[1..])
  }

  /** From these nodes a chain of `n` fragments, each referring to the next, ends in one more reference. */
  ghost predicate HasChain(ts: Templates, nodes: seq<Dom>, n: nat)
    decreases n
  {
    if n == 0 then exists r :: r in RefsAll(nodes)
    else exists r :: r in RefsAll(nodes) && Resolve(ts, r).Some? && HasChain(ts, Resolve(ts, r).value, n - 1)
  }

  /** One reference of a node leads on, or is one too many. */
  ghost predicate LeadsOn(ts: Templates, refs: seq<FragmentRef>, n: nat) {
    if n == 0 then exists r :: r in refs
    else exists r :: r in refs && Resolve(ts, r).Some? && HasChain(ts, Resolve(ts, r).value, n - 1)
  }

  // ---- Errors come from long chains only -------------------------------------

  lemma {:induction false} ErrorHasChain(env: Env, ts: Templates, nodes: seq<Dom>, scope: Scope, mode: Mode, depth: nat)
    requires depth <= MAX_FRAGMENT_DEPTH && !RenderNodes(env, ts, nodes, scope, mode, depth).ok
    ensures HasChain(ts, nodes, MAX_FRAGMENT_DEPTH - depth)
    decreases MAX_FRAGMENT_DEPTH - depth, nodes, 0
  {
    var n := MAX_FRAGMENT_DEPTH - depth;
    if !RenderNode(env, ts, nodes[0], scope, mode, depth).ok {
      NodeErrorLeadsOn(env, ts, nodes[0], scope, mode, depth);
      LeadsOnWidens(ts, Refs(nodes[0]), RefsAll(nodes), n);
    } else {
      ErrorHasChain(env, ts, nodes[1..], scope, mode, depth);
      LeadsOnWidens(ts, RefsAll(nodes[1..]), RefsAll(nodes), n);
    }
  }

  lemma LeadsOnWidens(ts: Templates, some: seq<FragmentRef>, all: seq<FragmentRef>, n: nat)
    requires LeadsOn(ts, some, n) && forall r :: r in some ==> r in all
    ensures LeadsOn(ts, all, n)
  {
    if n > 0 {
      var r :| r in some && Resolve(ts, r).Some? && HasChain(ts, Resolve(ts, r).value, n - 1);
      assert r in all;
    }
  }

  lemma {:induction false} NodeErrorLeadsOn(env: Env, ts: Templates, node: Dom, scope: Scope, mode: Mode, depth: nat)
    requires depth <= MAX_FRAGMENT_DEPTH && !RenderNode(env, ts, node, scope, mode, depth).ok
    ensures LeadsOn(ts, Refs(node), MAX_FRAGMENT_DEPTH - depth)
    decreases MAX_FRAGMENT_DEPTH - depth, node, 4
  {
    match ViewOf(node.directives).each
    case None => InstanceErrorLeadsOn(env, ts, node, scope, mode, depth);
    case Some(each) =>
      LoopErrorLeadsOn(env, ts, node, each.variable, env.eval(each.items, scope).items.value, scope, mode, depth);
  }

  lemma {:induction false} LoopErrorLeadsOn(env: Env, ts: Templates, node: Dom, variable: Bytes, items: seq<Value>,
                                            scope: Scope, mode: Mode, depth: nat)
    requires depth <= MAX_FRAGMENT_DEPTH && node.Element?
    requires !RenderLoop(env, ts, node, variable, items, scope, mode, depth).ok
    ensures LeadsOn(ts, Refs(node), MAX_FRAGMENT_DEPTH - depth)
    decreases MAX_FRAGMENT_DEPTH - depth, node, 3, |items|
  {
    var inner := scope + [(variable, items[0])];
    if !RenderInstance(env, ts, node, inner, mode, depth).ok {
      InstanceErrorLeadsOn(env, ts, node, inner, mode, depth);
    } else {
      LoopErrorLeadsOn(env, ts, node, variable, items[1..], scope, mode, depth);
    }
  }

  lemma {:induction false} InstanceErrorLeadsOn(env: Env, ts: Templates, node: Dom, scope: Scope, mode: Mode,
                                                depth: nat)
    requires depth <= MAX_FRAGMENT_DEPTH && node.Element?
    requires !RenderInstance(env, ts, node, scope, mode, depth).ok
    ensures LeadsOn(ts, Refs(node), MAX_FRAGMENT_DEPTH - depth)
    decreases MAX_FRAGMENT_DEPTH - depth, node, 2
  {
    var v := ViewOf(node.directives);
    if v.replace.Some? {
      ExpandErrorLeadsOn(env, ts, node, v.replace.value, scope, mode, depth);
    } else {
      var childMode := if v.mode.Some? then v.mode.value else mode;
      if v.insert.Some? {
        ExpandErrorLeadsOn(env, ts, node, v.insert.value, scope, childMode, depth);
      } else {
        ErrorHasChain(env, ts, node.children, scope, childMode, depth);
      }
    }
  }

  lemma {:induction false} ExpandErrorLeadsOn(env: Env, ts: Templates, host: Dom, r: FragmentRef, scope: Scope,
                                              mode: Mode, depth: nat)
    requires depth <= MAX_FRAGMENT_DEPTH && !Expand(env, ts, host, r, scope, mode, depth).ok
    ensures LeadsOn(ts, [r], MAX_FRAGMENT_DEPTH - depth)
    decreases MAX_FRAGMENT_DEPTH - depth, host, 0
  {
    assert r in [r];
    if depth < MAX_FRAGMENT_DEPTH {
      ErrorHasChain(env, ts, Resolve(ts, r).value, scope, mode, depth + 1);
    }
  }

  // ---- Ranked templates always render ----------------------------------------

  /** A rank below the limit that falls from a reference to those of the fragment it leads to. */
  ghost predicate Ranked(ts: Templates, rank: FragmentRef -> nat) {
    forall r, r' :: Resolve(ts, r).Some? && r' in RefsAll(Resolve(ts, r).value) ==> rank(r') < rank(r)
  }

  lemma {:induction false} RankedHasNoChain(ts: Templates, rank: FragmentRef -> nat, nodes: seq<Dom>, n: nat)
    requires Ranked(ts, rank) && forall r :: r in RefsAll(nodes) ==> rank(r) < n
    ensures !HasChain(ts, nodes, n)
    decreases n
  {
    if n > 0 {
      forall r | r in RefsAll(nodes) && Resolve(ts, r).Some? ensures !HasChain(ts, Resolve(ts, r).value, n - 1) {
        RankedHasNoChain(ts, rank, Resolve(ts, r).value, n - 1);
      }
    }
  }

  /**
   If a rank bounds every chain of references by the levels left (32 of them from the
   top), rendering succeeds for every model.
   */
  lemma RankedRenders(env: Env, ts: Templates, rank: FragmentRef -> nat, nodes: seq<Dom>, scope: Scope, mode: Mode,
                      depth: nat)
    requires depth <= MAX_FRAGMENT_DEPTH && Ranked(ts, rank)
    requires forall r :: r in RefsAll(nodes) ==> rank(r) < MAX_FRAGMENT_DEPTH - depth
    ensures RenderNodes(env, ts, nodes, scope, mode, depth).ok
  {
    RankedHasNoChain(ts, rank, nodes, MAX_FRAGMENT_DEPTH - depth);
    NoChainRenders(env, ts, nodes, scope, mode, depth);
  }

  // ---- And without conditions a long chain always stops ----------------------

  /** Nothing decides whether the node is rendered: no `th:if`, `th:unless`, `th:each` or `th:authorize` in it. */
  predicate Steady(node: Dom) {
    node.Element? ==>
      var v := ViewOf(node.directives);
      v.cond.None? && v.unless.None? && v.each.None? && v.authorize.None? && SteadyAll(node.children)
  }

  predicate SteadyAll(nodes: seq<Dom>) {
    nodes == [] || (Steady(nodes[0]) && SteadyAll(nodes[1..]))
  }

  predicate SteadyIn(ts: Templates) {
    forall i :: 0 <= i < |ts| ==> SteadyAll(ts[i].1)
  }

  lemma {:induction false} FoundIsSteady(nodes: seq<Dom>, name: Bytes)
    requires SteadyAll(nodes) && FindFragment(nodes, name).Some?
    ensures Steady(FindFragment(nodes, name).value)
  {
    var node := nodes[0];
    if node.Element? && ViewOf(node.directives).fragment == Some(name) {
    } else if node.Element? && FindFragment(node.children, name).Some? {
      FoundIsSteady(node.children, name);
    } else {
      FoundIsSteady(nodes[1..], name);
    }
  }

  lemma {:induction false} SearchIsSteady(ts: Templates, name: Bytes)
    requires SteadyIn(ts) && Search(ts, name).Some?
    ensures SteadyAll(Search(ts, name).value)
  {
    assert SteadyAll(ts[0].1);
    if FindFragment(ts[0].1, name).Some? {
      FoundIsSteady(ts[0].1, name);
    } else {
      SearchIsSteady(ts[1..], name);
    }
  }

  lemma {:induction false} LookupIsSteady(ts: Templates, name: Bytes)
    requires SteadyIn(ts) && Lookup(ts, name).Some?
    ensures SteadyAll(Lookup(ts, name).value)
  {
    if ts[0].0 != name { LookupIsSteady(ts[1..], name); }
  }

  lemma ResolvedIsSteady(ts: Templates, r: FragmentRef)
    requires SteadyIn(ts) && Resolve(ts, r).Some?
    ensures SteadyAll(Resolve(ts, r).value)
  {
    match r.template
    case Some(t) =>
      LookupIsSteady(ts, t);
      if r.name != [] { SearchIsSteady([(t, Lookup(ts, t).value)], r.name); }
    case None =>
      if r.name != [] { SearchIsSteady(ts, r.name); }
  }

  lemma {:induction false} ChainStops(env: Env, ts: Templates, nodes: seq<Dom>, scope: Scope, mode: Mode, depth: nat)
    requires depth <= MAX_FRAGMENT_DEPTH && SteadyIn(ts) && SteadyAll(nodes)
    requires LeadsOn(ts, RefsAll(nodes), MAX_FRAGMENT_DEPTH - depth)
    ensures !RenderNodes(env, ts, nodes, scope, mode, depth).ok
    decreases MAX_FRAGMENT_DEPTH - depth, nodes, 0
  {
    var n := MAX_FRAGMENT_DEPTH - depth;
    if nodes != [] && LeadsOn(ts, Refs(nodes[0]), n) {
      NodeStops(env, ts, nodes[0], scope, mode, depth);
    } else if nodes != [] {
      LeadsOnLater(ts, nodes, n);
      ChainStops(env, ts, nodes[1..], scope, mode, depth);
    }
  }

  lemma LeadsOnLater(ts: Templates, nodes: seq<Dom>, n: nat)
    requires nodes != [] && LeadsOn(ts, RefsAll(nodes), n) && !LeadsOn(ts, Refs(nodes[0]), n)
    ensures LeadsOn(ts, RefsAll(nodes[1..]), n)
  {
    if n > 0 {
      var r :| r in RefsAll(nodes) && Resolve(ts, r).Some? && HasChain(ts, Resolve(ts, r).value, n - 1);
      assert r in Refs(nodes[0]) || r in RefsAll(nodes[1..]);
    }
  }

  lemma {:induction false} NodeStops(env: Env, ts: Templates, node: Dom, scope: Scope, mode: Mode, depth: nat)
    requires depth <= MAX_FRAGMENT_DEPTH && SteadyIn(ts) && Steady(node)
    requires LeadsOn(ts, Refs(node), MAX_FRAGMENT_DEPTH - depth)
    ensures !RenderNode(env, ts, node, scope, mode, depth).ok
    decreases MAX_FRAGMENT_DEPTH - depth, node, 4
  {
    InstanceStops(env, ts, node, scope, mode, depth);
  }

  lemma {:induction false} InstanceStops(env: Env, ts: Templates, node: Dom, scope: Scope, mode: Mode, depth: nat)
    requires depth <= MAX_FRAGMENT_DEPTH && SteadyIn(ts) && Steady(node) && node.Element?
    requires LeadsOn(ts, Refs(node), MAX_FRAGMENT_DEPTH - depth)
    ensures !RenderInstance(env, ts, node, scope, mode, depth).ok
    decreases MAX_FRAGMENT_DEPTH - depth, node, 2
  {
    var v := ViewOf(node.directives);
    if v.replace.Some? {
      ExpandStops(env, ts, node, v.replace.value, scope, mode, depth);
    } else {
      var childMode := if v.mode.Some? then v.mode.value else mode;
      if v.insert.Some? {
        ExpandStops(env, ts, node, v.insert.value, scope, childMode, depth);
      } else {
        ChainStops(env, ts, node.children, scope, childMode, depth);
      }
    }
  }

  lemma {:induction false} ExpandStops(env: Env, ts: Templates, host: Dom, r: FragmentRef, scope: Scope, mode: Mode,
                                       depth: nat)
    requires depth <= MAX_FRAGMENT_DEPTH && SteadyIn(ts) && LeadsOn(ts, [r], MAX_FRAGMENT_DEPTH - depth)
    ensures !Expand(env, ts, host, r, scope, mode, depth).ok
    decreases MAX_FRAGMENT_DEPTH - depth, host, 0
  {
    if depth < MAX_FRAGMENT_DEPTH {
      ResolvedIsSteady(ts, r);
      ChainStops(env, ts, Resolve(ts, r).value, scope, mode, depth + 1);
    }
  }

  /**
   Where nothing decides whether a node is rendered, the limit is exact for every model:
   rendering fails if and only if there is a chain of as many fragments as there are levels
   left, ending in one more reference.
   */
  lemma FailsIffChain(env: Env, ts: Templates, nodes: seq<Dom>, scope: Scope, mode: Mode, depth: nat)
    requires depth <= MAX_FRAGMENT_DEPTH && SteadyIn(ts) && SteadyAll(nodes)
    ensures !RenderNodes(env, ts, nodes, scope, mode, depth).ok <==> HasChain(ts, nodes, MAX_FRAGMENT_DEPTH - depth)
  {
    if HasChain(ts, nodes, MAX_FRAGMENT_DEPTH - depth) {
      ChainStops(env, ts, nodes, scope, mode, depth);
    } else {
      NoChainRenders(env, ts, nodes, scope, mode, depth);
    }
  }

  lemma NoChainRenders(env: Env, ts: Templates, nodes: seq<Dom>, scope: Scope, mode: Mode, depth: nat)
    requires depth <= MAX_FRAGMENT_DEPTH && !HasChain(ts, nodes, MAX_FRAGMENT_DEPTH - depth)
    ensures RenderNodes(env, ts, nodes, scope, mode, depth).ok
  {
    if !RenderNodes(env, ts, nodes, scope, mode, depth).ok { ErrorHasChain(env, ts, nodes, scope, mode, depth); }
  }
}
