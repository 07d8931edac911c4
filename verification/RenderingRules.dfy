/**
 What the elements of a template become (crates/kernleaf/src/lib.rs:318-525): loops,
 conditions, text, fragments. A directive is looked up by its name, and what is written is
 said of the output itself.
 */
module RenderingRules {
  import opened Common
  import opened Text
  import opened Markup
  import opened MarkupRoundTrip
  import opened Rendering
  import opened DirectiveRules

  // ---- Conditions ------------------------------------------------------------

  /** The directives but for those of the given names. */
  function Without(ds: seq<Attr>, names: seq<Bytes>): seq<Attr> {
    if ds == [] then []
    else
      var front, last := Without(ds[..|ds| - 1], names), ds[|ds| - 1];
      if last.name in names then front else front + [last]
  }

  function Stripped(node: Dom, names: seq<Bytes>): Dom
    requires node.Element?
  {
    node.(directives := Without(node.directives, names))
  }

  /** `th:authorize` and `th:if` hold, and `th:unless` does not. */
  predicate Admits(env: Env, ds: seq<Attr>, scope: Scope) {
    && (LastNamed(ds, AUTHORIZE).Some? ==> env.allows(LastNamed(ds, AUTHORIZE).value))
    && (LastNamed(ds, IF).Some? ==> env.eval(LastNamed(ds, IF).value, scope).truthy)
    && (LastNamed(ds, UNLESS).Some? ==> !env.eval(LastNamed(ds, UNLESS).value, scope).truthy)
  }

  lemma AdmitsIsShown(env: Env, ds: seq<Attr>, scope: Scope)
    ensures Admits(env, ds, scope) == Shown(env, ViewOf(ds), scope)
  {
    LastIsInForce(ds);
  }

  lemma ViewGrows(ds: seq<Attr>, d: Attr)
    ensures ViewOf(ds + [d]) == Apply(ViewOf(ds), d)
  {
    assert (ds + [d])[..|ds|] == ds;
  }

  lemma {:induction false} EachIsDropped(ds: seq<Attr>)
    ensures ViewOf(Without(ds, [EACH])) == ViewOf(ds).(each := None)
    decreases |ds|
  {
    if ds != [] {
      var front, last := ds[..|ds| - 1], ds[|ds| - 1];
      EachIsDropped(front);
      ApplyIs(ViewOf(front), last);
      ApplyIs(ViewOf(Without(front, [EACH])), last);
      ViewGrows(Without(front, [EACH]), last);
    }
  }

  const GATES: seq<Bytes> := [AUTHORIZE, IF, UNLESS]

  lemma {:induction false} GatesAreDropped(ds: seq<Attr>)
    ensures ViewOf(Without(ds, GATES)) == ViewOf(ds).(authorize := None, cond := None, unless := None)
    decreases |ds|
  {
    if ds != [] {
      var front, last := ds[..|ds| - 1], ds[|ds| - 1];
      GatesAreDropped(front);
      ApplyIs(ViewOf(front), last);
      ApplyIs(ViewOf(Without(front, GATES)), last);
      ViewGrows(Without(front, GATES), last);
    }
  }

  lemma SameContent(env: Env, ts: Templates, node: Dom, ds: seq<Attr>, scope: Scope, mode: Mode, depth: nat)
    requires depth <= MAX_FRAGMENT_DEPTH && node.Element?
    requires var v, v' := ViewOf(node.directives), ViewOf(ds);
             v'.mode == v.mode && v'.insert == v.insert && v'.text == v.text && v'.utext == v.utext
    ensures RenderContent(env, ts, node, scope, mode, depth) ==
            RenderContent(env, ts, node.(directives := ds), scope, mode, depth)
  {
  }

  /** Two elements that differ in what has been decided already are written alike. */
  lemma SameInstance(env: Env, ts: Templates, node: Dom, ds: seq<Attr>, scope: Scope, mode: Mode, depth: nat)
    requires depth <= MAX_FRAGMENT_DEPTH && node.Element?
    requires var v, v' := ViewOf(node.directives), ViewOf(ds);
             && v' == v.(each := v'.each, authorize := v'.authorize, cond := v'.cond, unless := v'.unless)
             && Shown(env, v, scope) == Shown(env, v', scope)
    ensures RenderInstance(env, ts, node, scope, mode, depth) ==
            RenderInstance(env, ts, node.(directives := ds), scope, mode, depth)
  {
    SameContent(env, ts, node, ds, scope, mode, depth);
  }

  lemma NoEach(ds: seq<Attr>)
    requires EachOk(ds) && LastNamed(ds, EACH).None?
    ensures ViewOf(ds).each.None?
  {
    LastIsInForce(ds);
  }

  /**
   An element without `th:each` is nothing if a condition fails, and otherwise what it would
   be without its conditions.
   */
  lemma GatesDecide(env: Env, ts: Templates, node: Dom, scope: Scope, mode: Mode, depth: nat)
    requires depth <= MAX_FRAGMENT_DEPTH && node.Element?
    requires EachOk(node.directives) && LastNamed(node.directives, EACH).None?
    ensures RenderNode(env, ts, node, scope, mode, depth) ==
            if Admits(env, node.directives, scope) then RenderNode(env, ts, Stripped(node, GATES), scope, mode, depth)
            else Output([], true)
  {
    var ds := Without(node.directives, GATES);
    NoEach(node.directives);
    AdmitsIsShown(env, node.directives, scope);
    GatesAreDropped(node.directives);
    if Admits(env, node.directives, scope) { SameInstance(env, ts, node, ds, scope, mode, depth); }
  }

  // ---- Loops -----------------------------------------------------------------

  /** `whole` is the parts one after the other, if none fails, and fails otherwise. */
  ghost predicate InOrder(parts: seq<Output>, whole: Output) {
    && (whole.ok <==> forall i :: 0 <= i < |parts| ==> parts[i].ok)
    && (whole.ok ==> whole.text == Concat(Texts(parts)))
  }

  function Texts(parts: seq<Output>): seq<Bytes> {
    if parts == [] then [] else [parts[0].text] + Texts(parts[1..])
  }

  lemma OneMoreInOrder(parts: seq<Output>, first: Output, rest: Output)
    requires InOrder(parts, rest)
    ensures InOrder([first] + parts, if first.ok then Then(first, rest) else first)
  {
    var all := [first] + parts;
    assert all[1..] == parts && all[0] == first;
    if first.ok && rest.ok {
      forall i | 0 <= i < |all| ensures all[i].ok {
        if i > 0 { assert all[i] == parts[i - 1]; }
      }
    } else if first.ok {
      var i :| 0 <= i < |parts| && !parts[i].ok;
      assert all[i + 1] == parts[i];
    }
  }

  lemma EachInstance(env: Env, ts: Templates, node: Dom, scope: Scope, mode: Mode, depth: nat)
    requires depth <= MAX_FRAGMENT_DEPTH && node.Element?
    ensures RenderInstance(env, ts, node, scope, mode, depth) ==
            RenderNode(env, ts, Stripped(node, [EACH]), scope, mode, depth)
  {
    EachIsDropped(node.directives);
    SameInstance(env, ts, node, Without(node.directives, [EACH]), scope, mode, depth);
  }

  lemma {:induction false} LoopInOrder(env: Env, ts: Templates, node: Dom, variable: Bytes, items: seq<Value>,
                                       scope: Scope, mode: Mode, depth: nat) returns (parts: seq<Output>)
    requires depth <= MAX_FRAGMENT_DEPTH && node.Element?
    ensures |parts| == |items|
    ensures forall i :: 0 <= i < |items| ==>
              parts[i] ==
              RenderNode(env, ts, Stripped(node, [EACH]), scope + [(variable, items[i])], mode, depth)
    ensures InOrder(parts, RenderLoop(env, ts, node, variable, items, scope, mode, depth))
    decreases |items|
  {
    if items == [] {
      parts := [];
    } else {
      var first := RenderInstance(env, ts, node, scope + [(variable, items[0])], mode, depth);
      var others := LoopInOrder(env, ts, node, variable, items[1..], scope, mode, depth);
      EachInstance(env, ts, node, scope + [(variable, items[0])], mode, depth);
      OneMoreInOrder(others, first, RenderLoop(env, ts, node, variable, items[1..], scope, mode, depth));
      parts := [first] + others;
    }
  }

  lemma EachIsLoop(env: Env, ts: Templates, node: Dom, each: Each, scope: Scope, mode: Mode, depth: nat)
    requires depth <= MAX_FRAGMENT_DEPTH && node.Element? && ViewOf(node.directives).each == Some(each)
    ensures var items := env.eval(each.items, scope).items;
            RenderNode(env, ts, node, scope, mode, depth) ==
            RenderLoop(env, ts, node, each.variable, if items.Some? then items.value else [], scope, mode, depth)
  {
  }

  /**
   `th:each` writes the element without it once for every item, in order, each time with the
   variable bound to the item; a value that is no list counts as an empty one.
   */
  lemma EachRepeats(env: Env, ts: Templates, node: Dom, each: Each, scope: Scope, mode: Mode, depth: nat)
      returns (items: seq<Value>, parts: seq<Output>)
    requires depth <= MAX_FRAGMENT_DEPTH && node.Element? && EachOk(node.directives)
    requires LastNamed(node.directives, EACH).Some?
    requires ParseEach(LastNamed(node.directives, EACH).value) == Some(each)
    ensures var answer := env.eval(each.items, scope).items; items == if answer.Some? then answer.value else []
    ensures |parts| == |items|
    ensures forall i :: 0 <= i < |items| ==>
              parts[i] ==
              RenderNode(env, ts, Stripped(node, [EACH]), scope + [(each.variable, items[i])], mode, depth)
    ensures InOrder(parts, RenderNode(env, ts, node, scope, mode, depth))
  {
    var answer := env.eval(each.items, scope).items;
    LastIsInForce(node.directives);
    EachIsLoop(env, ts, node, each, scope, mode, depth);
    items := if answer.Some? then answer.value else [];
    parts := LoopInOrder(env, ts, node, each.variable, items, scope, mode, depth);
  }

  // ---- Content ---------------------------------------------------------------

  /** No loop is left to run, and every condition holds. */
  predicate Ready(env: Env, ds: seq<Attr>, scope: Scope) {
    EachOk(ds) && LastNamed(ds, EACH).None? && Admits(env, ds, scope)
  }

  /** What stands before an element's content: its tag, as `HeadReadsBack` says, and the hidden field of a form. */
  function Opening(env: Env, node: Dom, scope: Scope): Bytes
    requires node.Element?
  {
    Head(env, node, ViewOf(node.directives), scope) + TokenField(env, node)
  }

  /** The element with `content` inside. */
  function Around(env: Env, node: Dom, scope: Scope, content: Output): Output
    requires node.Element?
  {
    if content.ok then Output(Opening(env, node, scope) + content.text + CLOSE_TAG + node.tag + [GT], true)
    else Output(Opening(env, node, scope) + content.text, false)
  }

  lemma InstanceIsAround(env: Env, ts: Templates, node: Dom, scope: Scope, mode: Mode, depth: nat)
    requires depth <= MAX_FRAGMENT_DEPTH && node.Element? && !node.isVoid
    requires Ready(env, node.directives, scope) && LastNamed(node.directives, REPLACE).None?
    ensures RenderNode(env, ts, node, scope, mode, depth) ==
            Around(env, node, scope, RenderContent(env, ts, node, scope, mode, depth))
  {
    NoEach(node.directives);
    AdmitsIsShown(env, node.directives, scope);
    LastIsInForce(node.directives);
    var content := RenderContent(env, ts, node, scope, mode, depth);
    CloseShape(Opening(env, node, scope) + content.text, node.tag);
  }

  lemma CloseShape(before: Bytes, tag: Bytes)
    ensures before + (CLOSE_TAG + tag + [GT]) == before + CLOSE_TAG + tag + [GT]
  {
  }

  /** A void element is its open tag. */
  lemma VoidWrites(env: Env, ts: Templates, node: Dom, scope: Scope, mode: Mode, depth: nat)
    requires depth <= MAX_FRAGMENT_DEPTH && node.Element? && node.isVoid
    requires Ready(env, node.directives, scope) && LastNamed(node.directives, REPLACE).None?
    ensures RenderNode(env, ts, node, scope, mode, depth) ==
            Output(Head(env, node, ViewOf(node.directives), scope), true)
  {
    NoEach(node.directives);
    AdmitsIsShown(env, node.directives, scope);
    LastIsInForce(node.directives);
  }

  /** `th:text` writes a text that is inert between the tags and stands for the value. */
  lemma TextWrites(env: Env, ts: Templates, node: Dom, expr: Bytes, scope: Scope, mode: Mode, depth: nat)
      returns (inner: Bytes)
    requires depth <= MAX_FRAGMENT_DEPTH && node.Element? && !node.isVoid
    requires Ready(env, node.directives, scope) && LastNamed(node.directives, REPLACE).None?
    requires LastNamed(node.directives, INSERT).None? && LastNamed(node.directives, TEXT) == Some(expr)
    ensures RenderNode(env, ts, node, scope, mode, depth) == Around(env, node, scope, Output(inner, true))
    ensures StandsFor(inner, env.eval(expr, scope).text)
  {
    inner := Escape(env.eval(expr, scope).text);
    EscapeStandsFor(env.eval(expr, scope).text);
    LastIsInForce(node.directives);
    InstanceIsAround(env, ts, node, scope, mode, depth);
  }

  /** `th:utext` writes the value itself, unless there is a `th:text`. */
  lemma UtextWrites(env: Env, ts: Templates, node: Dom, expr: Bytes, scope: Scope, mode: Mode, depth: nat)
    requires depth <= MAX_FRAGMENT_DEPTH && node.Element? && !node.isVoid
    requires Ready(env, node.directives, scope) && LastNamed(node.directives, REPLACE).None?
    requires LastNamed(node.directives, INSERT).None? && LastNamed(node.directives, TEXT).None?
    requires LastNamed(node.directives, UTEXT) == Some(expr)
    ensures RenderNode(env, ts, node, scope, mode, depth) ==
            Around(env, node, scope, Output(env.eval(expr, scope).text, true))
  {
    LastIsInForce(node.directives);
    InstanceIsAround(env, ts, node, scope, mode, depth);
  }

  /** `th:inline` sets the mode of what is inside. */
  function InnerMode(ds: seq<Attr>, mode: Mode): Mode {
    if LastNamed(ds, INLINE).Some? then ModeOf(LastNamed(ds, INLINE).value) else mode
  }

  /** Without any of these the children are written. */
  lemma ChildrenWrite(env: Env, ts: Templates, node: Dom, scope: Scope, mode: Mode, depth: nat)
    requires depth <= MAX_FRAGMENT_DEPTH && node.Element? && !node.isVoid
    requires Ready(env, node.directives, scope) && LastNamed(node.directives, REPLACE).None?
    requires LastNamed(node.directives, INSERT).None? && LastNamed(node.directives, TEXT).None?
    requires LastNamed(node.directives, UTEXT).None?
    ensures RenderNode(env, ts, node, scope, mode, depth) ==
            Around(env, node, scope,
                   RenderNodes(env, ts, node.children, scope, InnerMode(node.directives, mode), depth))
  {
    LastIsInForce(node.directives);
    InstanceIsAround(env, ts, node, scope, mode, depth);
  }

  // ---- Fragments -------------------------------------------------------------

  /** A fragment one level deeper: nothing if there is none, an error past 32 levels. */
  function FragmentOutput(env: Env, ts: Templates, r: FragmentRef, scope: Scope, mode: Mode, depth: nat): Output
    requires depth <= MAX_FRAGMENT_DEPTH
  {
    if depth == 32 then Output([], false)
    else if Resolve(ts, r).None? then Output([], true)
    else RenderNodes(env, ts, Resolve(ts, r).value, scope, mode, depth + 1)
  }

  /** `th:insert` writes the fragment inside the element, whatever else would go there. */
  lemma InsertWrites(env: Env, ts: Templates, node: Dom, ref: Bytes, scope: Scope, mode: Mode, depth: nat)
    requires depth <= MAX_FRAGMENT_DEPTH && node.Element? && !node.isVoid
    requires Ready(env, node.directives, scope) && LastNamed(node.directives, REPLACE).None?
    requires LastNamed(node.directives, INSERT) == Some(ref)
    ensures RenderNode(env, ts, node, scope, mode, depth) ==
            Around(env, node, scope,
                   FragmentOutput(env, ts, ParseFragmentRef(ref), scope, InnerMode(node.directives, mode), depth))
  {
    LastIsInForce(node.directives);
    InstanceIsAround(env, ts, node, scope, mode, depth);
  }

  /** `th:replace` writes the fragment in place of the element. */
  lemma ReplaceWrites(env: Env, ts: Templates, node: Dom, ref: Bytes, scope: Scope, mode: Mode, depth: nat)
    requires depth <= MAX_FRAGMENT_DEPTH && node.Element?
    requires Ready(env, node.directives, scope) && LastNamed(node.directives, REPLACE) == Some(ref)
    ensures RenderNode(env, ts, node, scope, mode, depth) ==
            FragmentOutput(env, ts, ParseFragmentRef(ref), scope, mode, depth)
  {
    NoEach(node.directives);
    AdmitsIsShown(env, node.directives, scope);
    LastIsInForce(node.directives);
    assert RenderNode(env, ts, node, scope, mode, depth) ==
           Expand(env, ts, node, ParseFragmentRef(ref), scope, mode, depth);
  }

  /** Every element in the order in which they open. */
  function Elements(nodes: seq<Dom>): seq<Dom> {
    if nodes == [] then []
    else (if nodes[0].Element? then [nodes[0]] + Elements(nodes[0].children) else []) + Elements(nodes[1..])
  }

  predicate Declares(node: Dom, name: Bytes) {
    node.Element? && LastNamed(node.directives, FRAGMENT).Some? &&
    FragmentName(LastNamed(node.directives, FRAGMENT).value) == name
  }

  /** `node` is the first to open of the elements that declare the fragment. */
  ghost predicate FirstDeclared(nodes: seq<Dom>, name: Bytes, node: Dom) {
    exists i :: 0 <= i < |Elements(nodes)| && Elements(nodes)[i] == node && Declares(node, name) &&
                forall j :: 0 <= j < i ==> !Declares(Elements(nodes)[j], name)
  }

  predicate NoneDeclares(elements: seq<Dom>, name: Bytes) {
    forall i :: 0 <= i < |elements| ==> !Declares(elements[i], name)
  }

  function FirstIn(elements: seq<Dom>, name: Bytes): Option<Dom> {
    if elements == [] then None
    else if Declares(elements[0], name) then Some(elements[0])
    else FirstIn(elements[1..], name)
  }

  lemma {:induction false} FirstInBoth(a: seq<Dom>, b: seq<Dom>, name: Bytes)
    ensures FirstIn(a + b, name) == if FirstIn(a, name).Some? then FirstIn(a, name) else FirstIn(b, name)
  {
    if a == [] {
      assert a + b == b;
    } else {
      FirstInBoth(a[1..], b, name);
      assert (a + b)[1..] == a[1..] + b;
    }
  }

  lemma {:induction false} FirstInIs(elements: seq<Dom>, name: Bytes)
    ensures match FirstIn(elements, name)
            case None => NoneDeclares(elements, name)
            case Some(node) =>
              exists i :: 0 <= i < |elements| && elements[i] == node && Declares(node, name) &&
                          NoneDeclares(elements[..i], name)
  {
    if elements != [] && !Declares(elements[0], name) {
      var rest := elements[1..];
      FirstInIs(rest, name);
      match FirstIn(rest, name)
      case None =>
        forall i | 0 <= i < |elements| ensures !Declares(elements[i], name) {
          if i > 0 { assert elements[i] == rest[i - 1]; }
        }
      case Some(node) =>
        var i :| 0 <= i < |rest| && rest[i] == node && Declares(node, name) && NoneDeclares(rest[..i], name);
        FirstLater(elements, name, i);
    } else if elements != [] {
      assert elements[..0] == [];
    }
  }

  lemma FirstLater(elements: seq<Dom>, name: Bytes, i: nat)
    requires i + 1 < |elements| && !Declares(elements[0], name) && NoneDeclares(elements[1..][..i], name)
    ensures NoneDeclares(elements[..i + 1], name)
  {
    var front := elements[..i + 1];
    forall j | 0 <= j < |front| ensures !Declares(front[j], name) {
      if j > 0 { assert front[j] == elements[1..][..i][j - 1]; }
    }
  }

  lemma DeclaresIs(node: Dom, name: Bytes)
    requires node.Element?
    ensures Declares(node, name) <==> ViewOf(node.directives).fragment == Some(name)
  {
    LastIsInForce(node.directives);
  }

  lemma {:induction false} FoundIsFirstIn(nodes: seq<Dom>, name: Bytes)
    ensures FindFragment(nodes, name) == FirstIn(Elements(nodes), name)
    decreases nodes
  {
    if nodes != [] {
      var node := nodes[0];
      FoundIsFirstIn(nodes[1..], name);
      if node.Element? {
        FoundIsFirstIn(node.children, name);
        DeclaresIs(node, name);
        var inside := [node] + Elements(node.children);
        assert inside[1..] == Elements(node.children);
        FirstInBoth(inside, Elements(nodes[1..]), name);
      } else {
        assert [] + Elements(nodes[1..]) == Elements(nodes[1..]);
      }
    }
  }

  /** A fragment is the first element to open that declares it. */
  lemma FoundIsFirst(nodes: seq<Dom>, name: Bytes)
    ensures match FindFragment(nodes, name)
            case None => NoneDeclares(Elements(nodes), name)
            case Some(node) => FirstDeclared(nodes, name, node)
  {
    FoundIsFirstIn(nodes, name);
    FirstInIs(Elements(nodes), name);
    if FindFragment(nodes, name).Some? { FirstIsDeclared(nodes, name, FindFragment(nodes, name).value); }
  }

  lemma FirstIsDeclared(nodes: seq<Dom>, name: Bytes, node: Dom)
    requires exists i :: 0 <= i < |Elements(nodes)| && Elements(nodes)[i] == node && Declares(node, name) &&
                         NoneDeclares(Elements(nodes)[..i], name)
    ensures FirstDeclared(nodes, name, node)
  {
    var elements := Elements(nodes);
    var i :| 0 <= i < |elements| && elements[i] == node && Declares(node, name) && NoneDeclares(elements[..i], name);
    forall j | 0 <= j < i ensures !Declares(elements[j], name) { assert elements[j] == elements[..i][j]; }
  }

  /** `t` is the first template of that name. */
  predicate FirstTemplate(ts: Templates, name: Bytes, i: nat) {
    i < |ts| && ts[i].0 == name && forall j :: 0 <= j < i ==> ts[j].0 != name
  }

  lemma {:induction false} LookupIsFirst(ts: Templates, name: Bytes, i: nat)
    requires FirstTemplate(ts, name, i)
    ensures Lookup(ts, name) == Some(ts[i].1)
  {
    if i > 0 {
      assert forall j :: 0 <= j < i - 1 ==> ts[1..][j] == ts[j + 1];
      LookupIsFirst(ts[1..], name, i - 1);
    }
  }

  lemma {:induction false} LookupOfNone(ts: Templates, name: Bytes)
    requires forall j :: 0 <= j < |ts| ==> ts[j].0 != name
    ensures Lookup(ts, name) == None
  {
    if ts != [] { LookupOfNone(ts[1..], name); }
  }

  lemma {:induction false} SearchIsFirst(ts: Templates, name: Bytes, i: nat)
    requires i < |ts| && FindFragment(ts[i].1, name).Some?
    requires forall j :: 0 <= j < i ==> FindFragment(ts[j].1, name).None?
    ensures Search(ts, name) == Some([FindFragment(ts[i].1, name).value])
  {
    if i > 0 {
      assert forall j :: 0 <= j < i - 1 ==> ts[1..][j] == ts[j + 1];
      SearchIsFirst(ts[1..], name, i - 1);
    }
  }

  /**
   A reference to a named template is to the whole of it, or to the fragment it declares; one
   without a template is to the fragment of the first that declares it.
   */
  lemma ResolvesTo(ts: Templates, name: Bytes, i: nat)
    requires i < |ts|
    ensures FirstTemplate(ts, ts[i].0, i) ==>
              && Resolve(ts, FragmentRef(Some(ts[i].0), [])) == Some(ts[i].1)
              && forall node ::
                   FindFragment(ts[i].1, name) == Some(node) && name != [] ==>
                     Resolve(ts, FragmentRef(Some(ts[i].0), name)) == Some([node])
    ensures name != [] && FindFragment(ts[i].1, name).Some? &&
            (forall j :: 0 <= j < i ==> FindFragment(ts[j].1, name).None?) ==>
              Resolve(ts, FragmentRef(None, name)) == Some([FindFragment(ts[i].1, name).value])
  {
    if FirstTemplate(ts, ts[i].0, i) { LookupIsFirst(ts, ts[i].0, i); }
    if name != [] && FindFragment(ts[i].1, name).Some? && forall j :: 0 <= j < i ==> FindFragment(ts[j].1, name).None? {
      SearchIsFirst(ts, name, i);
    }
  }

  /** A reference to a template that is not there is to nothing. */
  lemma ResolvesToNone(ts: Templates, template: Bytes, name: Bytes)
    requires forall j :: 0 <= j < |ts| ==> ts[j].0 != template
    ensures Resolve(ts, FragmentRef(Some(template), name)) == None
  {
    LookupOfNone(ts, template);
  }

  // ---- References as they are spelled ----------------------------------------

  /** A name of letters, digits and the like: no blank, colon, brace, tilde or parenthesis. */
  predicate PlainName(s: Bytes) {
    s != [] && forall i :: 0 <= i < |s| ==>
      Between(s[i], 33, 126) && s[i] != COLON && s[i] != 40 && s[i] != 123 && s[i] != 125 && s[i] != 126
  }

  const SEPARATOR: Bytes := [SPACE, COLON, COLON, SPACE]

  lemma PlainIsTrimmed(s: Bytes)
    requires PlainName(s)
    ensures Trim(s) == s && Trim(s + [SPACE]) == s && Trim([SPACE] + s) == s
  {
    VisibleStart(s);
    VisibleEnd(s);
    VisibleStart(s + [SPACE]);
    assert (s + [SPACE])[..|s|] == s;
    assert ([SPACE] + s)[1..] == s;
  }

  lemma PlainIsBefore(s: Bytes)
    requires PlainName(s)
    ensures Before(s, 40) == s
  {
    assert s + [] == s && 40 !in s;
    BeforeStops(s, 40, []);
  }

  lemma SeparatorIsFound(t: Bytes, rest: Bytes)
    requires COLON !in t
    ensures Find(t + [COLON, COLON] + rest, [COLON, COLON]) == Some(|t|)
    ensures (t + [COLON, COLON] + rest)[..|t|] == t && (t + [COLON, COLON] + rest)[|t| + 2..] == rest
  {
    var s := t + [COLON, COLON] + rest;
    assert s[|t|..|t| + 2] == [COLON, COLON];
    forall j: nat | j < |t| ensures !OccursAt(s, [COLON, COLON], j) {
      assert s[j..j + 2][0] == t[j] && t[j] in t;
    }
    FindIs(s, [COLON, COLON], |t|);
  }

  /** `value` is the reference `r`, bare or in braces. */
  predicate Spells(value: Bytes, r: Bytes) {
    value == r || value == [126, 123] + r + [125]
  }

  /** What is in the braces, if there are any. */
  lemma RefInside(value: Bytes, r: Bytes)
    requires Spells(value, r) && RefOk(r)
    ensures var v := Trim(value);
            var inner := if [126, 123] <= v then StripSuffix(v[2..], 125) else None;
            Trim(if inner.Some? then inner.value else v) == r
  {
    RefIsTrimmed(r);
  }

  lemma RefWithName(value: Bytes, r: Bytes, i: nat)
    requires Spells(value, r) && RefOk(r) && Find(r, [COLON, COLON]) == Some(i)
    ensures ParseFragmentRef(value) ==
            FragmentRef(if Trim(r[..i]) == [] then None else Some(Trim(r[..i])), FragmentName(r[i + 2..]))
  {
    RefInside(value, r);
  }

  lemma RefWithoutName(value: Bytes, r: Bytes)
    requires Spells(value, r) && RefOk(r) && Find(r, [COLON, COLON]).None?
    ensures ParseFragmentRef(value) == FragmentRef(Some(r), [])
  {
    RefInside(value, r);
  }

  lemma NameIsRead(n: Bytes)
    requires PlainName(n)
    ensures FragmentName([SPACE] + n) == n
  {
    PlainIsTrimmed(n);
    PlainIsBefore(n);
  }

  /** `t :: n`, with or without `~{ }` around it, names the fragment `n` of the template `t`. */
  lemma NamedRefIsRead(value: Bytes, t: Bytes, n: Bytes)
    requires PlainName(t) && PlainName(n) && Spells(value, t + SEPARATOR + n)
    ensures ParseFragmentRef(value) == FragmentRef(Some(t), n)
  {
    var r := t + SEPARATOR + n;
    assert r == t + [SPACE] + [COLON, COLON] + ([SPACE] + n);
    PlainIsTrimmed(t);
    SeparatorIsFound(t + [SPACE], [SPACE] + n);
    RefWithName(value, r, |t| + 1);
    NameIsRead(n);
  }

  lemma AnyShape(n: Bytes)
    requires PlainName(n)
    ensures var r := [COLON, COLON, SPACE] + n;
            RefOk(r) && Find(r, [COLON, COLON]) == Some(0) && r[..0] == [] && r[2..] == [SPACE] + n
  {
    var r := [COLON, COLON, SPACE] + n;
    assert r == [] + [COLON, COLON] + ([SPACE] + n);
    assert r[|r| - 1] == n[|n| - 1];
    SeparatorIsFound([], [SPACE] + n);
  }

  /** `:: n` names the fragment `n` of any template. */
  lemma AnyRefIsRead(value: Bytes, n: Bytes)
    requires PlainName(n) && Spells(value, [COLON, COLON, SPACE] + n)
    ensures ParseFragmentRef(value) == FragmentRef(None, n)
  {
    AnyShape(n);
    RefWithName(value, [COLON, COLON, SPACE] + n, 0);
    NameIsRead(n);
  }

  lemma NoSeparator(t: Bytes)
    requires COLON !in t
    ensures Find(t, [COLON, COLON]).None?
  {
    forall i: nat ensures !OccursAt(t, [COLON, COLON], i) {
      if i + 2 <= |t| { assert t[i..i + 2][0] == t[i]; }
    }
    FindIsFirst(t, [COLON, COLON]);
  }

  /** `t` names the whole of the template `t`. */
  lemma WholeRefIsRead(value: Bytes, t: Bytes)
    requires PlainName(t) && Spells(value, t)
    ensures ParseFragmentRef(value) == FragmentRef(Some(t), [])
  {
    NoSeparator(t);
    RefWithoutName(value, t);
  }

  /** Trimmed already, and not in braces. */
  predicate RefOk(r: Bytes) {
    r != [] && Between(r[0], 33, 126) && r[0] != 126 && Between(r[|r| - 1], 33, 126)
  }

  /** Neither trimming nor the braces change what is inside. */
  lemma RefIsTrimmed(r: Bytes)
    requires RefOk(r)
    ensures Trim(r) == r && !([126, 123] <= r)
    ensures var v := [126, 123] + r + [125]; Trim(v) == v && [126, 123] <= v && StripSuffix(v[2..], 125) == Some(r)
  {
    var v := [126, 123] + r + [125];
    VisibleStart(r);
    VisibleEnd(r);
    VisibleStart(v);
    VisibleEnd(v);
    assert v[2..] == r + [125];
  }

  // ---- Loops as they are spelled ---------------------------------------------

  const COMMA: byte := 44

  /** `item : items`, or with a second name that is dropped, `item, stat : items`. */
  function EachText(variable: Bytes, stat: Option<Bytes>, items: Bytes): Bytes {
    NamesText(variable, stat) + [SPACE] + [COLON] + ([SPACE] + items)
  }

  function NamesText(variable: Bytes, stat: Option<Bytes>): Bytes {
    variable + if stat.Some? then [COMMA, SPACE] + stat.value else []
  }

  lemma NamesAreTrimmed(variable: Bytes, stat: Option<Bytes>)
    requires PlainName(variable) && (stat.Some? ==> PlainName(stat.value))
    ensures Trim(NamesText(variable, stat) + [SPACE]) == NamesText(variable, stat)
    ensures COLON !in NamesText(variable, stat) + [SPACE]
  {
    var names := NamesText(variable, stat);
    VisibleStart(names + [SPACE]);
    assert (names + [SPACE])[..|names|] == names;
    assert names[|names| - 1] == if stat.Some? then stat.value[|stat.value| - 1] else variable[|variable| - 1];
    VisibleEnd(names);
  }

  lemma FirstNameIsRead(variable: Bytes, stat: Option<Bytes>)
    requires PlainName(variable) && COMMA !in variable
    ensures Before(NamesText(variable, stat), COMMA) == variable
  {
    if stat.Some? {
      assert NamesText(variable, stat) == variable + [COMMA] + ([SPACE] + stat.value);
      BeforeStops(variable, COMMA, [SPACE] + stat.value);
    } else {
      assert NamesText(variable, stat) == variable;
      BeforeStops(variable, COMMA, []);
    }
  }

  /** A loop is read as its variable and its items, trimmed. */
  lemma EachIsRead(variable: Bytes, stat: Option<Bytes>, items: Bytes)
    requires PlainName(variable) && COMMA !in variable && (stat.Some? ==> PlainName(stat.value))
    ensures ParseEach(EachText(variable, stat, items)) == Some(Each(variable, Trim(items)))
  {
    var head := NamesText(variable, stat) + [SPACE];
    var value := head + [COLON] + ([SPACE] + items);
    NamesAreTrimmed(variable, stat);
    FirstNameIsRead(variable, stat);
    PlainIsTrimmed(variable);
    BeforeStops(head, COLON, [SPACE] + items);
    assert value[|head| + 1..] == [SPACE] + items && ([SPACE] + items)[1..] == items;
  }

  // ---- Modes -----------------------------------------------------------------

  const JAVASCRIPT: Bytes := [106, 97, 118, 97, 115, 99, 114, 105, 112, 116]
  const JS: Bytes := [106, 115]
  const CSS: Bytes := [99, 115, 115]

  /** The mode is the word itself, which may be in single quotes; any other word means markup. */
  lemma ModeIsRead(value: Bytes, word: Bytes)
    requires PlainName(word) && 39 !in word && (value == word || value == [39] + word + [39])
    ensures ModeOf(value) == if word == JAVASCRIPT || word == JS then JavaScript else if word == CSS then Css else Html
  {
    ModeNames();
    VisibleStart(value);
    VisibleEnd(value);
    QuotesGo(word);
  }

  lemma ModeNames()
    ensures Ascii("javascript") == JAVASCRIPT && Ascii("js") == JS && Ascii("css") == CSS
  {
  }

  lemma QuotesGo(word: Bytes)
    requires word != [] && 39 !in word
    ensures Unquote(word) == word && Unquote([39] + word + [39]) == word
  {
    var s := [39] + word + [39];
    assert s[1..] == word + [39];
    assert (word + [39])[..|word|] == word && (word + [39])[0] == word[0];
    assert word[0] in word && word[|word| - 1] in word;
  }

  // ---- From the text of a template -------------------------------------------

  /**
   A template's text with `th:text` among an element's attributes, added and rendered, gives
   the element around an inert text that stands for the value.
   */
  lemma TextTemplate(env: Env, ts: Templates, tag: Bytes, raw: seq<Attr>, statics: seq<Attr>, ds: seq<Attr>,
                     children: seq<Dom>, expr: Bytes, scope: Scope, mode: Mode) returns (inner: Bytes)
    requires TagOk(tag) && ContentOf(tag) == Nodes && TemplateAll(children)
    requires (forall i :: 0 <= i < |raw| ==> SpelledOk(raw[i])) && Merged(raw, statics, ds)
    requires Ready(env, ds, scope) && LastNamed(ds, REPLACE).None? && LastNamed(ds, INSERT).None?
    requires LastNamed(ds, TEXT) == Some(expr)
    ensures var node := Element(tag, false, statics, ds, children);
            && ReadNodes(SourceTag(tag, raw) + (SourceAll(children) + CloseTag(tag))) == Some(Read([node], []))
            && RenderNode(env, ts, node, scope, mode, 0) == Around(env, node, scope, Output(inner, true))
            && StandsFor(inner, env.eval(expr, scope).text)
  {
    MergedReadsBack(tag, raw, statics, ds, children);
    inner := TextWrites(env, ts, Element(tag, false, statics, ds, children), expr, scope, mode, 0);
  }
}
