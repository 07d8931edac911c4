/**
 What each directive of a template writes (crates/kernleaf/src/lib.rs:318-525, 862-987), in
 terms of what the model answers, said without the functions that write it: entities are
 decoded, attributes are read back, and the directives in force are looked up by name.
 */
module DirectiveRules {
  import opened Common
  import opened Text
  import opened Markup
  import opened MarkupRoundTrip
  import opened Rendering

  // ---- Entities --------------------------------------------------------------

  const AMP: Bytes := [38, 97, 109, 112, 59]         // &amp;
  const LESS: Bytes := [38, 108, 116, 59]            // &lt;
  const GREATER: Bytes := [38, 103, 116, 59]         // &gt;
  const QUOT: Bytes := [38, 113, 117, 111, 116, 59]  // &quot;
  const APOS: Bytes := [38, 35, 120, 50, 55, 59]     // &#x27;

  /** The text a browser makes of the five entities. */
  function Decode(s: Bytes): Bytes {
    if s == [] then []
    else if AMP <= s then [38] + Decode(s[5..])
    else if LESS <= s then [60] + Decode(s[4..])
    else if GREATER <= s then [62] + Decode(s[4..])
    else if QUOT <= s then [34] + Decode(s[6..])
    else if APOS <= s then [39] + Decode(s[6..])
    else [s[0]] + Decode(s[1..])
  }

  /** Nothing in the text starts a tag or ends a quoted value. */
  predicate Inert(s: Bytes) {
    60 !in s && 62 !in s && 34 !in s && 39 !in s
  }

  /** `safe` stands for `value` in markup. */
  predicate StandsFor(safe: Bytes, value: Bytes) {
    Inert(safe) && Decode(safe) == value
  }

  lemma EntityIs(b: byte)
    ensures EscapeByte(b) ==
            if b == 38 then AMP else if b == 60 then LESS else if b == 62 then GREATER else if b == 34 then QUOT
            else if b == 39 then APOS else [b]
  {
  }

  lemma FrontIs(e: Bytes, rest: Bytes)
    ensures e <= e + rest && (e + rest)[|e|..] == rest && (|e| > 1 ==> (e + rest)[1] == e[1])
  {
  }

  lemma AmpDecodes(rest: Bytes)
    ensures Decode(AMP + rest) == [38] + Decode(rest)
  {
    FrontIs(AMP, rest);
  }

  lemma LessDecodes(rest: Bytes)
    ensures Decode(LESS + rest) == [60] + Decode(rest)
  {
    FrontIs(LESS, rest);
  }

  lemma GreaterDecodes(rest: Bytes)
    ensures Decode(GREATER + rest) == [62] + Decode(rest)
  {
    FrontIs(GREATER, rest);
  }

  lemma QuotDecodes(rest: Bytes)
    ensures Decode(QUOT + rest) == [34] + Decode(rest)
  {
    FrontIs(QUOT, rest);
  }

  lemma AposDecodes(rest: Bytes)
    ensures Decode(APOS + rest) == [39] + Decode(rest)
  {
    FrontIs(APOS, rest);
  }

  lemma OtherDecodes(b: byte, rest: Bytes)
    requires b != 38
    ensures Decode([b] + rest) == [b] + Decode(rest)
  {
    FrontIs([b], rest);
    assert ([b] + rest)[0] == b;
  }

  lemma EntityDecodes(b: byte, rest: Bytes)
    ensures Decode(EscapeByte(b) + rest) == [b] + Decode(rest)
  {
    EntityIs(b);
    if b == 38 {
      AmpDecodes(rest);
    } else if b == 60 {
      LessDecodes(rest);
    } else if b == 62 {
      GreaterDecodes(rest);
    } else if b == 34 {
      QuotDecodes(rest);
    } else if b == 39 {
      AposDecodes(rest);
    } else {
      OtherDecodes(b, rest);
    }
  }

  lemma EntityIsInert(b: byte)
    ensures Inert(EscapeByte(b))
  {
    EntityIs(b);
  }

  /** Escaped text is inert, and stands for the text. */
  lemma {:induction false} EscapeStandsFor(value: Bytes)
    ensures StandsFor(Escape(value), value)
  {
    if value != [] {
      EscapeStandsFor(value[1..]);
      EntityDecodes(value[0], Escape(value[1..]));
      EntityIsInert(value[0]);
      assert value == [value[0]] + value[1..];
    }
  }

  // ---- Attributes ------------------------------------------------------------

  /** The attributes have those names, and values that stand for those values. */
  predicate Carries(read: seq<Attr>, attrs: seq<Attr>) {
    |read| == |attrs| &&
    forall i :: 0 <= i < |attrs| ==> read[i].name == attrs[i].name && StandsFor(read[i].value, attrs[i].value)
  }

  function Answered(env: Env, dynamic: seq<Attr>, scope: Scope): seq<Attr> {
    if dynamic == [] then []
    else [Attr(dynamic[0].name, env.eval(dynamic[0].value, scope).text)] + Answered(env, dynamic[1..], scope)
  }

  function Escaped(attrs: seq<Attr>): seq<Attr> {
    if attrs == [] then [] else [Attr(attrs[0].name, Escape(attrs[0].value))] + Escaped(attrs[1..])
  }

  lemma {:induction false} EscapedCarries(attrs: seq<Attr>)
    ensures Carries(Escaped(attrs), attrs)
  {
    if attrs != [] {
      EscapedCarries(attrs[1..]);
      EscapeStandsFor(attrs[0].value);
    }
  }

  lemma {:induction false} StaticsAreSpelled(attrs: seq<Attr>)
    ensures WriteAttrs(attrs) == SourceAttrs(Escaped(attrs))
  {
    if attrs != [] { StaticsAreSpelled(attrs[1..]); }
  }

  lemma {:induction false} DynamicsAreSpelled(env: Env, dynamic: seq<Attr>, scope: Scope)
    ensures WriteDynamic(env, dynamic, scope) == SourceAttrs(Escaped(Answered(env, dynamic, scope)))
  {
    if dynamic != [] { DynamicsAreSpelled(env, dynamic[1..], scope); }
  }

  lemma {:induction false} SpelledBoth(a: seq<Attr>, b: seq<Attr>)
    ensures SourceAttrs(a + b) == SourceAttrs(a) + SourceAttrs(b)
  {
    if a == [] {
      assert a + b == b;
    } else {
      SpelledBoth(a[1..], b);
      assert (a + b)[1..] == a[1..] + b;
      Assoc(SourceAttr(a[0]), SourceAttrs(a[1..]), SourceAttrs(b));
    }
  }

  /** The static attributes and what the model answers for the dynamic ones. */
  function Attributes(env: Env, node: Dom, scope: Scope): seq<Attr>
    requires node.Element?
  {
    node.attrs + Answered(env, ViewOf(node.directives).dynamic, scope)
  }

  lemma HeadIsSpelled(env: Env, node: Dom, scope: Scope)
    requires node.Element?
    ensures Head(env, node, ViewOf(node.directives), scope) ==
            SourceTag(node.tag, Escaped(node.attrs) + Escaped(Answered(env, ViewOf(node.directives).dynamic, scope)))
  {
    var dynamic := ViewOf(node.directives).dynamic;
    StaticsAreSpelled(node.attrs);
    DynamicsAreSpelled(env, dynamic, scope);
    SpelledBoth(Escaped(node.attrs), Escaped(Answered(env, dynamic, scope)));
    Assoc([LT] + node.tag, WriteAttrs(node.attrs), WriteDynamic(env, dynamic, scope));
  }

  lemma CarriesBoth(a: seq<Attr>, as': seq<Attr>, b: seq<Attr>, bs: seq<Attr>)
    requires Carries(a, as') && Carries(b, bs)
    ensures Carries(a + b, as' + bs)
  {
  }

  lemma CarriedAreOk(read: seq<Attr>, attrs: seq<Attr>)
    requires Carries(read, attrs) && forall i :: 0 <= i < |attrs| ==> NameOk(attrs[i].name)
    ensures forall i :: 0 <= i < |read| ==> SpelledOk(read[i])
  {
  }

  /** Reading the open tag that is written gives the tag and every attribute with its value. */
  lemma HeadReadsBack(env: Env, node: Dom, scope: Scope, rest: Bytes) returns (read: seq<Attr>)
    requires node.Element? && TagOk(node.tag)
    requires forall i :: 0 <= i < |Attributes(env, node, scope)| ==> NameOk(Attributes(env, node, scope)[i].name)
    ensures Carries(read, Attributes(env, node, scope))
    ensures var s := Head(env, node, ViewOf(node.directives), scope) + rest;
            && s[0] == LT && NameAt(s[1..]) == node.tag
            && ReadAttrs(s[1 + |node.tag|..]) == Some(Read(TagEnd(read, false), rest))
  {
    var dynamics := Answered(env, ViewOf(node.directives).dynamic, scope);
    read := Escaped(node.attrs) + Escaped(dynamics);
    EscapedCarries(node.attrs);
    EscapedCarries(dynamics);
    CarriesBoth(Escaped(node.attrs), node.attrs, Escaped(dynamics), dynamics);
    HeadIsSpelled(env, node, scope);
    CarriedAreOk(read, Attributes(env, node, scope));
    OpenReads(node.tag, read, rest);
  }

  // ---- The CSRF field --------------------------------------------------------

  /** The first attribute of that name, in any case. */
  ghost predicate FirstNamed(attrs: seq<Attr>, name: Bytes, i: nat) {
    && i < |attrs| && SameIgnoringCase(attrs[i].name, name)
    && forall j :: 0 <= j < i ==> !SameIgnoringCase(attrs[j].name, name)
  }

  lemma FirstLater(attrs: seq<Attr>, name: Bytes, i: nat)
    requires attrs != [] && !SameIgnoringCase(attrs[0].name, name)
    ensures FirstNamed(attrs, name, i) <==> i > 0 && FirstNamed(attrs[1..], name, i - 1)
  {
    if i > 0 && FirstNamed(attrs, name, i) {
      forall j | 0 <= j < i - 1 ensures !SameIgnoringCase(attrs[1..][j].name, name) {
        assert attrs[1..][j] == attrs[j + 1];
      }
    }
  }

  /** The first attribute of that name has a value other than `value`. */
  ghost predicate FirstDiffers(attrs: seq<Attr>, name: Bytes, value: Bytes) {
    exists i: nat :: FirstNamed(attrs, name, i) && !SameIgnoringCase(attrs[i].value, value)
  }

  lemma DiffersLater(attrs: seq<Attr>, name: Bytes, value: Bytes)
    requires attrs != [] && !SameIgnoringCase(attrs[0].name, name)
    ensures FirstDiffers(attrs, name, value) <==> FirstDiffers(attrs[1..], name, value)
  {
    if i: nat :| FirstNamed(attrs, name, i) && !SameIgnoringCase(attrs[i].value, value) {
      FirstLater(attrs, name, i);
      assert FirstNamed(attrs[1..], name, i - 1);
    }
    if i: nat :| FirstNamed(attrs[1..], name, i) && !SameIgnoringCase(attrs[1..][i].value, value) {
      FirstLater(attrs, name, i + 1);
      assert FirstNamed(attrs, name, i + 1);
    }
  }

  lemma {:induction false} ChangesStateIff(attrs: seq<Attr>)
    ensures ChangesState(attrs) <==> FirstDiffers(attrs, Ascii("method"), Ascii("get"))
  {
    if attrs != [] {
      ChangesStateIff(attrs[1..]);
      if SameIgnoringCase(attrs[0].name, Ascii("method")) {
        assert FirstNamed(attrs, Ascii("method"), 0);
      } else {
        DiffersLater(attrs, Ascii("method"), Ascii("get"));
      }
    }
  }

  /** A state-changing form: its first `method` is not `get`. */
  ghost predicate NeedsToken(node: Dom)
    requires node.Element?
  {
    SameIgnoringCase(node.tag, Ascii("form")) && FirstDiffers(node.attrs, Ascii("method"), Ascii("get"))
  }

  function TokenAttrs(value: Bytes): seq<Attr> {
    [Attr(Ascii("type"), Ascii("hidden")), Attr(Ascii("name"), Ascii("_csrf")), Attr(Ascii("value"), value)]
  }

  lemma TokenNames()
    ensures Ascii("input") == [105, 110, 112, 117, 116] && Ascii("hidden") == [104, 105, 100, 100, 101, 110]
    ensures Ascii("type") == [116, 121, 112, 101] && Ascii("name") == [110, 97, 109, 101]
    ensures Ascii("value") == [118, 97, 108, 117, 101] && Ascii("_csrf") == [95, 99, 115, 114, 102]
  {
  }

  lemma TypeAttr()
    ensures SourceAttr(Attr(Ascii("type"), Ascii("hidden"))) ==
            [32, 116, 121, 112, 101, 61, 34, 104, 105, 100, 100, 101, 110, 34]
  {
    TokenNames();
  }

  lemma TokenStartIs()
    ensures Ascii("<input type=\"hidden\" name=\"") ==
            [60, 105, 110, 112, 117, 116] +
            [32, 116, 121, 112, 101, 61, 34, 104, 105, 100, 100, 101, 110, 34] +
            [32, 110, 97, 109, 101, 61, 34]
  {
  }

  lemma TokenStart()
    ensures Ascii("<input type=\"hidden\" name=\"") ==
            [LT] + Ascii("input") + SourceAttr(Attr(Ascii("type"), Ascii("hidden"))) +
            ([SPACE] + Ascii("name") + [EQUALS, QUOTE])
  {
    TokenStartIs();
    TypeAttr();
    TokenPieces();
  }

  lemma TokenPieces()
    ensures [LT] + Ascii("input") == [60, 105, 110, 112, 117, 116]
    ensures [SPACE] + Ascii("name") + [EQUALS, QUOTE] == [32, 110, 97, 109, 101, 61, 34]
  {
    TokenNames();
  }

  lemma TokenMiddle()
    ensures Ascii("\" value=\"") == [QUOTE] + ([SPACE] + Ascii("value") + [EQUALS, QUOTE])
  {
    TokenNames();
  }

  lemma TokenIsSpelled(value: Bytes)
    ensures Ascii("<input type=\"hidden\" name=\"") + Ascii("_csrf") + Ascii("\" value=\"") + value + [QUOTE, GT] ==
            SourceTag(Ascii("input"), TokenAttrs(value))
  {
    var a := TokenAttrs(value);
    assert a[1..] == [a[1], a[2]] && a[1..][1..] == [a[2]] && a[1..][1..][1..] == [];
    assert SourceAttrs([a[2]]) == SourceAttr(a[2]) + [] == SourceAttr(a[2]);
    assert SourceAttrs([a[1], a[2]]) == SourceAttr(a[1]) + SourceAttr(a[2]);
    assert SourceAttrs(a) == SourceAttr(a[0]) + (SourceAttr(a[1]) + SourceAttr(a[2]));
    TokenStart();
    TokenMiddle();
    var name, value_ := [SPACE] + Ascii("name") + [EQUALS, QUOTE], [SPACE] + Ascii("value") + [EQUALS, QUOTE];
    TagShape([LT] + Ascii("input"), SourceAttr(a[0]), name, Ascii("_csrf"), value_, value);
  }

  lemma TagShape(open: Bytes, first: Bytes, name: Bytes, csrf: Bytes, value: Bytes, token: Bytes)
    ensures open + first + name + csrf + ([QUOTE] + value) + token + [QUOTE, GT] ==
            open + (first + ((name + csrf + [QUOTE]) + (value + token + [QUOTE]))) + [GT]
  {
  }

  /** With a token, a state-changing form and nothing else starts with a hidden field that carries the token. */
  lemma TokenReadsBack(env: Env, node: Dom, rest: Bytes) returns (value: Bytes)
    requires node.Element?
    ensures TokenField(env, node) != [] <==> env.csrf.Some? && NeedsToken(node)
    ensures TokenField(env, node) != [] ==>
              && StandsFor(value, env.csrf.value)
              && ReadNode(TokenField(env, node) + rest) ==
                 Some(Read(Element(Ascii("input"), true, TokenAttrs(value), [], []), rest))
  {
    ChangesStateIff(node.attrs);
    value := [];
    if env.csrf.Some? && NeedsToken(node) {
      value := Escape(env.csrf.value);
      EscapeStandsFor(env.csrf.value);
      TokenIsSpelled(value);
      TokenElement(value, rest);
    }
  }

  lemma TokenElement(value: Bytes, rest: Bytes)
    requires Inert(value)
    ensures ReadNode(SourceTag(Ascii("input"), TokenAttrs(value)) + rest) ==
            Some(Read(Element(Ascii("input"), true, TokenAttrs(value), [], []), rest))
  {
    var node := Element(Ascii("input"), true, TokenAttrs(value), [], []);
    TokenTemplate(value);
    assert node.attrs + Spelled([]) == node.attrs;
    NodeReads(node, rest);
  }

  lemma {:induction false} ListedAt(tag: Bytes, names: seq<Bytes>, i: nat)
    requires i < |names| && names[i] == tag
    ensures Listed(tag, names)
  {
    if i > 0 { ListedAt(tag, names[1..], i - 1); }
  }

  lemma TokenTemplate(value: Bytes)
    requires Inert(value)
    ensures Template(Element(Ascii("input"), true, TokenAttrs(value), [], []))
  {
    InputIsVoid();
    TokenAttrsOk(value);
  }

  lemma InputIsVoid()
    ensures TagOk(Ascii("input")) && ContentOf(Ascii("input")) == NoContent
  {
    InputIsLower();
    ListedAt(Ascii("input"), VoidTags(), 7);
  }

  lemma InputIsLower()
    ensures TagOk(Ascii("input")) && LowerAll(Ascii("input")) == Ascii("input")
  {
    TokenNames();
  }

  lemma AttrIsOk(a: Attr)
    requires NameOk(a.name) && a.name[0] != TH[0] && a.name[0] != XMLNS_TH[0] && Inert(a.value)
    ensures StaticOk(a)
  {
  }

  lemma TokenAttrsOk(value: Bytes)
    requires Inert(value)
    ensures forall i :: 0 <= i < |TokenAttrs(value)| ==> StaticOk(TokenAttrs(value)[i])
  {
    TypeIsOk();
    NameIsOk();
    ValueIsOk(value);
  }

  lemma NameIsOk()
    ensures StaticOk(Attr(Ascii("name"), Ascii("_csrf")))
  {
    TokenNames();
    AttrIsOk(Attr(Ascii("name"), Ascii("_csrf")));
  }

  lemma ValueIsOk(value: Bytes)
    requires Inert(value)
    ensures StaticOk(Attr(Ascii("value"), value))
  {
    TokenNames();
    AttrIsOk(Attr(Ascii("value"), value));
  }

  lemma TypeIsOk()
    ensures StaticOk(Attr(Ascii("type"), Ascii("hidden")))
  {
    TokenNames();
    assert Ascii("type")[1] != TH[1];
  }

  // ---- The directives in force -----------------------------------------------

  /** The last directive of that name. */
  function LastNamed(ds: seq<Attr>, name: Bytes): Option<Bytes> {
    if ds == [] then None
    else if ds[|ds| - 1].name == name then Some(ds[|ds| - 1].value)
    else LastNamed(ds[..|ds| - 1], name)
  }

  const TEXT: Bytes := [116, 101, 120, 116]
  const UTEXT: Bytes := [117, 116, 101, 120, 116]
  const IF: Bytes := [105, 102]
  const UNLESS: Bytes := [117, 110, 108, 101, 115, 115]
  const EACH: Bytes := [101, 97, 99, 104]
  const INLINE: Bytes := [105, 110, 108, 105, 110, 101]
  const AUTHORIZE: Bytes := [97, 117, 116, 104, 111, 114, 105, 122, 101]
  const FRAGMENT: Bytes := [102, 114, 97, 103, 109, 101, 110, 116]
  const INSERT: Bytes := [105, 110, 115, 101, 114, 116]
  const REPLACE: Bytes := [114, 101, 112, 108, 97, 99, 101]

  predicate Known(name: Bytes) {
    || name == TEXT || name == UTEXT || name == IF || name == UNLESS || name == EACH
    || name == INLINE || name == AUTHORIZE || name == FRAGMENT || name == INSERT || name == REPLACE
  }

  /** The directives that stand for attributes: those of no known name. */
  function Unknown(ds: seq<Attr>): seq<Attr> {
    if ds == [] then []
    else
      var front, last := Unknown(ds[..|ds| - 1]), ds[|ds| - 1];
      if Known(last.name) then front else front + [last]
  }

  function Map<T, U>(f: T -> U, x: Option<T>): Option<U> {
    if x.None? then None else Some(f(x.value))
  }

  /** Every `th:each` names a variable and items; a template with another is not added. */
  predicate EachOk(ds: seq<Attr>) {
    forall i :: 0 <= i < |ds| && ds[i].name == EACH ==> ParseEach(ds[i].value).Some?
  }

  lemma NamesAre()
    ensures Ascii("text") == TEXT && Ascii("utext") == UTEXT && Ascii("if") == IF && Ascii("unless") == UNLESS
    ensures Ascii("each") == EACH && Ascii("inline") == INLINE && Ascii("authorize") == AUTHORIZE
    ensures Ascii("fragment") == FRAGMENT && Ascii("insert") == INSERT && Ascii("replace") == REPLACE
  {
  }

  /** What each name is for. */
  lemma ApplyIs(v: View, d: Attr)
    ensures Apply(v, d) ==
            if d.name == TEXT then v.(text := Some(d.value))
            else if d.name == UTEXT then v.(utext := Some(d.value))
            else if d.name == IF then v.(cond := Some(d.value))
            else if d.name == UNLESS then v.(unless := Some(d.value))
            else if d.name == EACH then (if ParseEach(d.value).Some? then v.(each := ParseEach(d.value)) else v)
            else if d.name == INLINE then v.(mode := Some(ParseMode(Unquote(Trim(d.value)))))
            else if d.name == AUTHORIZE then v.(authorize := Some(d.value))
            else if d.name == FRAGMENT then v.(fragment := Some(FragmentName(d.value)))
            else if d.name == INSERT then v.(insert := Some(ParseFragmentRef(d.value)))
            else if d.name == REPLACE then v.(replace := Some(ParseFragmentRef(d.value)))
            else v.(dynamic := v.dynamic + [d])
  {
    NamesAre();
  }

  function ModeOf(value: Bytes): Mode {
    ParseMode(Unquote(Trim(value)))
  }

  /** The last directive of each name is in force: conditions and content. */
  ghost predicate ValuesInForce(v: View, ds: seq<Attr>) {
    && v.text == LastNamed(ds, TEXT) && v.utext == LastNamed(ds, UTEXT)
    && v.cond == LastNamed(ds, IF) && v.unless == LastNamed(ds, UNLESS) && v.authorize == LastNamed(ds, AUTHORIZE)
  }

  /** And loops, fragments and modes. */
  ghost predicate PartsInForce(v: View, ds: seq<Attr>) {
    && (EachOk(ds) ==> v.each == if LastNamed(ds, EACH).None? then None else ParseEach(LastNamed(ds, EACH).value))
    && v.insert == Map(ParseFragmentRef, LastNamed(ds, INSERT))
    && v.replace == Map(ParseFragmentRef, LastNamed(ds, REPLACE))
    && v.fragment == Map(FragmentName, LastNamed(ds, FRAGMENT))
    && v.mode == Map(ModeOf, LastNamed(ds, INLINE))
  }

  lemma {:induction false} ValuesLast(ds: seq<Attr>)
    ensures ValuesInForce(ViewOf(ds), ds)
    decreases |ds|
  {
    if ds != [] {
      ValuesLast(ds[..|ds| - 1]);
      ApplyIs(ViewOf(ds[..|ds| - 1]), ds[|ds| - 1]);
    }
  }

  lemma {:induction false} PartsLast(ds: seq<Attr>)
    ensures PartsInForce(ViewOf(ds), ds)
    decreases |ds|
  {
    if ds != [] {
      var front := ds[..|ds| - 1];
      PartsLast(front);
      assert EachOk(ds) ==> EachOk(front);
      ApplyIs(ViewOf(front), ds[|ds| - 1]);
    }
  }

  lemma {:induction false} DynamicsAre(ds: seq<Attr>)
    ensures ViewOf(ds).dynamic == Unknown(ds)
    decreases |ds|
  {
    if ds != [] {
      DynamicsAre(ds[..|ds| - 1]);
      ApplyIs(ViewOf(ds[..|ds| - 1]), ds[|ds| - 1]);
    }
  }

  lemma LastIsInForce(ds: seq<Attr>)
    ensures ValuesInForce(ViewOf(ds), ds) && PartsInForce(ViewOf(ds), ds) && ViewOf(ds).dynamic == Unknown(ds)
  {
    ValuesLast(ds);
    PartsLast(ds);
    DynamicsAre(ds);
  }

  // ---- Adding a template -----------------------------------------------------

  /**
   What a directive must be for its template to be added: a loop names a variable and items
   that are an expression, rules are rules, four kinds are anything, and all others are
   expressions.
   */
  lemma DirectiveOkIff(syn: Syntax, d: Attr)
    ensures DirectiveOk(syn, d) <==>
            if d.name == EACH then ParseEach(d.value).Some? && syn.expr(ParseEach(d.value).value.items)
            else if d.name == AUTHORIZE then syn.authorize(d.value)
            else d.name == INLINE || d.name == FRAGMENT || d.name == INSERT || d.name == REPLACE || syn.expr(d.value)
  {
    NamesAre();
    var free := [Ascii("inline"), Ascii("fragment"), Ascii("insert"), Ascii("replace")];
    assert free[0] == INLINE && free[1] == FRAGMENT && free[2] == INSERT && free[3] == REPLACE;
  }

  /** An element's directives compile exactly if each of them does. */
  lemma {:induction false} DirectivesOkIff(syn: Syntax, ds: seq<Attr>)
    ensures DirectivesOk(syn, ds) <==> forall i :: 0 <= i < |ds| ==> DirectiveOk(syn, ds[i])
  {
    if ds != [] {
      DirectivesOkIff(syn, ds[1..]);
      if DirectivesOk(syn, ds[1..]) && DirectiveOk(syn, ds[0]) {
        forall i | 0 <= i < |ds| ensures DirectiveOk(syn, ds[i]) {
          if i > 0 { assert ds[i] == ds[1..][i - 1]; }
        }
      }
      if forall i :: 0 <= i < |ds| ==> DirectiveOk(syn, ds[i]) {
        forall i | 0 <= i < |ds[1..]| ensures DirectiveOk(syn, ds[1..][i]) { assert ds[1..][i] == ds[i + 1]; }
      }
    }
  }
}
