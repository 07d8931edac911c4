/**
 The language of kernleaf's expression parser: nothing but well-formed spellings is
 accepted, and the spelling with the fewest brackets.
 */
module Grammar {
  import opened Common
  import opened Text
  import opened Expressions

  // ---- Whatever parses is a well-formed spelling -----------------------------

  /** `s` spells the tokens `toks` up to `rest`, at rung `l` or above. */
  ghost predicate Spells(s: Spelling, l: nat, e: Expr, toks: seq<Tok>, rest: seq<Tok>) {
    WellFormed(s) && Level(s) >= l && Meaning(s) == e && toks == Flatten(s) + rest
  }

  lemma {:induction false} ParsedIsSpelling(l: nat, toks: seq<Tok>) returns (s: Spelling)
    requires l <= PRIMARY && Parse(l, toks).Some?
    ensures Spells(s, l, Parse(l, toks).value.value, toks, Parse(l, toks).value.rest)
    decreases |toks|, 2 * (PRIMARY - l) + 2
  {
    if l == TERNARY {
      s := TernaryIsSpelling(toks);
    } else if l < UNARY {
      var left := ParsedIsSpelling(l + 1, toks);
      s := ClimbedIsSpelling(l, left, Parse(l + 1, toks).value.rest);
    } else if l == UNARY {
      s := UnaryIsSpelling(toks);
    } else {
      s := PrimaryIsSpelling(toks);
    }
  }

  lemma {:induction false} UnaryIsSpelling(toks: seq<Tok>) returns (s: Spelling)
    requires Parse(UNARY, toks).Some?
    ensures Spells(s, UNARY, Parse(UNARY, toks).value.value, toks, Parse(UNARY, toks).value.rest)
    decreases |toks|, 2 * (PRIMARY - UNARY) + 1
  {
    if toks != [] && (toks[0] == TMinus || toks[0] == TNot) {
      var e := ParsedIsSpelling(UNARY, toks[1..]);
      s := Prefix(if toks[0] == TMinus then Neg else Not, e);
      FirstAndRest(toks, Flatten(e), Parse(UNARY, toks[1..]).value.rest);
    } else {
      s := ParsedIsSpelling(PRIMARY, toks);
    }
  }

  lemma FirstAndRest(toks: seq<Tok>, a: seq<Tok>, rest: seq<Tok>)
    requires toks != [] && toks[1..] == a + rest
    ensures toks == [toks[0]] + a + rest
  {
    assert toks == [toks[0]] + toks[1..];
  }

  lemma {:induction false} TernaryIsSpelling(toks: seq<Tok>) returns (s: Spelling)
    requires Parse(TERNARY, toks).Some?
    ensures Spells(s, TERNARY, Parse(TERNARY, toks).value.value, toks, Parse(TERNARY, toks).value.rest)
    decreases |toks|, 2 * PRIMARY + 1
  {
    var c := ParsedIsSpelling(1, toks);
    var rest := Parse(1, toks).value.rest;
    if rest != [] && rest[0] == TElvis {
      var alt := ParsedIsSpelling(TERNARY, rest[1..]);
      s := Default(c, alt);
      SpellsDefault(c, Parse(1, toks).value.value, toks, rest, alt, Parse(TERNARY, rest[1..]).value);
    } else if rest != [] && rest[0] == Question {
      s := ChoiceIsSpelling(c, Parse(1, toks).value.value, toks, rest);
    } else {
      s := c;
    }
  }

  lemma {:induction false} ChoiceIsSpelling(c: Spelling, e0: Expr, toks: seq<Tok>, rest: seq<Tok>) returns (s: Spelling)
    requires Parse(1, toks) == Some(Parsed(e0, rest)) && Spells(c, 1, e0, toks, rest)
    requires rest != [] && rest[0] == Question && Parse(TERNARY, toks).Some?
    ensures Spells(s, TERNARY, Parse(TERNARY, toks).value.value, toks, Parse(TERNARY, toks).value.rest)
    decreases |toks|, 0
  {
    assert Parse(TERNARY, toks) == Choose(e0, rest[1..]);
    var yes, no := ChoiceParts(e0, rest[1..]);
    var y := ParsedIsSpelling(TERNARY, rest[1..]);
    var n := ParsedIsSpelling(TERNARY, yes.rest[1..]);
    s := Choice(c, y, n);
    SpellsChoice(c, e0, toks, rest, y, yes, n, no);
  }

  lemma SpellsChoice(c: Spelling, e0: Expr, toks: seq<Tok>, rest: seq<Tok>, y: Spelling, yes: Parsed<Expr>, n: Spelling,
                     no: Parsed<Expr>)
    requires Spells(c, 1, e0, toks, rest) && rest != [] && rest[0] == Question
    requires Spells(y, TERNARY, yes.value, rest[1..], yes.rest) && yes.rest != [] && yes.rest[0] == Colon
    requires Spells(n, TERNARY, no.value, yes.rest[1..], no.rest)
    ensures Spells(Choice(c, y, n), TERNARY, Ternary(e0, yes.value, no.value), toks, no.rest)
  {
    ChoiceTokens(c, y, n, toks, rest, yes.rest, no.rest);
  }

  lemma SpellsDefault(c: Spelling, e0: Expr, toks: seq<Tok>, rest: seq<Tok>, a: Spelling, alt: Parsed<Expr>)
    requires Spells(c, 1, e0, toks, rest) && rest != [] && rest[0] == TElvis &&
      Spells(a, TERNARY, alt.value, rest[1..], alt.rest)
    ensures Spells(Default(c, a), TERNARY, Elvis(e0, alt.value), toks, alt.rest)
  {
    DefaultTokens(c, a, toks, rest, alt.rest);
  }

  lemma ChoiceParts(e0: Expr, toks: seq<Tok>) returns (yes: Parsed<Expr>, no: Parsed<Expr>)
    requires Choose(e0, toks).Some?
    ensures Parse(TERNARY, toks) == Some(yes) && yes.rest != [] && yes.rest[0] == Colon &&
      Parse(TERNARY, yes.rest[1..]) == Some(no)
    ensures Choose(e0, toks) == Some(Parsed(Ternary(e0, yes.value, no.value), no.rest))
  {
    yes := Parse(TERNARY, toks).value;
    no := Parse(TERNARY, yes.rest[1..]).value;
  }

  lemma DefaultTokens(c: Spelling, alt: Spelling, toks: seq<Tok>, rest: seq<Tok>, last: seq<Tok>)
    requires toks == Flatten(c) + rest && rest != [] && rest[0] == TElvis && rest[1..] == Flatten(alt) + last
    ensures toks == Flatten(Default(c, alt)) + last
  {
    assert rest == [TElvis] + rest[1..];
  }

  lemma ChoiceTokens(c: Spelling, y: Spelling, n: Spelling, toks: seq<Tok>, rest: seq<Tok>, rest': seq<Tok>,
                     last: seq<Tok>)
    requires toks == Flatten(c) + rest && rest != [] && rest[0] == Question && rest[1..] == Flatten(y) + rest'
    requires rest' != [] && rest'[0] == Colon && rest'[1..] == Flatten(n) + last
    ensures toks == Flatten(Choice(c, y, n)) + last
  {
    assert rest == [Question] + rest[1..] && rest' == [Colon] + rest'[1..];
    Regroup(Flatten(c), Question, Flatten(y), Colon, Flatten(n), last);
  }

  lemma InfixTokens(op: BinOp, a: Spelling, b: Spelling, toks: seq<Tok>, last: seq<Tok>)
    requires toks != [] && toks[0] == TokOf(op) && toks[1..] == Flatten(b) + last
    ensures Flatten(a) + toks == Flatten(Infix(op, a, b)) + last
  {
    assert toks == [TokOf(op)] + toks[1..];
  }

  lemma {:induction false} ClimbedIsSpelling(l: nat, left: Spelling, toks: seq<Tok>) returns (s: Spelling)
    requires 1 <= l < UNARY && WellFormed(left) && Level(left) >= l
    requires Climb(l, Meaning(left), toks).Some?
    ensures var r := Climb(l, Meaning(left), toks).value; Spells(s, l, r.value, Flatten(left) + toks, r.rest)
    decreases |toks|, 0
  {
    var op := OpAt(l, toks);
    if op.None? {
      s := left;
    } else {
      var right := ParsedIsSpelling(l + 1, toks[1..]);
      var rest := Parse(l + 1, toks[1..]).value.rest;
      TokIsOp(toks[0], op.value);
      InfixTokens(op.value, left, right, toks, rest);
      s := ClimbedIsSpelling(l, Infix(op.value, left, right), rest);
    }
  }

  lemma TokIsOp(t: Tok, op: BinOp)
    requires OpOf(t) == Some(op)
    ensures TokOf(op) == t
  {
  }

  lemma {:induction false} PrimaryIsSpelling(toks: seq<Tok>) returns (s: Spelling)
    requires Primary(toks).Some?
    ensures Spells(s, PRIMARY, Primary(toks).value.value, toks, Primary(toks).value.rest)
    decreases |toks|, 1
  {
    assert toks == [toks[0]] + toks[1..];
    if toks[0] == DollarOpen {
      s := BracketedIsSpelling(Dollar, toks[1..]);
    } else if toks[0] == StarOpen {
      s := BracketedIsSpelling(Star, toks[1..]);
    } else if toks[0] == LParen {
      s := BracketedIsSpelling(Parens, toks[1..]);
    } else if toks[0].TIdent? && IsUtility(toks[0].path) {
      s := CallIsSpelling(toks);
    } else {
      s := Atom(toks[0]);
    }
  }

  lemma {:induction false} CallIsSpelling(toks: seq<Tok>) returns (s: Spelling)
    requires toks != [] && toks[0].TIdent? && IsUtility(toks[0].path) && Primary(toks).Some?
    ensures Spells(s, PRIMARY, Primary(toks).value.value, toks, Primary(toks).value.rest)
    decreases |toks|, 0
  {
    var args := ArgumentsAreSpellings(toks[2..]);
    s := Call(toks[0].path, args);
    CallTokens(toks, FlattenArgs(args), Arguments(toks[2..]).value.rest);
  }

  lemma CallTokens(toks: seq<Tok>, args: seq<Tok>, rest: seq<Tok>)
    requires |toks| >= 2 && toks[2..] == args + [RParen] + rest
    ensures toks == [toks[0], toks[1]] + args + [RParen] + rest
  {
    assert toks == [toks[0], toks[1]] + toks[2..];
  }

  lemma {:induction false} BracketedIsSpelling(b: Bracket, toks: seq<Tok>) returns (s: Spelling)
    requires Bracketed(Close(b), toks).Some?
    ensures var r := Bracketed(Close(b), toks).value; Spells(s, PRIMARY, r.value, [Open(b)] + toks, r.rest)
    decreases |toks|, 20
  {
    var e := ParsedIsSpelling(TERNARY, toks);
    var rest := Parse(TERNARY, toks).value.rest;
    s := Wrap(b, e);
    SpellsWrap(b, e, Parse(TERNARY, toks).value.value, toks, rest);
  }

  lemma SpellsWrap(b: Bracket, s: Spelling, e: Expr, toks: seq<Tok>, rest: seq<Tok>)
    requires Spells(s, TERNARY, e, toks, rest) && rest != [] && rest[0] == Close(b)
    ensures Spells(Wrap(b, s), PRIMARY, e, [Open(b)] + toks, rest[1..])
  {
    assert rest == [Close(b)] + rest[1..];
    assert [Open(b)] + toks == [Open(b)] + Flatten(s) + [Close(b)] + rest[1..];
  }

  lemma {:induction false} ArgumentsAreSpellings(toks: seq<Tok>) returns (args: seq<Spelling>)
    requires Arguments(toks).Some?
    ensures var r := Arguments(toks).value;
            && (forall i :: 0 <= i < |args| ==> WellFormed(args[i])) && Meanings(args) == r.value
            && toks == FlattenArgs(args) + [RParen] + r.rest
    decreases |toks|, 21
  {
    if toks[0] == RParen {
      args := [];
      assert toks == [RParen] + toks[1..];
    } else {
      args := MoreAreSpellings(toks);
    }
  }

  lemma {:induction false} MoreAreSpellings(toks: seq<Tok>) returns (args: seq<Spelling>)
    requires MoreArguments(toks).Some?
    ensures var r := MoreArguments(toks).value;
            && args != [] && (forall i :: 0 <= i < |args| ==> WellFormed(args[i])) && Meanings(args) == r.value
            && toks == FlattenArgs(args) + [RParen] + r.rest
    decreases |toks|, 20
  {
    var a := ParsedIsSpelling(TERNARY, toks);
    var rest := Parse(TERNARY, toks).value.rest;
    if rest[0] == RParen {
      args := [a];
      LastTokens(a, toks, rest);
    } else {
      var more := MoreAreSpellings(rest[1..]);
      args := [a] + more;
      ArgumentTokens(a, more, toks, rest, MoreArguments(rest[1..]).value.rest);
    }
  }

  lemma LastTokens(a: Spelling, toks: seq<Tok>, rest: seq<Tok>)
    requires WellFormed(a) && toks == Flatten(a) + rest && rest != [] && rest[0] == RParen
    ensures toks == FlattenArgs([a]) + [RParen] + rest[1..] && Meanings([a]) == [Meaning(a)]
  {
    assert rest == [RParen] + rest[1..];
  }

  lemma ArgumentTokens(a: Spelling, more: seq<Spelling>, toks: seq<Tok>, rest: seq<Tok>, last: seq<Tok>)
    requires WellFormed(a) && forall i :: 0 <= i < |more| ==> WellFormed(more[i])
    requires toks == Flatten(a) + rest && rest != [] && rest[0] == Comma && more != []
    requires rest[1..] == FlattenArgs(more) + [RParen] + last
    ensures toks == FlattenArgs([a] + more) + [RParen] + last
    ensures Meanings([a] + more) == [Meaning(a)] + Meanings(more)
  {
    OneMoreSpelled(a, more);
    FlattenCons(a, more);
    AfterComma(Flatten(a), rest, FlattenArgs(more), last);
  }

  lemma FlattenCons(a: Spelling, more: seq<Spelling>)
    requires more != []
    ensures FlattenArgs([a] + more) == Flatten(a) + [Comma] + FlattenArgs(more)
  {
    assert ([a] + more)[1..] == more;
  }

  lemma AfterComma(a: seq<Tok>, rest: seq<Tok>, more: seq<Tok>, last: seq<Tok>)
    requires rest != [] && rest[0] == Comma && rest[1..] == more + [RParen] + last
    ensures a + rest == a + [Comma] + more + [RParen] + last
  {
    assert rest == [Comma] + rest[1..];
  }

  /** The parser accepts exactly the well-formed spellings, and returns their meaning. */
  lemma ParserIsGrammar(toks: seq<Tok>, e: Expr)
    ensures ParseAll(toks) == Some(e) <==> exists s :: WellFormed(s) && Flatten(s) == toks && Meaning(s) == e
  {
    if ParseAll(toks) == Some(e) {
      var s := ParsedIsSpelling(TERNARY, toks);
      assert Flatten(s) + [] == Flatten(s);
    }
    if s :| WellFormed(s) && Flatten(s) == toks && Meaning(s) == e {
      SpellingRoundTrip(s);
    }
  }

  // ---- The spelling with the fewest brackets ---------------------------------

  /** An expression a spelling exists for: its names are names the tokens can carry. */
  predicate Spellable(e: Expr) {
    match e
    case Var(path) =>
      && path != [] && path[0] != [] && path[0][0] != HASH
      && forall i :: 0 <= i < |path| ==> path[i] != [] && DOT !in path[i] && Trim(path[i]) == path[i]
    case Embedded(t) => t.TTemplate? || t.TUrl? || t.TMsg?
    case Util(_, f, args) => DOT !in f && forall i :: 0 <= i < |args| ==> Spellable(args[i])
    case Unary(_, x) => Spellable(x)
    case Binary(_, a, b) => Spellable(a) && Spellable(b)
    case Ternary(c, y, n) => Spellable(c) && Spellable(y) && Spellable(n)
    case Elvis(x, alt) => Spellable(x) && Spellable(alt)
    case _ => true
  }

  function Bare(e: Expr): (s: Spelling)
    requires Spellable(e)
    decreases e, 0
  {
    match e
    case Var(path) => Atom(TIdent(Join(path, DOT)))
    case Str(t) => Atom(TStr(t))
    case Num(n) => Atom(TNum(n))
    case Bool(b) => Atom(if b then TTrue else TFalse)
    case Null => Atom(TNull)
    case Embedded(t) => Atom(t)
    case Util(target, f, args) => Call([HASH] + target + [DOT] + f, BareAll(args))
    case Unary(op, x) => Prefix(op, Fewest(x, UNARY))
    case Binary(op, a, b) => Infix(op, Fewest(a, Rung(op)), Fewest(b, Rung(op) + 1))
    case Ternary(c, y, n) => Choice(Fewest(c, 1), Fewest(y, TERNARY), Fewest(n, TERNARY))
    case Elvis(x, alt) => Default(Fewest(x, 1), Fewest(alt, TERNARY))
  }

  function BareAll(args: seq<Expr>): (r: seq<Spelling>)
    requires forall i :: 0 <= i < |args| ==> Spellable(args[i])
    ensures |r| == |args|
    decreases args
  {
    if args == [] then [] else [Fewest(args[0], TERNARY)] + BareAll(args[1..])
  }

  /** Brackets only where the rung demands them. */
  function Fewest(e: Expr, l: nat): Spelling
    requires Spellable(e)
    decreases e, 1
  {
    if Level(Bare(e)) >= l then Bare(e) else Wrap(Parens, Bare(e))
  }

  lemma PathIsAtom(path: seq<Bytes>)
    requires Spellable(Var(path))
    ensures AtomOf(TIdent(Join(path, DOT))) == Some(Var(path))
  {
    SplitOfJoin(path, DOT);
    assert TrimEach(path) == path;
    assert Join(path, DOT)[0] == path[0][0];
  }

  lemma UtilityIsCall(target: Bytes, f: Bytes)
    requires DOT !in f
    ensures var path := [HASH] + target + [DOT] + f; IsUtility(path) && SplitLast(path[1..], DOT) == Some((target, f))
  {
    SplitLastOf(target, DOT, f);
    assert ([HASH] + target + [DOT] + f)[1..] == target + [DOT] + f;
  }

  lemma {:induction false} BareSpells(e: Expr)
    requires Spellable(e)
    ensures WellFormed(Bare(e)) && Meaning(Bare(e)) == e
    decreases e, 0
  {
    match e
    case Var(path) => PathIsAtom(path);
    case Util(target, f, args) =>
      UtilityIsCall(target, f);
      BareAllSpell(args);
    case Unary(op, x) => FewestSpells(x, UNARY);
    case Binary(op, a, b) => FewestSpells(a, Rung(op)); FewestSpells(b, Rung(op) + 1);
    case Ternary(c, y, n) => FewestSpells(c, 1); FewestSpells(y, TERNARY); FewestSpells(n, TERNARY);
    case Elvis(x, alt) => FewestSpells(x, 1); FewestSpells(alt, TERNARY);
    case _ =>
  }

  lemma {:induction false} BareAllSpell(args: seq<Expr>)
    requires forall i :: 0 <= i < |args| ==> Spellable(args[i])
    ensures (forall i :: 0 <= i < |args| ==> WellFormed(BareAll(args)[i])) && Meanings(BareAll(args)) == args
    decreases args
  {
    if args != [] {
      FewestSpells(args[0], TERNARY);
      BareAllSpell(args[1..]);
      OneMoreSpelled(Fewest(args[0], TERNARY), BareAll(args[1..]));
      assert args == [args[0]] + args[1..];
    }
  }

  lemma OneMoreSpelled(s: Spelling, rest: seq<Spelling>)
    requires WellFormed(s) && forall i :: 0 <= i < |rest| ==> WellFormed(rest[i])
    ensures forall i :: 0 <= i < |[s] + rest| ==> WellFormed(([s] + rest)[i])
    ensures Meanings([s] + rest) == [Meaning(s)] + Meanings(rest)
  {
    assert ([s] + rest)[1..] == rest;
  }

  lemma {:induction false} FewestSpells(e: Expr, l: nat)
    requires Spellable(e) && l <= PRIMARY
    ensures WellFormed(Fewest(e, l)) && Meaning(Fewest(e, l)) == e && Level(Fewest(e, l)) >= l
    decreases e, 1
  {
    BareSpells(e);
  }

  /** Printing with the fewest brackets and parsing gives the expression back. */
  lemma PrintedParses(e: Expr)
    requires Spellable(e)
    ensures ParseAll(Flatten(Fewest(e, TERNARY))) == Some(e)
  {
    FewestSpells(e, TERNARY);
    SpellingRoundTrip(Fewest(e, TERNARY));
  }

  /** Every bracket of a spelling. */
  function Brackets(s: Spelling): nat {
    match s
    case Atom(_) => 0
    case Call(_, args) => BracketsAll(args)
    case Prefix(_, e) => Brackets(e)
    case Infix(_, a, b) => Brackets(a) + Brackets(b)
    case Choice(c, y, n) => Brackets(c) + Brackets(y) + Brackets(n)
    case Default(e, alt) => Brackets(e) + Brackets(alt)
    case Wrap(_, e) => 1 + Brackets(e)
  }

  function BracketsAll(args: seq<Spelling>): nat {
    if args == [] then 0 else Brackets(args[0]) + BracketsAll(args[1..])
  }

  /** No spelling of the same expression, at the same rung, has fewer brackets. */
  lemma {:induction false} FewestIsFewest(s: Spelling, l: nat)
    requires WellFormed(s) && Level(s) >= l && Spellable(Meaning(s))
    ensures Brackets(Fewest(Meaning(s), l)) <= Brackets(s)
    decreases s, 1
  {
    if s.Wrap? {
      FewestIsFewest(s.s, TERNARY);
    } else {
      BareIsFewest(s);
    }
  }

  lemma {:induction false} BareIsFewest(s: Spelling)
    requires WellFormed(s) && !s.Wrap? && Spellable(Meaning(s))
    ensures Brackets(Bare(Meaning(s))) <= Brackets(s) && Level(Bare(Meaning(s))) == Level(s)
    decreases s, 0
  {
    match s
    case Atom(t) =>
    case Call(path, args) => AllFewest(s, args);
    case Prefix(_, e) => FewestIsFewest(e, UNARY);
    case Infix(op, a, b) => FewestIsFewest(a, Rung(op)); FewestIsFewest(b, Rung(op) + 1);
    case Choice(c, y, n) => FewestIsFewest(c, 1); FewestIsFewest(y, TERNARY); FewestIsFewest(n, TERNARY);
    case Default(e, alt) => FewestIsFewest(e, 1); FewestIsFewest(alt, TERNARY);
  }

  lemma {:induction false} AllFewest(s: Spelling, args: seq<Spelling>)
    requires forall i :: 0 <= i < |args| ==> WellFormed(args[i]) && args[i] < s
    requires forall i :: 0 <= i < |args| ==> Spellable(Meanings(args)[i])
    ensures BracketsAll(BareAll(Meanings(args))) <= BracketsAll(args)
    decreases s, 0, |args|
  {
    if args != [] {
      var es := Meanings(args);
      assert es[0] == Meaning(args[0]) && es[1..] == Meanings(args[1..]);
      FewestIsFewest(args[0], TERNARY);
      forall i | 0 <= i < |args| - 1
        ensures Spellable(Meanings(args[1..])[i])
      {
        assert es[i + 1] == Meanings(args[1..])[i];
      }
      AllFewest(s, args[1..]);
      assert BareAll(es)[1..] == BareAll(es[1..]);
    }
  }

  // ---- Brackets change nothing -----------------------------------------------

  /** Puts a bracket around the part of a spelling that `path` leads to. */
  function WrapAt(s: Spelling, path: seq<nat>, b: Bracket): Spelling
    decreases s
  {
    if path == [] then Wrap(b, s)
    else
      match s
      case Atom(_) => s
      case Call(p, args) =>
        if path[0] < |args| then Call(p, args[path[0] := WrapAt(args[path[0]], path[1..], b)]) else s
      case Prefix(op, e) => Prefix(op, WrapAt(e, path[1..], b))
      case Infix(op, x, y) =>
        if path[0] == 0 then Infix(op, WrapAt(x, path[1..], b), y) else Infix(op, x, WrapAt(y, path[1..], b))
      case Choice(c, y, n) =>
        if path[0] == 0 then Choice(WrapAt(c, path[1..], b), y, n)
        else if path[0] == 1 then Choice(c, WrapAt(y, path[1..], b), n)
        else Choice(c, y, WrapAt(n, path[1..], b))
      case Default(e, alt) =>
        if path[0] == 0 then Default(WrapAt(e, path[1..], b), alt) else Default(e, WrapAt(alt, path[1..], b))
      case Wrap(k, e) => Wrap(k, WrapAt(e, path[1..], b))
  }

  /** The same expression, well-formed, at least as tight. */
  predicate StandsFor(t: Spelling, s: Spelling)
    requires WellFormed(s)
  {
    WellFormed(t) && Meaning(t) == Meaning(s) && Level(t) >= Level(s)
  }

  lemma {:induction false} WrapKeeps(s: Spelling, path: seq<nat>, b: Bracket)
    requires WellFormed(s)
    ensures StandsFor(WrapAt(s, path, b), s)
    decreases s, 1
  {
    if path != [] {
      match s
      case Atom(_) =>
      case Call(_, _) => WrapKeepsCall(s, path, b);
      case Prefix(_, e) => WrapKeeps(e, path[1..], b);
      case Infix(_, x, y) => WrapKeeps(x, path[1..], b); WrapKeeps(y, path[1..], b);
      case Choice(_, _, _) => WrapKeepsChoice(s, path, b);
      case Default(e, alt) => WrapKeeps(e, path[1..], b); WrapKeeps(alt, path[1..], b);
      case Wrap(_, e) => WrapKeeps(e, path[1..], b);
    }
  }

  lemma {:induction false} WrapKeepsCall(s: Spelling, path: seq<nat>, b: Bracket)
    requires WellFormed(s) && s.Call? && path != []
    ensures StandsFor(WrapAt(s, path, b), s)
    decreases s, 0
  {
    if path[0] < |s.args| {
      WrapKeeps(s.args[path[0]], path[1..], b);
      MeaningsUpdate(s.args, path[0], WrapAt(s.args[path[0]], path[1..], b));
    }
  }

  lemma {:induction false} WrapKeepsChoice(s: Spelling, path: seq<nat>, b: Bracket)
    requires WellFormed(s) && s.Choice? && path != []
    ensures StandsFor(WrapAt(s, path, b), s)
    decreases s, 0
  {
    if path[0] == 0 {
      WrapKeeps(s.cond, path[1..], b);
    } else if path[0] == 1 {
      WrapKeeps(s.yes, path[1..], b);
    } else {
      WrapKeeps(s.no, path[1..], b);
    }
  }

  lemma {:induction false} MeaningsUpdate(args: seq<Spelling>, i: nat, s: Spelling)
    requires i < |args| && WellFormed(s) && forall j :: 0 <= j < |args| ==> WellFormed(args[j])
    requires Meaning(s) == Meaning(args[i])
    ensures Meanings(args[i := s]) == Meanings(args)
  {
    if i == 0 {
      assert args[0 := s][1..] == args[1..];
    } else {
      MeaningsUpdate(args[1..], i - 1, s);
      assert args[i := s][1..] == args[1..][i - 1 := s];
    }
  }

  /** Wrapping any part in `( )`, `${ }` or `*{ }` does not change what is parsed. */
  lemma WrappingChangesNothing(s: Spelling, path: seq<nat>, b: Bracket)
    requires WellFormed(s)
    ensures ParseAll(Flatten(WrapAt(s, path, b))) == ParseAll(Flatten(s))
  {
    WrapKeeps(s, path, b);
    SpellingRoundTrip(s);
    SpellingRoundTrip(WrapAt(s, path, b));
  }
}
