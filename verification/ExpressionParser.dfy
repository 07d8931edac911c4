/**
 The parser `P` of crates/kernleaf/src/expr.rs:776-986 as it runs: an index into the
 tokens, one method per rung of the ladder (the six binary rungs, alike but for their
 operators, as one method), loops for the left-associative operators. Each method is
 proved against the function of the tokens ahead.
 */
module ExpressionParser {
  import opened Common
  import opened Text
  import opened Expressions

  class P {
    const toks: seq<Tok>
    var pos: nat

    constructor (toks: seq<Tok>)
      ensures this.toks == toks && pos == 0
    {
      this.toks, pos := toks, 0;
    }

    function Ahead(): seq<Tok>
      requires pos <= |toks|
      reads this`pos
    {
      toks[pos..]
    }

    /** The method did what the function says: the same value, and the index at the rest. */
    ghost predicate Agrees<T>(r: Option<T>, spec: Option<Parsed<T>>)
      reads this`pos
    {
      && pos <= |toks|
      && (r.None? <==> spec.None?)
      && (r.Some? ==> spec.value.value == r.value && spec.value.rest == toks[pos..])
    }

    method Eat(t: Tok) returns (eaten: bool)
      requires pos <= |toks|
      modifies this`pos
      ensures eaten <==> old(Ahead()) != [] && old(Ahead())[0] == t
      ensures pos == old(pos) + if eaten then 1 else 0
      ensures eaten ==> pos <= |toks| && Ahead() == old(Ahead())[1..]
    {
      if pos < |toks| && toks[pos] == t {
        pos := pos + 1;
        return true;
      }
      return false;
    }

    method TernaryExpr() returns (r: Option<Expr>)
      requires pos <= |toks|
      modifies this`pos
      ensures Agrees(r, Parse(TERNARY, old(Ahead())))
      decreases |toks| - pos, 20
    {
      var cond := BinaryExpr(1);
      if cond.None? { return None; }
      var elvis := Eat(TElvis);
      if elvis {
        var alt := TernaryExpr();
        if alt.None? { return None; }
        return Some(Elvis(cond.value, alt.value));
      }
      var question := Eat(Question);
      if question {
        r := ChoiceExpr(cond.value);
        return;
      }
      return cond;
    }

    /** The two sides behind a question mark. */
    method ChoiceExpr(cond: Expr) returns (r: Option<Expr>)
      requires pos <= |toks|
      modifies this`pos
      ensures Agrees(r, Choose(cond, old(Ahead())))
      decreases |toks| - pos, 21
    {
      var yes := TernaryExpr();
      if yes.None? { return None; }
      var colon := Eat(Colon);
      if !colon { return None; }
      var no := TernaryExpr();
      if no.None? { return None; }
      return Some(Ternary(cond, yes.value, no.value));
    }

    /** The rungs from `or` to `multiplicative`. */
    method BinaryExpr(l: nat) returns (r: Option<Expr>)
      requires pos <= |toks| && 1 <= l < UNARY
      modifies this`pos
      ensures Agrees(r, Parse(l, old(Ahead())))
      decreases |toks| - pos, 19 - l, 1
    {
      var first := Operand(l);
      if first.None? { return None; }
      var e := first.value;
      ghost var start, here := pos, Ahead();
      while true
        invariant start <= pos <= |toks|
        invariant Climb(l, e, toks[pos..]) == Climb(l, first.value, here)
        decreases |toks| - pos
      {
        var op := OpAt(l, toks[pos..]);
        if op.None? { break; }
        assert toks[pos..][1..] == toks[pos + 1..];
        pos := pos + 1;
        var right := Operand(l);
        if right.None? { return None; }
        e := Binary(op.value, e, right.value);
      }
      return Some(e);
    }

    /** The next rung up. */
    method Operand(l: nat) returns (r: Option<Expr>)
      requires pos <= |toks| && 1 <= l < UNARY
      modifies this`pos
      ensures Agrees(r, Parse(l + 1, old(Ahead())))
      decreases |toks| - pos, 19 - l, 0
    {
      if l == 6 {
        r := UnaryExpr();
      } else {
        r := BinaryExpr(l + 1);
      }
    }

    method UnaryExpr() returns (r: Option<Expr>)
      requires pos <= |toks|
      modifies this`pos
      ensures Agrees(r, Parse(UNARY, old(Ahead())))
      decreases |toks| - pos, 2
    {
      var minus := Eat(TMinus);
      if minus {
        var e := UnaryExpr();
        if e.None? { return None; }
        return Some(Unary(Neg, e.value));
      }
      var not := Eat(TNot);
      if not {
        var e := UnaryExpr();
        if e.None? { return None; }
        return Some(Unary(Not, e.value));
      }
      r := PrimaryExpr();
    }

    method PrimaryExpr() returns (r: Option<Expr>)
      requires pos <= |toks|
      modifies this`pos
      ensures Agrees(r, Primary(old(Ahead())))
      decreases |toks| - pos, 1
    {
      if pos == |toks| { return None; }
      var tok := toks[pos];
      assert toks[pos..][1..] == toks[pos + 1..];
      pos := pos + 1;
      if tok == DollarOpen || tok == StarOpen {
        r := Inside(RBrace);
      } else if tok == LParen {
        r := Inside(RParen);
      } else if tok.TIdent? && IsUtility(tok.path) {
        r := UtilityCall(tok.path);
      } else {
        r := AtomOf(tok);
      }
    }

    method Inside(close: Tok) returns (r: Option<Expr>)
      requires pos <= |toks|
      modifies this`pos
      ensures Agrees(r, Bracketed(close, old(Ahead())))
      decreases |toks| - pos, 21
    {
      r := TernaryExpr();
      if r.None? { return None; }
      var closed := Eat(close);
      if !closed { return None; }
    }

    method UtilityCall(path: Bytes) returns (r: Option<Expr>)
      requires 1 <= pos <= |toks| && IsUtility(path) && toks[pos - 1] == TIdent(path)
      modifies this`pos
      ensures Agrees(r, Primary(toks[old(pos) - 1..]))
      decreases |toks| - pos, 23
    {
      ghost var here := toks[pos - 1..];
      assert here[0] == TIdent(path) && here[1..] == toks[pos..];
      var parts := SplitLast(path[1..], DOT);
      if parts.None? { return None; }
      var open := Eat(LParen);
      if !open { return None; }
      assert here[2..] == toks[pos..];
      var args := ArgList();
      if args.None? { return None; }
      return Some(Util(parts.value.0, parts.value.1, args.value));
    }

    method ArgList() returns (r: Option<seq<Expr>>)
      requires pos <= |toks|
      modifies this`pos
      ensures Agrees(r, Arguments(old(Ahead())))
      decreases |toks| - pos, 22
    {
      var empty := Eat(RParen);
      if empty { return Some([]); }
      r := ArgLoop();
    }

    method ArgLoop() returns (r: Option<seq<Expr>>)
      requires pos <= |toks|
      modifies this`pos
      ensures Agrees(r, MoreArguments(old(Ahead())))
      decreases |toks| - pos, 21
    {
      var args: seq<Expr> := [];
      ghost var all := MoreArguments(Ahead());
      if all.Some? { assert [] + all.value.value == all.value.value; }
      while true
        invariant old(pos) <= pos <= |toks|
        invariant Prefixed(args, MoreArguments(toks[pos..])) == all
        decreases |toks| - pos
      {
        ghost var here := toks[pos..];
        var e := TernaryExpr();
        if e.None? { return None; }
        MoreIs(args, here, e.value, toks[pos..]);
        args := args + [e.value];
        var next := ArgEnd();
        if next.None? { return None; }
        if next.value { return Some(args); }
      }
      assert false;
    }

    /** What stands behind an argument: `true` for the closing bracket, `false` for a comma. */
    method ArgEnd() returns (closed: Option<bool>)
      requires pos <= |toks|
      modifies this`pos
      ensures old(pos) <= pos <= |toks|
      ensures var rest := old(Ahead());
              closed == if rest != [] && rest[0] == RParen then Some(true)
                        else if rest != [] && rest[0] == Comma then Some(false) else None
      ensures closed.Some? ==> old(pos) < pos && Ahead() == old(Ahead())[1..]
    {
      var bracket := Eat(RParen);
      if bracket { return Some(true); }
      var comma := Eat(Comma);
      return if comma then Some(false) else None;
    }
  }

  /** What follows an argument decides: a bracket ends the list, a comma carries on, nothing else will do. */
  lemma MoreIs(args: seq<Expr>, here: seq<Tok>, e: Expr, rest: seq<Tok>)
    requires Parse(TERNARY, here) == Some(Parsed(e, rest))
    ensures Prefixed(args, MoreArguments(here)) ==
            if rest == [] then None
            else if rest[0] == RParen then Some(Parsed(args + [e], rest[1..]))
            else if rest[0] == Comma then Prefixed(args + [e], MoreArguments(rest[1..]))
            else None
  {
    if rest != [] && rest[0] == Comma { PrefixedStep(args, e, MoreArguments(rest[1..])); }
  }

  function Prefixed(args: seq<Expr>, r: Option<Parsed<seq<Expr>>>): Option<Parsed<seq<Expr>>> {
    match r
    case None => None
    case Some(Parsed(more, rest)) => Some(Parsed(args + more, rest))
  }

  lemma PrefixedStep(args: seq<Expr>, e: Expr, r: Option<Parsed<seq<Expr>>>)
    ensures Prefixed(args, match r case None => None case Some(Parsed(more, rest)) => Some(Parsed([e] + more, rest))) ==
            Prefixed(args + [e], r)
  {
    if r.Some? { assert args + ([e] + r.value.value) == args + [e] + r.value.value; }
  }

  /** `parse`, from tokens on. */
  method ParseTokens(toks: seq<Tok>) returns (r: Option<Expr>)
    ensures r == ParseAll(toks)
  {
    if toks == [] { return None; }
    var p := new P(toks);
    assert toks[0..] == toks;
    r := p.TernaryExpr();
    if r.Some? && p.pos != |toks| { r := None; }
  }
}
