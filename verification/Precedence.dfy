/**
 How operators group (crates/kernleaf/src/expr.rs:809-909), said of tokens and with the
 groups of operators named one by one.
 */
module Precedence {
  import opened Common
  import opened Text
  import opened Expressions

  // ---- The groups ------------------------------------------------------------

  predicate Multiplicative(op: BinOp) { op == Mul || op == Div || op == Rem }

  predicate Additive(op: BinOp) { op == Add || op == Sub }

  predicate Comparison(op: BinOp) { op == Gt || op == Lt || op == Ge || op == Le }

  predicate Equality(op: BinOp) { op == Eq || op == Ne }

  /** `a` binds tighter than `b`. */
  predicate Tighter(a: BinOp, b: BinOp) {
    || (Multiplicative(a) && !Multiplicative(b))
    || (Additive(a) && (Comparison(b) || Equality(b) || b == And || b == Or))
    || (Comparison(a) && (Equality(b) || b == And || b == Or))
    || (Equality(a) && (b == And || b == Or))
    || (a == And && b == Or)
  }

  /** The token that spells a binary operator. */
  function Sign(op: BinOp): Tok {
    match op
    case Or => TOr case And => TAnd
    case Eq => TEqEq case Ne => TNe
    case Gt => TGt case Lt => TLt case Ge => TGe case Le => TLe
    case Add => TPlus case Sub => TMinus
    case Mul => TStar case Div => TSlash case Rem => TPercent
  }

  function PrefixSign(op: UnOp): Tok {
    match op
    case Neg => TMinus
    case Not => TNot
  }

  lemma TighterIsHigher(a: BinOp, b: BinOp)
    ensures Tighter(a, b) <==> Rung(a) > Rung(b)
  {
  }

  lemma SignIsTok(op: BinOp)
    ensures Sign(op) == TokOf(op)
  {
  }

  /** An atom, a call or something in brackets. */
  predicate Operand(s: Spelling) {
    (s.Atom? || s.Call? || s.Wrap?) && WellFormed(s)
  }

  /** Not a choice or a default, which only stand as a whole or in brackets. */
  predicate Closed(s: Spelling) {
    !s.Choice? && !s.Default?
  }

  // ---- The grammar without the ladder ----------------------------------------

  /**
   Where a spelling needs brackets: on the left of an operator unless it binds at least as
   tightly, on the right unless it binds tighter.
   */
  lemma InfixIsOkIff(op: BinOp, a: Spelling, b: Spelling)
    ensures WellFormed(Infix(op, a, b)) <==>
              && WellFormed(a) && WellFormed(b) && Closed(a) && Closed(b)
              && (a.Infix? ==> !Tighter(op, a.bop)) && (b.Infix? ==> Tighter(b.bop, op))
  {
    if a.Infix? { TighterIsHigher(op, a.bop); }
    if b.Infix? { TighterIsHigher(b.bop, op); }
  }

  /** A prefix operator binds tighter than every binary one. */
  lemma PrefixIsOkIff(op: UnOp, e: Spelling)
    ensures WellFormed(Prefix(op, e)) <==> WellFormed(e) && Closed(e) && !e.Infix?
  {
  }

  /** A condition is no choice or default; the other parts of a choice are anything. */
  lemma ChoiceIsOkIff(c: Spelling, y: Spelling, n: Spelling)
    ensures WellFormed(Choice(c, y, n)) <==> WellFormed(c) && Closed(c) && WellFormed(y) && WellFormed(n)
    ensures WellFormed(Default(c, n)) <==> WellFormed(c) && Closed(c) && WellFormed(n)
  {
  }

  // ---- Two operators ---------------------------------------------------------

  lemma RightGroups(x: Spelling, op1: BinOp, y: Spelling, op2: BinOp, z: Spelling)
    requires Operand(x) && Operand(y) && Operand(z) && Tighter(op2, op1)
    ensures ParseAll(Flatten(x) + [Sign(op1)] + (Flatten(y) + [Sign(op2)] + Flatten(z))) ==
            Some(Binary(op1, Meaning(x), Binary(op2, Meaning(y), Meaning(z))))
  {
    TighterIsHigher(op2, op1);
    SignIsTok(op1);
    SignIsTok(op2);
    SpellingRoundTrip(Infix(op1, x, Infix(op2, y, z)));
  }

  lemma LeftGroups(x: Spelling, op1: BinOp, y: Spelling, op2: BinOp, z: Spelling)
    requires Operand(x) && Operand(y) && Operand(z) && !Tighter(op2, op1)
    ensures ParseAll(Flatten(x) + [Sign(op1)] + Flatten(y) + [Sign(op2)] + Flatten(z)) ==
            Some(Binary(op2, Binary(op1, Meaning(x), Meaning(y)), Meaning(z)))
  {
    TighterIsHigher(op2, op1);
    SignIsTok(op1);
    SignIsTok(op2);
    SpellingRoundTrip(Infix(op2, Infix(op1, x, y), z));
  }

  /** Of two binary operators in a row the tighter one takes the middle, and otherwise the first. */
  lemma TwoOperators(x: Spelling, op1: BinOp, y: Spelling, op2: BinOp, z: Spelling)
    requires Operand(x) && Operand(y) && Operand(z)
    ensures ParseAll(Flatten(x) + [Sign(op1)] + Flatten(y) + [Sign(op2)] + Flatten(z)) ==
            Some(if Tighter(op2, op1) then Binary(op1, Meaning(x), Binary(op2, Meaning(y), Meaning(z)))
                 else Binary(op2, Binary(op1, Meaning(x), Meaning(y)), Meaning(z)))
  {
    if Tighter(op2, op1) {
      RightFirst(Flatten(x), Sign(op1), Flatten(y), Sign(op2), Flatten(z));
      RightGroups(x, op1, y, op2, z);
    } else {
      LeftGroups(x, op1, y, op2, z);
    }
  }

  lemma RightFirst(a: seq<Tok>, s: Tok, b: seq<Tok>, t: Tok, c: seq<Tok>)
    ensures a + [s] + b + [t] + c == a + [s] + (b + [t] + c)
  {
  }

  /** A prefix operator takes the operand it stands before, on either side of a binary one. */
  lemma PrefixThenBinary(u: UnOp, x: Spelling, op: BinOp, y: Spelling)
    requires Operand(x) && Operand(y)
    ensures ParseAll([PrefixSign(u)] + Flatten(x) + [Sign(op)] + Flatten(y)) ==
            Some(Binary(op, Unary(u, Meaning(x)), Meaning(y)))
    ensures ParseAll(Flatten(x) + [Sign(op)] + ([PrefixSign(u)] + Flatten(y))) ==
            Some(Binary(op, Meaning(x), Unary(u, Meaning(y))))
  {
    SignIsTok(op);
    SpellingRoundTrip(Infix(op, Prefix(u, x), y));
    SpellingRoundTrip(Infix(op, x, Prefix(u, y)));
  }

  /** Prefix operators apply from the inside out. */
  lemma TwoPrefixes(u: UnOp, v: UnOp, x: Spelling)
    requires Operand(x)
    ensures ParseAll([PrefixSign(u)] + ([PrefixSign(v)] + Flatten(x))) == Some(Unary(u, Unary(v, Meaning(x))))
  {
    SpellingRoundTrip(Prefix(u, Prefix(v, x)));
  }

  // ---- Choices, defaults and brackets ----------------------------------------

  /**
   A choice takes whole operations for its condition, and anything for its sides, so that
   choices and defaults group to the right.
   */
  lemma ChoiceParsesAs(c: Spelling, y: Spelling, n: Spelling)
    requires WellFormed(c) && Closed(c) && WellFormed(y) && WellFormed(n)
    ensures ParseAll(Flatten(c) + [Question] + Flatten(y) + [Colon] + Flatten(n)) ==
            Some(Ternary(Meaning(c), Meaning(y), Meaning(n)))
  {
    SpellingRoundTrip(Choice(c, y, n));
  }

  /** So does a default. */
  lemma DefaultParsesAs(e: Spelling, alt: Spelling)
    requires WellFormed(e) && Closed(e) && WellFormed(alt)
    ensures ParseAll(Flatten(e) + [TElvis] + Flatten(alt)) == Some(Elvis(Meaning(e), Meaning(alt)))
  {
    SpellingRoundTrip(Default(e, alt));
  }

  function OpenSign(b: Bracket): Tok {
    match b
    case Parens => LParen
    case Dollar => DollarOpen
    case Star => StarOpen
  }

  function CloseSign(b: Bracket): Tok {
    match b
    case Parens => RParen
    case Dollar => RBrace
    case Star => RBrace
  }

  /** Anything in brackets is an operand, and means what is inside. */
  lemma BracketsMakeOperand(b: Bracket, e: Spelling)
    requires WellFormed(e)
    ensures Operand(Wrap(b, e)) && Meaning(Wrap(b, e)) == Meaning(e)
    ensures Flatten(Wrap(b, e)) == [OpenSign(b)] + Flatten(e) + [CloseSign(b)]
    ensures ParseAll([OpenSign(b)] + Flatten(e) + [CloseSign(b)]) == Some(Meaning(e))
  {
    SpellingRoundTrip(Wrap(b, e));
  }

  /** An operation is one of its operator, tokens and meaning alike. */
  lemma OperationIs(a: Spelling, op: BinOp, b: Spelling)
    requires WellFormed(Infix(op, a, b))
    ensures Flatten(Infix(op, a, b)) == Flatten(a) + [Sign(op)] + Flatten(b)
    ensures ParseAll(Flatten(a) + [Sign(op)] + Flatten(b)) == Some(Binary(op, Meaning(a), Meaning(b)))
  {
    SignIsTok(op);
    SpellingRoundTrip(Infix(op, a, b));
  }

  // ---- Operands --------------------------------------------------------------

  /** A literal and what it stands for. */
  predicate Literal(t: Tok, e: Expr) {
    match t
    case TNum(n) => e == Num(n)
    case TStr(s) => e == Str(s)
    case TTrue => e == Bool(true)
    case TFalse => e == Bool(false)
    case TNull => e == Null
    case TTemplate(_) => e == Embedded(t)
    case TUrl(_) => e == Embedded(t)
    case TMsg(_) => e == Embedded(t)
    case _ => false
  }

  lemma LiteralParsesAs(t: Tok, e: Expr)
    requires Literal(t, e)
    ensures ParseAll([t]) == Some(e)
  {
    assert AtomOf(t) == Some(e);
    SpellingRoundTrip(Atom(t));
  }

  /** Segments of a path: trimmed, not empty, without a dot. */
  predicate Segments(path: seq<Bytes>) {
    path != [] && forall i :: 0 <= i < |path| ==> path[i] != [] && DOT !in path[i] && Trim(path[i]) == path[i]
  }

  /** A dotted path is a variable with its segments. */
  lemma PathParsesAs(path: seq<Bytes>)
    requires Segments(path) && path[0][0] != HASH
    ensures ParseAll([TIdent(Join(path, DOT))]) == Some(Var(path))
  {
    SplitOfJoin(path, DOT);
    assert TrimEach(path) == path;
    assert Join(path, DOT)[0] == path[0][0];
    SpellingRoundTrip(Atom(TIdent(Join(path, DOT))));
  }

  lemma CallIs(object_: Bytes, method_: Bytes, args: seq<Spelling>)
    requires DOT !in method_ && forall i :: 0 <= i < |args| ==> WellFormed(args[i])
    ensures var call := Call([HASH] + object_ + [DOT] + method_, args);
            WellFormed(call) && Meaning(call) == Util(object_, method_, Meanings(args))
  {
    var path := [HASH] + object_ + [DOT] + method_;
    assert path[1..] == object_ + [DOT] + method_;
    SplitLastOf(object_, DOT, method_);
  }

  /** `#object.method(…)` is a call, its last dot before the method. */
  lemma CallParsesAs(object_: Bytes, method_: Bytes, args: seq<Spelling>)
    requires DOT !in method_ && forall i :: 0 <= i < |args| ==> WellFormed(args[i])
    ensures ParseAll([TIdent([HASH] + object_ + [DOT] + method_), LParen] + FlattenArgs(args) + [RParen]) ==
            Some(Util(object_, method_, Meanings(args)))
  {
    CallIs(object_, method_, args);
    SpellingRoundTrip(Call([HASH] + object_ + [DOT] + method_, args));
  }

  /** Arguments are what is between commas, in order. */
  lemma ArgumentsAre(args: seq<Spelling>, i: nat)
    requires i < |args| && forall j :: 0 <= j < |args| ==> WellFormed(args[j])
    ensures Meanings(args)[i] == Meaning(args[i])
    ensures |args| > 1 ==> FlattenArgs(args) == Flatten(args[0]) + [Comma] + FlattenArgs(args[1..])
  {
    if i > 0 { ArgumentsAre(args[1..], i - 1); }
  }
}
