/**
 The Standard Expression grammar of kernleaf (crates/kernleaf/src/expr.rs:756-986): a
 precedence-climbing parser over tokens.

 A `Spelling` is a syntax tree with its brackets. `Flatten` writes it as tokens and
 `Meaning` drops the brackets. The parser accepts exactly the flattened well-formed
 spellings and returns their meaning, so brackets beyond those the precedence ladder
 needs change nothing.
 */
module Expressions {
  import opened Common
  import opened Text

  /** An `f64`: the parser only passes it on. */
  type Number(==, !new)

  const DOT: byte := 46
  const HASH: byte := 35

  datatype UnOp = Neg | Not

  datatype BinOp = Or | And | Eq | Ne | Gt | Lt | Ge | Le | Add | Sub | Mul | Div | Rem

  datatype Tok =
    | TNum(n: Number) | TStr(s: Bytes) | TIdent(path: Bytes)
    | TTemplate(raw: Bytes) | TUrl(raw: Bytes) | TMsg(raw: Bytes)
    | TTrue | TFalse | TNull
    | DollarOpen | StarOpen | RBrace | LParen | RParen
    | TPlus | TMinus | TStar | TSlash | TPercent
    | TGt | TLt | TGe | TLe | TEqEq | TNe | TAnd | TOr | TNot
    | Question | Colon | TElvis | Comma

  datatype Expr =
    | Var(path: seq<Bytes>) | Str(s: Bytes) | Num(n: Number) | Bool(b: bool) | Null
    /** A literal substitution, URL or message; its body is not looked into. */
    | Embedded(tok: Tok)
    | Util(target: Bytes, function_: Bytes, args: seq<Expr>)
    | Unary(uop: UnOp, e: Expr)
    | Binary(bop: BinOp, left: Expr, right: Expr)
    | Ternary(cond: Expr, yes: Expr, no: Expr)
    | Elvis(e: Expr, alt: Expr)

  // ---- The ladder ------------------------------------------------------------

  const TERNARY: nat := 0
  const UNARY: nat := 7
  const PRIMARY: nat := 8

  /** The rung of a binary operator: or, and, equality, comparison, additive, multiplicative. */
  function Rung(op: BinOp): (l: nat)
    ensures 1 <= l <= 6
  {
    match op
    case Or => 1
    case And => 2
    case Eq => 3 case Ne => 3
    case Gt => 4 case Lt => 4 case Ge => 4 case Le => 4
    case Add => 5 case Sub => 5
    case Mul => 6 case Div => 6 case Rem => 6
  }

  function OpOf(t: Tok): Option<BinOp> {
    match t
    case TOr => Some(Or)
    case TAnd => Some(And)
    case TEqEq => Some(Eq) case TNe => Some(Ne)
    case TGt => Some(Gt) case TLt => Some(Lt) case TGe => Some(Ge) case TLe => Some(Le)
    case TPlus => Some(Add) case TMinus => Some(Sub)
    case TStar => Some(Mul) case TSlash => Some(Div) case TPercent => Some(Rem)
    case _ => None
  }

  function TokOf(op: BinOp): (t: Tok)
    ensures OpOf(t) == Some(op)
  {
    match op
    case Or => TOr
    case And => TAnd
    case Eq => TEqEq case Ne => TNe
    case Gt => TGt case Lt => TLt case Ge => TGe case Le => TLe
    case Add => TPlus case Sub => TMinus
    case Mul => TStar case Div => TSlash case Rem => TPercent
  }

  /** The binary operator of rung `l` at the front of the tokens. */
  function OpAt(l: nat, toks: seq<Tok>): Option<BinOp> {
    if toks == [] then None
    else
      var op := OpOf(toks[0]);
      if op.Some? && Rung(op.value) == l then op else None
  }

  // ---- Names -----------------------------------------------------------------

  function TrimEach(parts: seq<Bytes>): (r: seq<Bytes>)
    ensures |r| == |parts|
  {
    seq(|parts|, i requires 0 <= i < |parts| => Trim(parts[i]))
  }

  /** `split_path`: the segments of a dotted path, none of them empty. */
  function SplitPath(s: Bytes): Option<seq<Bytes>> {
    var path := TrimEach(Split(s, DOT));
    if [] in path then None else Some(path)
  }

  /** `rsplit_once`: around the last separator. */
  function SplitLast(s: Bytes, sep: byte): Option<(Bytes, Bytes)> {
    if s == [] then None
    else
      var front, last := s[..|s| - 1], s[|s| - 1];
      if last == sep then Some((front, []))
      else
        match SplitLast(front, sep)
        case None => None
        case Some(parts) => Some((parts.0, parts.1 + [last]))
  }

  lemma {:induction false} SplitLastOf(a: Bytes, sep: byte, b: Bytes)
    requires sep !in b
    ensures SplitLast(a + [sep] + b, sep) == Some((a, b))
  {
    if b == [] {
      assert (a + [sep] + b)[..|a|] == a;
    } else {
      SplitLastOf(a, sep, b[..|b| - 1]);
      assert (a + [sep] + b)[..|a| + |b|] == a + [sep] + b[..|b| - 1];
      assert b[..|b| - 1] + [b[|b| - 1]] == b;
    }
  }

  predicate IsUtility(path: Bytes) {
    path != [] && path[0] == HASH
  }

  /** The expression a single token stands for. */
  function AtomOf(t: Tok): Option<Expr> {
    match t
    case TNum(n) => Some(Num(n))
    case TStr(s) => Some(Str(s))
    case TTrue => Some(Bool(true))
    case TFalse => Some(Bool(false))
    case TNull => Some(Null)
    case TTemplate(_) => Some(Embedded(t))
    case TUrl(_) => Some(Embedded(t))
    case TMsg(_) => Some(Embedded(t))
    case TIdent(path) =>
      if IsUtility(path) then None
      else
        (match SplitPath(path)
         case None => None
         case Some(p) => Some(Var(p)))
    case _ => None
  }

  // ---- The parser, as functions of the tokens ahead --------------------------

  datatype Parsed<T> = Parsed(value: T, rest: seq<Tok>)

  /** Parses at a rung of the ladder. */
  function Parse(l: nat, toks: seq<Tok>): (r: Option<Parsed<Expr>>)
    requires l <= PRIMARY
    ensures r.Some? ==> |r.value.rest| < |toks|
    decreases |toks|, 1 + PRIMARY - l
  {
    if l == TERNARY then
      match Parse(1, toks)
      case None => None
      case Some(Parsed(cond, rest)) =>
        if rest != [] && rest[0] == TElvis then
          (match Parse(TERNARY, rest[1..])
           case None => None
           case Some(Parsed(alt, rest')) => Some(Parsed(Elvis(cond, alt), rest')))
        else if rest != [] && rest[0] == Question then Choose(cond, rest[1..])
        else Some(Parsed(cond, rest))
    else if l < UNARY then
      match Parse(l + 1, toks)
      case None => None
      case Some(Parsed(e, rest)) => Climb(l, e, rest)
    else if l == UNARY then
      if toks != [] && (toks[0] == TMinus || toks[0] == TNot) then
        match Parse(UNARY, toks[1..])
        case None => None
        case Some(Parsed(e, rest)) => Some(Parsed(Unary(if toks[0] == TMinus then Neg else Not, e), rest))
      else Parse(PRIMARY, toks)
    else Primary(toks)
  }

  /** The two sides behind a question mark. */
  function Choose(cond: Expr, toks: seq<Tok>): (r: Option<Parsed<Expr>>)
    ensures r.Some? ==> |r.value.rest| < |toks|
    decreases |toks|, 2 + PRIMARY
  {
    match Parse(TERNARY, toks)
    case None => None
    case Some(Parsed(yes, rest)) =>
      if rest == [] || rest[0] != Colon then None
      else
        match Parse(TERNARY, rest[1..])
        case None => None
        case Some(Parsed(no, rest')) => Some(Parsed(Ternary(cond, yes, no), rest'))
  }

  /** The loop of a rung: more operators of that rung, associating to the left. */
  function Climb(l: nat, e: Expr, toks: seq<Tok>): (r: Option<Parsed<Expr>>)
    requires 1 <= l < UNARY
    ensures r.Some? ==> |r.value.rest| <= |toks|
    decreases |toks|, 0
  {
    match OpAt(l, toks)
    case None => Some(Parsed(e, toks))
    case Some(op) =>
      match Parse(l + 1, toks[1..])
      case None => None
      case Some(Parsed(right, rest)) => Climb(l, Binary(op, e, right), rest)
  }

  function Primary(toks: seq<Tok>): (r: Option<Parsed<Expr>>)
    ensures r.Some? ==> |r.value.rest| < |toks|
    decreases |toks|, 0
  {
    if toks == [] then None
    else
      match toks[0]
      case DollarOpen => Bracketed(RBrace, toks[1..])
      case StarOpen => Bracketed(RBrace, toks[1..])
      case LParen => Bracketed(RParen, toks[1..])
      case TIdent(path) =>
        if IsUtility(path) then
          match SplitLast(path[1..], DOT)
          case None => None
          case Some((target, function_)) =>
            if |toks| < 2 || toks[1] != LParen then None
            else
              match Arguments(toks[2..])
              case None => None
              case Some(Parsed(args, rest)) => Some(Parsed(Util(target, function_, args), rest))
        else
          (match AtomOf(toks[0])
           case None => None
           case Some(e) => Some(Parsed(e, toks[1..])))
      case _ =>
        match AtomOf(toks[0])
        case None => None
        case Some(e) => Some(Parsed(e, toks[1..]))
  }

  /** The inside of a bracket, up to its closing token. */
  function Bracketed(close: Tok, toks: seq<Tok>): (r: Option<Parsed<Expr>>)
    ensures r.Some? ==> |r.value.rest| < |toks|
    decreases |toks|, 10
  {
    match Parse(TERNARY, toks)
    case None => None
    case Some(Parsed(e, rest)) => if rest != [] && rest[0] == close then Some(Parsed(e, rest[1..])) else None
  }

  /** `arg_list`: the opening parenthesis is already consumed. */
  function Arguments(toks: seq<Tok>): (r: Option<Parsed<seq<Expr>>>)
    ensures r.Some? ==> |r.value.rest| < |toks|
    decreases |toks|, 11
  {
    if toks != [] && toks[0] == RParen then Some(Parsed([], toks[1..])) else MoreArguments(toks)
  }

  function MoreArguments(toks: seq<Tok>): (r: Option<Parsed<seq<Expr>>>)
    ensures r.Some? ==> |r.value.rest| < |toks|
    decreases |toks|, 10
  {
    match Parse(TERNARY, toks)
    case None => None
    case Some(Parsed(e, rest)) =>
      if rest == [] then None
      else if rest[0] == RParen then Some(Parsed([e], rest[1..]))
      else if rest[0] == Comma then
        (match MoreArguments(rest[1..])
         case None => None
         case Some(Parsed(more, rest')) => Some(Parsed([e] + more, rest')))
      else None
  }

  /** The whole of `parse`, from tokens on. */
  function ParseAll(toks: seq<Tok>): Option<Expr> {
    match Parse(TERNARY, toks)
    case Some(Parsed(e, rest)) => if rest == [] then Some(e) else None
    case None => None
  }

  // ---- Spellings -------------------------------------------------------------

  datatype Bracket = Parens | Dollar | Star

  datatype Spelling =
    | Atom(tok: Tok)
    | Call(path: Bytes, args: seq<Spelling>)
    | Prefix(uop: UnOp, s: Spelling)
    | Infix(bop: BinOp, left: Spelling, right: Spelling)
    | Choice(cond: Spelling, yes: Spelling, no: Spelling)
    | Default(s: Spelling, alt: Spelling)
    | Wrap(bracket: Bracket, s: Spelling)

  /** The lowest rung a spelling can stand at without brackets. */
  function Level(s: Spelling): (l: nat)
    ensures l <= PRIMARY
  {
    match s
    case Atom(_) => PRIMARY
    case Call(_, _) => PRIMARY
    case Wrap(_, _) => PRIMARY
    case Prefix(_, _) => UNARY
    case Infix(op, _, _) => Rung(op)
    case Choice(_, _, _) => TERNARY
    case Default(_, _) => TERNARY
  }

  /** Every part stands at a rung its place allows. */
  predicate WellFormed(s: Spelling) {
    match s
    case Atom(t) => AtomOf(t).Some?
    case Call(path, args) =>
      IsUtility(path) && SplitLast(path[1..], DOT).Some? && forall i :: 0 <= i < |args| ==> WellFormed(args[i])
    case Prefix(_, e) => Level(e) >= UNARY && WellFormed(e)
    case Infix(op, a, b) => Level(a) >= Rung(op) && Level(b) > Rung(op) && WellFormed(a) && WellFormed(b)
    case Choice(c, y, n) => Level(c) > TERNARY && WellFormed(c) && WellFormed(y) && WellFormed(n)
    case Default(e, alt) => Level(e) > TERNARY && WellFormed(e) && WellFormed(alt)
    case Wrap(_, e) => WellFormed(e)
  }

  function Meaning(s: Spelling): Expr
    requires WellFormed(s)
  {
    match s
    case Atom(t) => AtomOf(t).value
    case Call(path, args) =>
      var parts := SplitLast(path[1..], DOT).value;
      Util(parts.0, parts.1, Meanings(args))
    case Prefix(op, e) => Unary(op, Meaning(e))
    case Infix(op, a, b) => Binary(op, Meaning(a), Meaning(b))
    case Choice(c, y, n) => Ternary(Meaning(c), Meaning(y), Meaning(n))
    case Default(e, alt) => Elvis(Meaning(e), Meaning(alt))
    case Wrap(_, e) => Meaning(e)
  }

  function Meanings(args: seq<Spelling>): (r: seq<Expr>)
    requires forall i :: 0 <= i < |args| ==> WellFormed(args[i])
    ensures |r| == |args|
  {
    if args == [] then [] else [Meaning(args[0])] + Meanings(args[1..])
  }

  function Open(b: Bracket): Tok {
    match b
    case Parens => LParen
    case Dollar => DollarOpen
    case Star => StarOpen
  }

  function Close(b: Bracket): Tok {
    if b == Parens then RParen else RBrace
  }

  function Flatten(s: Spelling): (toks: seq<Tok>)
    ensures toks != []
  {
    match s
    case Atom(t) => [t]
    case Call(path, args) => [TIdent(path), LParen] + FlattenArgs(args) + [RParen]
    case Prefix(op, e) => [if op == Neg then TMinus else TNot] + Flatten(e)
    case Infix(op, a, b) => Flatten(a) + [TokOf(op)] + Flatten(b)
    case Choice(c, y, n) => Flatten(c) + [Question] + Flatten(y) + [Colon] + Flatten(n)
    case Default(e, alt) => Flatten(e) + [TElvis] + Flatten(alt)
    case Wrap(b, e) => [Open(b)] + Flatten(e) + [Close(b)]
  }

  function FlattenArgs(args: seq<Spelling>): seq<Tok> {
    if args == [] then []
    else if |args| == 1 then Flatten(args[0])
    else Flatten(args[0]) + [Comma] + FlattenArgs(args[1..])
  }

  // ---- Every well-formed spelling parses to its meaning ----------------------

  /** The tokens ahead do not carry on an expression parsed at rung `l`. */
  predicate StopsAt(l: nat, rest: seq<Tok>) {
    rest == [] ||
    var op := OpOf(rest[0]);
    && (op.Some? ==> Rung(op.value) < l)
    && (l == TERNARY ==> rest[0] != TElvis && rest[0] != Question)
  }

  /** What parsing at rung `l` comes to once `e` is parsed: for a binary rung, its loop goes on. */
  function After(l: nat, e: Expr, rest: seq<Tok>): Option<Parsed<Expr>> {
    if 1 <= l < UNARY then Climb(l, e, rest) else Some(Parsed(e, rest))
  }

  /**
   The tokens ahead hold no operator that binds tighter than rung `l`, nor, at the
   bottom, anything that carries on.
   */
  predicate Fits(l: nat, rest: seq<Tok>) {
    if l == TERNARY then StopsAt(TERNARY, rest)
    else rest == [] || (OpOf(rest[0]).Some? ==> Rung(OpOf(rest[0]).value) <= l)
  }

  lemma ClimbStops(l: nat, e: Expr, rest: seq<Tok>)
    requires 1 <= l < UNARY && OpAt(l, rest).None?
    ensures Climb(l, e, rest) == Some(Parsed(e, rest))
  {
  }

  /** From a rung to the one below: nothing between carries on. */
  lemma {:induction false} Descend(l: nat, k: nat, toks: seq<Tok>, e: Expr, rest: seq<Tok>)
    requires l <= k <= PRIMARY && Fits(l, rest)
    requires Parse(k, toks) == After(k, e, rest)
    requires k >= UNARY && l <= UNARY ==> toks != [] && (k == UNARY || (toks[0] != TMinus && toks[0] != TNot))
    ensures Parse(l, toks) == After(l, e, rest)
    decreases k - l
  {
    if l < k {
      if k == PRIMARY && l < UNARY {
        Descend(UNARY, PRIMARY, toks, e, rest);
        Descend(l, UNARY, toks, e, rest);
      } else if k == PRIMARY {
      } else {
        Descend(l + 1, k, toks, e, rest);
        DescendOne(l, toks, e, rest);
      }
    }
  }

  lemma DescendOne(l: nat, toks: seq<Tok>, e: Expr, rest: seq<Tok>)
    requires l < UNARY && Fits(l, rest) && Parse(l + 1, toks) == After(l + 1, e, rest)
    ensures Parse(l, toks) == After(l, e, rest)
  {
    if l + 1 < UNARY { ClimbStops(l + 1, e, rest); }
  }

  lemma FitsAbove(l: nat, k: nat, rest: seq<Tok>)
    requires l <= k <= PRIMARY && Fits(l, rest)
    ensures Fits(k, rest)
  {
  }

  /** A bracket's first token starts no prefix operator, nor does an atom or a call. */
  lemma PrimaryStart(s: Spelling)
    requires WellFormed(s) && Level(s) == PRIMARY
    ensures Flatten(s)[0] != TMinus && Flatten(s)[0] != TNot
  {
  }

  /** A spelling parses at its own level. */
  lemma {:induction false} ParsesAtLevel(s: Spelling, rest: seq<Tok>)
    requires WellFormed(s) && Fits(Level(s), rest)
    ensures Parse(Level(s), Flatten(s) + rest) == After(Level(s), Meaning(s), rest)
    decreases s, 1
  {
    match s {
      case Atom(t) => FirstThen(t, rest);
      case Call(path, args) => CallParses(s, rest);
      case Wrap(b, e) => WrapParses(s, rest);
      case Prefix(op, e) => PrefixParses(s, rest);
      case Infix(op, a, b) => InfixParses(s, rest);
      case Choice(c, y, n) => ChoiceParses(s, rest);
      case Default(e, alt) => DefaultParses(s, rest);
    }
  }

  lemma FirstThen(t: Tok, rest: seq<Tok>)
    ensures ([t] + rest)[0] == t && ([t] + rest)[1..] == rest
  {
  }

  lemma {:induction false} PrefixParses(s: Spelling, rest: seq<Tok>)
    requires s.Prefix? && WellFormed(s) && Fits(UNARY, rest)
    ensures Parse(UNARY, Flatten(s) + rest) == Some(Parsed(Meaning(s), rest))
    decreases s, 0
  {
    var t := if s.uop == Neg then TMinus else TNot;
    assert [t] + Flatten(s.s) + rest == [t] + (Flatten(s.s) + rest);
    FirstThen(t, Flatten(s.s) + rest);
    SpellingParses(s.s, UNARY, rest);
  }

  lemma {:induction false} SpellingParses(s: Spelling, l: nat, rest: seq<Tok>)
    requires WellFormed(s) && l <= Level(s) && Fits(l, rest)
    ensures Parse(l, Flatten(s) + rest) == After(l, Meaning(s), rest)
    decreases s, 2
  {
    FitsAbove(l, Level(s), rest);
    ParsesAtLevel(s, rest);
    if Level(s) == PRIMARY { PrimaryStart(s); }
    assert (Flatten(s) + rest)[0] == Flatten(s)[0];
    Descend(l, Level(s), Flatten(s) + rest, Meaning(s), rest);
  }

  lemma {:induction false} WrapParses(s: Spelling, rest: seq<Tok>)
    requires s.Wrap? && WellFormed(s)
    ensures Primary(Flatten(s) + rest) == Some(Parsed(Meaning(s), rest))
    decreases s, 0
  {
    var toks, tail := Flatten(s) + rest, [Close(s.bracket)] + rest;
    assert toks == [Open(s.bracket)] + (Flatten(s.s) + tail);
    assert toks[1..] == Flatten(s.s) + tail && tail[1..] == rest;
    SpellingParses(s.s, TERNARY, tail);
    assert Bracketed(Close(s.bracket), toks[1..]) == Some(Parsed(Meaning(s), rest));
  }

  lemma {:induction false} DefaultParses(s: Spelling, rest: seq<Tok>)
    requires s.Default? && WellFormed(s) && StopsAt(TERNARY, rest)
    ensures Parse(TERNARY, Flatten(s) + rest) == Some(Parsed(Meaning(s), rest))
    decreases s, 0
  {
    var tail := [TElvis] + (Flatten(s.alt) + rest);
    assert Flatten(s) + rest == Flatten(s.s) + tail;
    SpellingParses(s.s, 1, tail);
    ClimbStops(1, Meaning(s.s), tail);
    assert tail[1..] == Flatten(s.alt) + rest;
    SpellingParses(s.alt, TERNARY, rest);
  }

  lemma {:induction false} InfixParses(s: Spelling, rest: seq<Tok>)
    requires s.Infix? && WellFormed(s) && Fits(Rung(s.bop), rest)
    ensures Parse(Rung(s.bop), Flatten(s) + rest) == Climb(Rung(s.bop), Meaning(s), rest)
    decreases s, 0
  {
    var l, a, b := Rung(s.bop), s.left, s.right;
    var tail := [TokOf(s.bop)] + (Flatten(b) + rest);
    Around(Flatten(a), TokOf(s.bop), Flatten(b), rest);
    FirstThen(TokOf(s.bop), Flatten(b) + rest);
    SpellingParses(a, l, tail);
    FitsAbove(l, l + 1, rest);
    SpellingParses(b, l + 1, rest);
    if l + 1 < UNARY { ClimbStops(l + 1, Meaning(b), rest); }
    ClimbGoesOn(l, Meaning(a), tail, s.bop, Meaning(b), rest);
  }

  lemma Around(a: seq<Tok>, x: Tok, b: seq<Tok>, rest: seq<Tok>)
    ensures a + [x] + b + rest == a + ([x] + (b + rest))
  {
  }

  /** An operator of the rung and its right side carry the loop on. */
  lemma ClimbGoesOn(l: nat, left: Expr, tail: seq<Tok>, op: BinOp, right: Expr, rest: seq<Tok>)
    requires 1 <= l < UNARY && OpAt(l, tail) == Some(op) && Parse(l + 1, tail[1..]) == Some(Parsed(right, rest))
    ensures Climb(l, left, tail) == Climb(l, Binary(op, left, right), rest)
  {
  }

  lemma {:induction false} ChoiceParses(s: Spelling, rest: seq<Tok>)
    requires s.Choice? && WellFormed(s) && StopsAt(TERNARY, rest)
    ensures Parse(TERNARY, Flatten(s) + rest) == Some(Parsed(Meaning(s), rest))
    decreases s, 0
  {
    var noTail := Flatten(s.no) + rest;
    var yesTail := [Colon] + noTail;
    var tail := [Question] + (Flatten(s.yes) + yesTail);
    Regroup(Flatten(s.cond), Question, Flatten(s.yes), Colon, Flatten(s.no), rest);
    SpellingParses(s.cond, 1, tail);
    ClimbStops(1, Meaning(s.cond), tail);
    assert tail[1..] == Flatten(s.yes) + yesTail && yesTail[1..] == noTail;
    SpellingParses(s.yes, TERNARY, yesTail);
    SpellingParses(s.no, TERNARY, rest);
    TernaryIs(Flatten(s) + rest, Meaning(s.cond), tail, Meaning(s.yes), yesTail, Meaning(s.no), rest);
  }

  lemma Regroup(a: seq<Tok>, x: Tok, b: seq<Tok>, y: Tok, c: seq<Tok>, rest: seq<Tok>)
    ensures a + [x] + b + [y] + c + rest == a + ([x] + (b + ([y] + (c + rest))))
  {
  }

  lemma TernaryIs(toks: seq<Tok>, cond: Expr, tail: seq<Tok>, yes: Expr, tail': seq<Tok>, no: Expr, rest: seq<Tok>)
    requires Parse(1, toks) == Some(Parsed(cond, tail)) && tail != [] && tail[0] == Question
    requires Parse(TERNARY, tail[1..]) == Some(Parsed(yes, tail')) && tail' != [] && tail'[0] == Colon
    requires Parse(TERNARY, tail'[1..]) == Some(Parsed(no, rest))
    ensures Parse(TERNARY, toks) == Some(Parsed(Ternary(cond, yes, no), rest))
  {
    assert Choose(cond, tail[1..]) == Some(Parsed(Ternary(cond, yes, no), rest));
  }

  lemma {:induction false} CallParses(s: Spelling, rest: seq<Tok>)
    requires s.Call? && WellFormed(s)
    ensures Primary(Flatten(s) + rest) == Some(Parsed(Meaning(s), rest))
    decreases s, 0
  {
    var inside := FlattenArgs(s.args) + [RParen] + rest;
    CallShape(s.path, FlattenArgs(s.args), rest);
    if s.args == [] {
      assert inside[0] == RParen && inside[1..] == rest;
    } else {
      ArgumentsParse(s, s.args, rest);
      FirstIsNoClose(s.args[0]);
      FlattenArgsStart(s.args);
      assert inside[0] == FlattenArgs(s.args)[0];
    }
    CallIs(Flatten(s) + rest, s.path, inside, Meanings(s.args), rest);
  }

  lemma CallShape(path: Bytes, args: seq<Tok>, rest: seq<Tok>)
    ensures [TIdent(path), LParen] + args + [RParen] + rest == [TIdent(path), LParen] + (args + [RParen] + rest)
  {
  }

  lemma CallIs(toks: seq<Tok>, path: Bytes, inside: seq<Tok>, args: seq<Expr>, rest: seq<Tok>)
    requires toks == [TIdent(path), LParen] + inside && IsUtility(path) && SplitLast(path[1..], DOT).Some?
    requires Arguments(inside) == Some(Parsed(args, rest))
    ensures Primary(toks) ==
      Some(Parsed(Util(SplitLast(path[1..], DOT).value.0, SplitLast(path[1..], DOT).value.1, args), rest))
  {
    assert toks[2..] == inside && toks[1..][0] == LParen && toks[1..][1..] == inside;
  }

  lemma FlattenArgsStart(args: seq<Spelling>)
    requires args != []
    ensures FlattenArgs(args) != [] && FlattenArgs(args)[0] == Flatten(args[0])[0]
  {
  }

  lemma {:induction false} FirstIsNoClose(s: Spelling)
    requires WellFormed(s)
    ensures Flatten(s)[0] != RParen
    decreases s
  {
    match s
    case Infix(_, a, _) => FirstIsNoClose(a);
    case Choice(c, _, _) => FirstIsNoClose(c);
    case Default(e, _) => FirstIsNoClose(e);
    case _ =>
  }

  lemma {:induction false} ArgumentsParse(s: Spelling, args: seq<Spelling>, rest: seq<Tok>)
    requires args != [] && forall i :: 0 <= i < |args| ==> WellFormed(args[i]) && args[i] < s
    ensures MoreArguments(FlattenArgs(args) + [RParen] + rest) == Some(Parsed(Meanings(args), rest))
    decreases s, 0, |args|
  {
    if |args| == 1 {
      LastArgument(args[0], rest);
      assert Meanings(args) == [Meaning(args[0])];
    } else {
      var more := FlattenArgs(args[1..]) + [RParen] + rest;
      assert FlattenArgs(args) + [RParen] + rest == Flatten(args[0]) + [Comma] + more;
      ArgumentsParse(s, args[1..], rest);
      FirstArgument(args[0], more, Meanings(args[1..]), rest);
    }
  }

  lemma {:induction false} FirstArgument(a: Spelling, more: seq<Tok>, others: seq<Expr>, rest: seq<Tok>)
    requires WellFormed(a) && MoreArguments(more) == Some(Parsed(others, rest))
    ensures MoreArguments(Flatten(a) + [Comma] + more) == Some(Parsed([Meaning(a)] + others, rest))
    decreases a, 4
  {
    var tail := [Comma] + more;
    ArgumentEnds(a, Comma, more);
    Behind(Flatten(a), Comma, more);
    CommaCarriesOn(Flatten(a) + tail, Meaning(a), tail, others, rest);
  }

  lemma {:induction false} ArgumentEnds(a: Spelling, x: Tok, rest: seq<Tok>)
    requires WellFormed(a) && (x == Comma || x == RParen)
    ensures Parse(TERNARY, Flatten(a) + ([x] + rest)) == Some(Parsed(Meaning(a), [x] + rest))
    decreases a, 3
  {
    SpellingParses(a, TERNARY, [x] + rest);
  }

  lemma Behind(a: seq<Tok>, x: Tok, rest: seq<Tok>)
    ensures a + [x] + rest == a + ([x] + rest) && ([x] + rest)[1..] == rest
  {
  }

  lemma CommaCarriesOn(toks: seq<Tok>, e: Expr, tail: seq<Tok>, others: seq<Expr>, rest: seq<Tok>)
    requires Parse(TERNARY, toks) == Some(Parsed(e, tail)) && tail != [] && tail[0] == Comma
    requires MoreArguments(tail[1..]) == Some(Parsed(others, rest))
    ensures MoreArguments(toks) == Some(Parsed([e] + others, rest))
  {
  }

  lemma {:induction false} LastArgument(a: Spelling, rest: seq<Tok>)
    requires WellFormed(a)
    ensures MoreArguments(Flatten(a) + [RParen] + rest) == Some(Parsed([Meaning(a)], rest))
    decreases a, 3
  {
    var tail := [RParen] + rest;
    Behind(Flatten(a), RParen, rest);
    SpellingParses(a, TERNARY, tail);
  }

  /** Every well-formed spelling parses to its meaning, with no token left. */
  lemma SpellingRoundTrip(s: Spelling)
    requires WellFormed(s)
    ensures ParseAll(Flatten(s)) == Some(Meaning(s))
  {
    assert Flatten(s) + [] == Flatten(s);
    SpellingParses(s, TERNARY, []);
  }
}
