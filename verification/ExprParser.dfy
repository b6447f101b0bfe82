/**
 * The monitor's precedence-climbing parser.
 *
 * `Syntax` is the concrete grammar: ten left-associative binary levels over
 * tighter prefix operators, with parentheses.  `ParseExpr`, `ParseLoop` and
 * `ParseAtom` are the parser's result as a function of the token list; the
 * class at the end is the parser itself.
 */
module ExprParser {
  import opened Basics
  import opened Expr

  datatype Token = TLit(v: u64) | TIdent(s: string) | TOp(op: string) | LParen | RParen

  datatype ParseError = ExpectedRParen | UnexpectedOperator(op: string) | UnexpectedToken(t: Token) | UnexpectedEnd

  datatype Parsed = Good(e: Expr, next: nat) | Bad(error: ParseError)

  /** Which names are registers. */
  type Names = string -> Option<RegTarget>

  function BinaryOf(op: string): Option<(BinaryOp, nat)>
  {
    match op
    case "||" => Some((LogOr, 1))
    case "&&" => Some((LogAnd, 2))
    case "|" => Some((Or, 3))
    case "^" => Some((Xor, 4))
    case "&" => Some((And, 5))
    case "==" => Some((Eq, 6))
    case "!=" => Some((Ne, 6))
    case "<" => Some((Lt, 7))
    case "<=" => Some((Le, 7))
    case ">" => Some((Gt, 7))
    case ">=" => Some((Ge, 7))
    case "<<" => Some((Shl, 8))
    case ">>" => Some((Shr, 8))
    case "+" => Some((Add, 9))
    case "-" => Some((Sub, 9))
    case "*" => Some((Mul, 10))
    case "/" => Some((Div, 10))
    case "%" => Some((Rem, 10))
    case _ => None
  }

  /** The ten levels, loosest first. */
  const LEVELS: seq<seq<string>> :=
    [["||"], ["&&"], ["|"], ["^"], ["&"], ["==", "!="], ["<", "<=", ">", ">="], ["<<", ">>"], ["+", "-"], ["*", "/", "%"]]

  /** An operator's precedence is its level, and nothing else is an operator. */
  lemma PrecedenceIsTheLevel(op: string)
    ensures match BinaryOf(op)
            case Some((_, p)) => 1 <= p <= |LEVELS| && op in LEVELS[p - 1]
            case None => forall p | 0 <= p < |LEVELS| :: op !in LEVELS[p]
  {
  }

  function UnaryOf(op: string): Option<UnaryOp>
  {
    match op
    case "-" => Some(Neg)
    case "!" => Some(Not)
    case "~" => Some(BitNot)
    case _ => None
  }

  function NameExpr(names: Names, s: string): Expr
  {
    match names(s)
    case Some(reg) => Register(reg)
    case None => Symbol(s)
  }

  // ---- The parser's result -------------------------------------------------

  /** The binary operator at `pos`, if there is one. */
  function OpAt(ts: seq<Token>, pos: nat): Option<(BinaryOp, nat)>
  {
    if pos < |ts| && ts[pos].TOp? then BinaryOf(ts[pos].op) else None
  }

  function ParseExpr(names: Names, ts: seq<Token>, pos: nat, minPrec: nat): (r: Parsed)
    requires pos <= |ts|
    ensures r.Good? ==> pos < r.next <= |ts|
    decreases |ts| - pos, 2
  {
    var a := ParseAtom(names, ts, pos);
    if a.Bad? then a else ParseLoop(names, ts, a.next, a.e, minPrec)
  }

  function ParseLoop(names: Names, ts: seq<Token>, pos: nat, lhs: Expr, minPrec: nat): (r: Parsed)
    requires pos <= |ts|
    ensures r.Good? ==> pos <= r.next <= |ts|
    decreases |ts| - pos, 0
  {
    match OpAt(ts, pos)
    case None => Good(lhs, pos)
    case Some((op, prec)) =>
      if prec < minPrec then Good(lhs, pos)
      else
        var r := ParseExpr(names, ts, pos + 1, prec + 1);
        if r.Bad? then r else ParseLoop(names, ts, r.next, Binary(op, lhs, r.e), minPrec)
  }

  function ParseAtom(names: Names, ts: seq<Token>, pos: nat): (r: Parsed)
    requires pos <= |ts|
    ensures r.Good? ==> pos < r.next <= |ts|
    decreases |ts| - pos, 1
  {
    if pos == |ts| then Bad(UnexpectedEnd)
    else
      match ts[pos]
      case TLit(v) => Good(Literal(v), pos + 1)
      case TIdent(s) => Good(NameExpr(names, s), pos + 1)
      case LParen =>
        var r := ParseExpr(names, ts, pos + 1, 0);
        if r.Bad? then r
        else if r.next < |ts| && ts[r.next].RParen? then Good(r.e, r.next + 1)
        else Bad(ExpectedRParen)
      case TOp(op) =>
        if UnaryOf(op).None? then Bad(UnexpectedOperator(op))
        else
          var r := ParseAtom(names, ts, pos + 1);
          if r.Bad? then r else Good(Unary(UnaryOf(op).value, r.e), r.next)
      case RParen => Bad(UnexpectedToken(RParen))
  }

  // ---- The grammar ---------------------------------------------------------

  datatype Syntax =
    | SLit(v: u64)
    | SName(s: string)
    | SParen(inner: Syntax)
    | SPrefix(op: string, arg: Syntax)
    | SInfix(op: string, left: Syntax, right: Syntax)

  predicate Atomic(d: Syntax)
  {
    !d.SInfix?
  }

  function Prec(op: string): nat
  {
    match BinaryOf(op)
    case Some((_, p)) => p
    case None => 0
  }

  /** `d` is a sentence of the grammar at level `k`: its operators bind at least that tightly. */
  ghost predicate Fits(d: Syntax, k: nat)
  {
    match d
    case SLit(_) => true
    case SName(_) => true
    case SParen(inner) => Fits(inner, 0)
    case SPrefix(op, arg) => UnaryOf(op).Some? && Atomic(arg) && Fits(arg, 0)
    case SInfix(op, l, r) =>
      BinaryOf(op).Some? && Prec(op) >= k && Fits(l, Prec(op)) && Fits(r, Prec(op) + 1)
  }

  /** The tokens a sentence is made of. */
  function Tokens(d: Syntax): (ts: seq<Token>)
    ensures |ts| > 0
  {
    match d
    case SLit(v) => [TLit(v)]
    case SName(s) => [TIdent(s)]
    case SParen(inner) => [LParen] + Tokens(inner) + [RParen]
    case SPrefix(op, arg) => [TOp(op)] + Tokens(arg)
    case SInfix(op, l, r) => Tokens(l) + [TOp(op)] + Tokens(r)
  }

  /** The tree a sentence stands for. */
  ghost function Tree(names: Names, d: Syntax): Expr
    requires Fits(d, 0)
  {
    match d
    case SLit(v) => Literal(v)
    case SName(s) => NameExpr(names, s)
    case SParen(inner) => Tree(names, inner)
    case SPrefix(op, arg) => Unary(UnaryOf(op).value, Tree(names, arg))
    case SInfix(op, l, r) =>
      FitsLower(l, Prec(op), 0);
      FitsLower(r, Prec(op) + 1, 0);
      Binary(BinaryOf(op).value.0, Tree(names, l), Tree(names, r))
  }

  lemma FitsLower(d: Syntax, k: nat, j: nat)
    requires Fits(d, k) && j <= k
    ensures Fits(d, j)
  {
  }

  /** No binary operator of level `k` or tighter stands at `pos`. */
  predicate StopsAt(ts: seq<Token>, pos: nat, k: nat)
  {
    OpAt(ts, pos).None? || OpAt(ts, pos).value.1 < k
  }

  // ---- Soundness -----------------------------------------------------------

  /** `d` is what `ts[pos..next]` spells, at level `k`, and stands for `e`. */
  ghost predicate Derives(names: Names, d: Syntax, k: nat, ts: seq<Token>, pos: nat, next: nat, e: Expr)
  {
    Fits(d, k) && Fits(d, 0) && pos <= next <= |ts| && Tokens(d) == ts[pos..next] && Tree(names, d) == e
  }

  /**
   * Whatever the parser returns derives exactly the tokens it consumed, and it
   * consumed as many as it could.
   */
  lemma {:induction false} ParseExprSound(names: Names, ts: seq<Token>, pos: nat, k: nat) returns (d: Syntax)
    requires pos <= |ts|
    ensures var r := ParseExpr(names, ts, pos, k);
            r.Good? ==> Derives(names, d, k, ts, pos, r.next, r.e) && StopsAt(ts, r.next, k)
    decreases |ts| - pos, 2
  {
    var a := ParseAtom(names, ts, pos);
    d := ParseAtomSound(names, ts, pos);
    if a.Good? {
      AtomFitsAnyLevel(d, k);
      d := ParseLoopSound(names, ts, pos, a.next, a.e, k, d);
    }
  }

  lemma AtomFitsAnyLevel(d: Syntax, k: nat)
    requires Atomic(d) && Fits(d, 0)
    ensures Fits(d, k)
  {
  }

  /** The left operand may stand at the left of any operator the loop would take next. */
  ghost predicate LeftOk(d: Syntax, ts: seq<Token>, pos: nat)
  {
    d.SInfix? ==> StopsAt(ts, pos, Prec(d.op) + 1)
  }

  lemma {:induction false} ParseLoopSound(names: Names, ts: seq<Token>, start: nat, pos: nat, lhs: Expr, k: nat, d0: Syntax)
    returns (d: Syntax)
    requires pos <= |ts| && Derives(names, d0, k, ts, start, pos, lhs) && LeftOk(d0, ts, pos)
    ensures var r := ParseLoop(names, ts, pos, lhs, k);
            r.Good? ==> Derives(names, d, k, ts, start, r.next, r.e) && StopsAt(ts, r.next, k)
    decreases |ts| - pos, 0
  {
    hide BinaryOf, UnaryOf, ParseExpr, ParseAtom, Derives;
    d := d0;
    match OpAt(ts, pos)
    case None =>
    case Some((op, prec)) =>
      if prec >= k {
        var r := ParseExpr(names, ts, pos + 1, prec + 1);
        var dr := ParseExprSound(names, ts, pos + 1, prec + 1);
        if r.Good? {
          d := SInfix(ts[pos].op, d0, dr);
          JoinInfix(names, ts, start, pos, r.next, k, d0, dr, lhs, r.e);
          d := ParseLoopSound(names, ts, start, r.next, Binary(op, lhs, r.e), k, d);
        }
      }
  }

  lemma JoinInfix(names: Names, ts: seq<Token>, start: nat, pos: nat, next: nat, k: nat,
                  l: Syntax, r: Syntax, le: Expr, re: Expr)
    requires OpAt(ts, pos).Some? && OpAt(ts, pos).value.1 >= k
    requires Derives(names, l, k, ts, start, pos, le) && LeftOk(l, ts, pos)
    requires Derives(names, r, OpAt(ts, pos).value.1 + 1, ts, pos + 1, next, re)
    ensures Derives(names, SInfix(ts[pos].op, l, r), k, ts, start, next, Binary(OpAt(ts, pos).value.0, le, re))
  {
    var d := SInfix(ts[pos].op, l, r);
    assert Fits(l, Prec(ts[pos].op)) by {
      if Atomic(l) {
        AtomFitsAnyLevel(l, Prec(ts[pos].op));
      }
    }
    assert ts[start..next] == ts[start..pos] + [ts[pos]] + ts[pos + 1..next];
    assert Tokens(d) == ts[start..next];
  }

  lemma WrapParen(names: Names, inner: Syntax, ts: seq<Token>, pos: nat, next: nat, e: Expr)
    requires Derives(names, inner, 0, ts, pos + 1, next, e)
    requires next < |ts| && ts[pos].LParen? && ts[next].RParen?
    ensures Derives(names, SParen(inner), 0, ts, pos, next + 1, e)
  {
    assert ts[pos..next + 1] == [ts[pos]] + ts[pos + 1..next] + [ts[next]];
  }

  lemma WrapPrefix(names: Names, op: string, arg: Syntax, ts: seq<Token>, pos: nat, next: nat, e: Expr)
    requires Derives(names, arg, 0, ts, pos + 1, next, e) && Atomic(arg)
    requires pos < |ts| && ts[pos] == TOp(op) && UnaryOf(op).Some?
    ensures Derives(names, SPrefix(op, arg), 0, ts, pos, next, Unary(UnaryOf(op).value, e))
  {
    assert ts[pos..next] == [ts[pos]] + ts[pos + 1..next];
  }

  lemma {:induction false} ParseAtomSound(names: Names, ts: seq<Token>, pos: nat) returns (d: Syntax)
    requires pos <= |ts|
    ensures var r := ParseAtom(names, ts, pos);
            r.Good? ==> Atomic(d) && Derives(names, d, 0, ts, pos, r.next, r.e)
    decreases |ts| - pos, 1
  {
    hide BinaryOf, UnaryOf, ParseExpr, ParseLoop;
    d := SLit(0);
    if pos < |ts| {
      match ts[pos] {
        case TLit(v) =>
          d := SLit(v);
          assert ts[pos..pos + 1] == [ts[pos]];
        case TIdent(s) =>
          d := SName(s);
          assert ts[pos..pos + 1] == [ts[pos]];
        case LParen =>
          var inner := ParseExprSound(names, ts, pos + 1, 0);
          var r := ParseExpr(names, ts, pos + 1, 0);
          d := SParen(inner);
          if r.Good? && r.next < |ts| && ts[r.next].RParen? {
            WrapParen(names, inner, ts, pos, r.next, r.e);
          }
        case TOp(op) =>
          if UnaryOf(op).Some? {
            var arg := ParseAtomSound(names, ts, pos + 1);
            var r := ParseAtom(names, ts, pos + 1);
            d := SPrefix(op, arg);
            if r.Good? {
              WrapPrefix(names, op, arg, ts, pos, r.next, r.e);
            }
          }
        case RParen =>
      }
    }
  }

  // ---- Completeness --------------------------------------------------------

  /** The tokens `xs` stand at `pos`. */
  ghost predicate Has(ts: seq<Token>, pos: nat, xs: seq<Token>)
  {
    pos + |xs| <= |ts| && forall i | 0 <= i < |xs| :: ts[pos + i] == xs[i]
  }

  lemma HasBoth(ts: seq<Token>, pos: nat, xs: seq<Token>, ys: seq<Token>)
    requires Has(ts, pos, xs + ys)
    ensures Has(ts, pos, xs) && Has(ts, pos + |xs|, ys)
  {
    forall i | 0 <= i < |xs| ensures ts[pos + i] == xs[i] {
      assert (xs + ys)[i] == xs[i];
    }
    forall i | 0 <= i < |ys| ensures ts[pos + |xs| + i] == ys[i] {
      assert (xs + ys)[|xs| + i] == ys[i];
      assert ts[pos + (|xs| + i)] == ys[i];
    }
  }

  lemma HasThree(ts: seq<Token>, pos: nat, xs: seq<Token>, ys: seq<Token>, zs: seq<Token>)
    requires Has(ts, pos, xs + ys + zs)
    ensures Has(ts, pos, xs) && Has(ts, pos + |xs|, ys) && Has(ts, pos + |xs| + |ys|, zs)
  {
    hide Has;
    HasBoth(ts, pos, xs + ys, zs);
    HasBoth(ts, pos, xs, ys);
  }

  lemma HasFirst(ts: seq<Token>, pos: nat, t: Token)
    requires Has(ts, pos, [t])
    ensures pos < |ts| && ts[pos] == t
  {
    assert ts[pos + 0] == [t][0];
  }

  /** The tokens of `d` stand at `pos`. */
  ghost predicate SpelledAt(d: Syntax, ts: seq<Token>, pos: nat)
  {
    Has(ts, pos, Tokens(d))
  }

  lemma SpelledInfix(op: string, l: Syntax, r: Syntax, ts: seq<Token>, pos: nat)
    requires SpelledAt(SInfix(op, l, r), ts, pos)
    ensures SpelledAt(l, ts, pos) && SpelledAt(r, ts, pos + |Tokens(l)| + 1)
    ensures pos + |Tokens(l)| < |ts| && ts[pos + |Tokens(l)|] == TOp(op)
  {
    hide Has;
    HasThree(ts, pos, Tokens(l), [TOp(op)], Tokens(r));
    HasFirst(ts, pos + |Tokens(l)|, TOp(op));
  }

  /**
   * The climbing step: meeting a sentence of level `k`, the parser ends up in
   * its loop behind the sentence, holding the sentence's tree.
   */
  lemma {:induction false} Climbs(names: Names, d: Syntax, ts: seq<Token>, pos: nat, k: nat)
    requires Fits(d, k) && Fits(d, 0) && SpelledAt(d, ts, pos) && LeftOk(d, ts, pos + |Tokens(d)|)
    ensures ParseExpr(names, ts, pos, k) == ParseLoop(names, ts, pos + |Tokens(d)|, Tree(names, d), k)
    decreases d, 1
  {
    hide BinaryOf, UnaryOf, ParseLoop;
    if Atomic(d) {
      AtomParses(names, d, ts, pos);
    } else {
      var p, q := pos + |Tokens(d.left)|, pos + |Tokens(d)|;
      OperandsReady(d, ts, pos, k);
      hide Fits, Tokens, SpelledAt, LeftOk, Tree, ParseExpr, StopsAt;
      Climbs(names, d.left, ts, pos, k);
      Climbs(names, d.right, ts, p + 1, Prec(d.op) + 1);
      ClimbsInfix(names, d, ts, pos, p, q, k);
    }
  }

  /** Both operands of a spelled sentence are spelled where the parser meets them. */
  lemma OperandsReady(d: Syntax, ts: seq<Token>, pos: nat, k: nat)
    requires d.SInfix? && Fits(d, k) && SpelledAt(d, ts, pos) && LeftOk(d, ts, pos + |Tokens(d)|)
    ensures var p, q := pos + |Tokens(d.left)|, pos + |Tokens(d)|;
            && p + 1 + |Tokens(d.right)| == q <= |ts| && ts[p] == TOp(d.op) && StopsAt(ts, q, Prec(d.op) + 1)
            && SpelledAt(d.left, ts, pos) && LeftOk(d.left, ts, p)
            && SpelledAt(d.right, ts, p + 1) && LeftOk(d.right, ts, q)
    ensures Fits(d.left, k) && Fits(d.left, 0) && Fits(d.right, Prec(d.op) + 1) && Fits(d.right, 0)
  {
    hide BinaryOf, UnaryOf;
    SpelledInfix(d.op, d.left, d.right, ts, pos);
    FitsLower(d.left, Prec(d.op), k);
    FitsLower(d.left, Prec(d.op), 0);
    FitsLower(d.right, Prec(d.op) + 1, 0);
  }

  /** The loop, standing at a sentence's operator, takes it together with its right operand. */
  lemma ClimbsInfix(names: Names, d: Syntax, ts: seq<Token>, pos: nat, p: nat, q: nat, k: nat)
    requires d.SInfix? && Fits(d, k) && Fits(d, 0) && Fits(d.left, 0) && Fits(d.right, 0)
    requires pos <= p < q <= |ts| && ts[p] == TOp(d.op) && StopsAt(ts, q, Prec(d.op) + 1)
    requires ParseExpr(names, ts, pos, k) == ParseLoop(names, ts, p, Tree(names, d.left), k)
    requires ParseExpr(names, ts, p + 1, Prec(d.op) + 1) == ParseLoop(names, ts, q, Tree(names, d.right), Prec(d.op) + 1)
    ensures ParseExpr(names, ts, pos, k) == ParseLoop(names, ts, q, Tree(names, d), k)
  {
    hide BinaryOf, UnaryOf, ParseExpr, ParseAtom;
    assert ParseLoop(names, ts, q, Tree(names, d.right), Prec(d.op) + 1) == Good(Tree(names, d.right), q);
    assert OpAt(ts, p) == BinaryOf(d.op);
  }

  lemma {:induction false} AtomParses(names: Names, d: Syntax, ts: seq<Token>, pos: nat)
    requires Atomic(d) && Fits(d, 0) && SpelledAt(d, ts, pos)
    ensures ParseAtom(names, ts, pos) == Good(Tree(names, d), pos + |Tokens(d)|)
    decreases d, 0
  {
    hide BinaryOf, UnaryOf;
    match d {
      case SLit(v) => HasFirst(ts, pos, TLit(v));
      case SName(s) => HasFirst(ts, pos, TIdent(s));
      case SParen(inner) =>
        SpelledParen(inner, ts, pos);
        Climbs(names, inner, ts, pos + 1, 0);
      case SPrefix(op, arg) =>
        SpelledPrefix(op, arg, ts, pos);
        AtomParses(names, arg, ts, pos + 1);
    }
  }

  lemma ParenAround(ts: seq<Token>, pos: nat, x: seq<Token>)
    requires Has(ts, pos, [LParen] + x + [RParen])
    ensures pos + 1 + |x| < |ts| && ts[pos] == LParen && ts[pos + 1 + |x|] == RParen && Has(ts, pos + 1, x)
  {
    hide Has;
    HasThree(ts, pos, [LParen], x, [RParen]);
    assert |[LParen]| == 1;
    HasFirst(ts, pos, LParen);
    HasFirst(ts, pos + 1 + |x|, RParen);
  }

  lemma SpelledParen(inner: Syntax, ts: seq<Token>, pos: nat)
    requires SpelledAt(SParen(inner), ts, pos)
    ensures pos + 1 + |Tokens(inner)| < |ts| && ts[pos] == LParen && ts[pos + 1 + |Tokens(inner)|] == RParen
    ensures SpelledAt(inner, ts, pos + 1)
  {
    hide Has;
    ParenAround(ts, pos, Tokens(inner));
  }

  lemma SpelledPrefix(op: string, arg: Syntax, ts: seq<Token>, pos: nat)
    requires SpelledAt(SPrefix(op, arg), ts, pos)
    ensures pos < |ts| && ts[pos] == TOp(op) && SpelledAt(arg, ts, pos + 1)
  {
    hide Has;
    var x := Tokens(arg);
    HasBoth(ts, pos, [TOp(op)], x);
    HasFirst(ts, pos, TOp(op));
  }

  /**
   * Every sentence is parsed to its own tree, consuming exactly its tokens,
   * whatever follows it that could not extend it.
   */
  lemma ParseExprComplete(names: Names, d: Syntax, ts: seq<Token>, pos: nat, k: nat)
    requires Fits(d, k) && Fits(d, 0) && SpelledAt(d, ts, pos) && StopsAt(ts, pos + |Tokens(d)|, k)
    ensures ParseExpr(names, ts, pos, k) == Good(Tree(names, d), pos + |Tokens(d)|)
  {
    Climbs(names, d, ts, pos, k);
  }

  /** The grammar is unambiguous: two sentences with the same tokens stand for the same tree. */
  lemma Unambiguous(names: Names, d: Syntax, f: Syntax)
    requires Fits(d, 0) && Fits(f, 0) && Tokens(d) == Tokens(f)
    ensures Tree(names, d) == Tree(names, f)
  {
    ParseExprComplete(names, d, Tokens(d), 0, 0);
    ParseExprComplete(names, f, Tokens(f), 0, 0);
  }

  /** A whole token list is accepted to the end exactly when some sentence spells it. */
  lemma AcceptsExactlyTheGrammar(names: Names, ts: seq<Token>)
    ensures (ParseExpr(names, ts, 0, 0).Good? && ParseExpr(names, ts, 0, 0).next == |ts|)
       <==> exists d :: Fits(d, 0) && Tokens(d) == ts
  {
    var r := ParseExpr(names, ts, 0, 0);
    if r.Good? && r.next == |ts| {
      var d := ParseExprSound(names, ts, 0, 0);
      assert ts[0..|ts|] == ts;
      assert Fits(d, 0) && Tokens(d) == ts;
    }
    if d :| Fits(d, 0) && Tokens(d) == ts {
      ParseExprComplete(names, d, ts, 0, 0);
    }
  }

  /**
   * Trailing tokens are no error: a parse succeeds exactly when some sentence
   * begins the list and the token behind it is no binary operator, and then it
   * consumes that sentence.
   */
  lemma AcceptsExactlyAPrefix(names: Names, ts: seq<Token>)
    ensures ParseExpr(names, ts, 0, 0).Good?
       <==> exists d :: Fits(d, 0) && SpelledAt(d, ts, 0) && StopsAt(ts, |Tokens(d)|, 0)
    ensures forall d | Fits(d, 0) && SpelledAt(d, ts, 0) && StopsAt(ts, |Tokens(d)|, 0) ::
              ParseExpr(names, ts, 0, 0) == Good(Tree(names, d), |Tokens(d)|)
  {
    hide ParseExpr, Fits, Tokens, Tree, StopsAt;
    if ParseExpr(names, ts, 0, 0).Good? {
      var d := ParseExprSound(names, ts, 0, 0);
      assert Fits(d, 0) && SpelledAt(d, ts, 0) && StopsAt(ts, |Tokens(d)|, 0);
    }
    forall d | Fits(d, 0) && SpelledAt(d, ts, 0) && StopsAt(ts, |Tokens(d)|, 0)
      ensures ParseExpr(names, ts, 0, 0) == Good(Tree(names, d), |Tokens(d)|)
    {
      ParseExprComplete(names, d, ts, 0, 0);
    }
  }

  // ---- Printing ------------------------------------------------------------

  function SpellBinary(op: BinaryOp): (s: string)
    ensures BinaryOf(s).Some? && BinaryOf(s).value.0 == op
  {
    match op
    case LogOr => "||" case LogAnd => "&&" case Or => "|" case Xor => "^" case And => "&"
    case Eq => "==" case Ne => "!=" case Lt => "<" case Le => "<=" case Gt => ">" case Ge => ">="
    case Shl => "<<" case Shr => ">>" case Add => "+" case Sub => "-"
    case Mul => "*" case Div => "/" case Rem => "%"
  }

  function SpellUnary(op: UnaryOp): (s: string)
    ensures UnaryOf(s) == Some(op)
  {
    match op
    case Neg => "-" case Not => "!" case BitNot => "~"
  }

  /** Every name in `e` reads back as itself: `spell` gives each register a name. */
  ghost predicate Speakable(e: Expr, names: Names, spell: RegTarget -> string)
  {
    match e
    case Literal(_) => true
    case Register(r) => names(spell(r)) == Some(r)
    case Symbol(s) => names(s).None?
    case Unary(_, a) => Speakable(a, names, spell)
    case Binary(_, l, r) => Speakable(l, names, spell) && Speakable(r, names, spell)
  }

  /** `e` written with parentheses only where level `k` needs them. */
  function Written(e: Expr, spell: RegTarget -> string, k: nat): Syntax
    decreases e, 1
  {
    if e.Binary? && Prec(SpellBinary(e.bop)) < k then SParen(WrittenBare(e, spell)) else WrittenBare(e, spell)
  }

  function WrittenBare(e: Expr, spell: RegTarget -> string): Syntax
    decreases e, 0
  {
    match e
    case Literal(v) => SLit(v)
    case Register(r) => SName(spell(r))
    case Symbol(s) => SName(s)
    case Unary(op, a) => SPrefix(SpellUnary(op), Written(a, spell, 11))
    case Binary(op, l, r) =>
      var s := SpellBinary(op);
      SInfix(s, Written(l, spell, Prec(s)), Written(r, spell, Prec(s) + 1))
  }

  lemma {:induction false} WrittenStandsFor(e: Expr, names: Names, spell: RegTarget -> string, k: nat)
    requires Speakable(e, names, spell) && k <= 11
    ensures Fits(Written(e, spell, k), k) && Fits(Written(e, spell, k), 0)
    ensures Tree(names, Written(e, spell, k)) == e
    ensures k == 11 ==> Atomic(Written(e, spell, k))
    decreases e
  {
    match e {
      case Unary(op, a) => WrittenStandsFor(a, names, spell, 11);
      case Binary(op, l, r) =>
        var p := Prec(SpellBinary(op));
        assert 1 <= p <= 10;
        WrittenStandsFor(l, names, spell, p);
        WrittenStandsFor(r, names, spell, p + 1);
      case _ =>
    }
  }

  /** Parsing the minimally parenthesised rendering of any tree returns that tree. */
  lemma ParseOfWritten(e: Expr, names: Names, spell: RegTarget -> string)
    requires Speakable(e, names, spell)
    ensures var ts := Tokens(Written(e, spell, 0));
            ParseExpr(names, ts, 0, 0) == Good(e, |ts|)
  {
    var d := Written(e, spell, 0);
    WrittenStandsFor(e, names, spell, 0);
    ParseExprComplete(names, d, Tokens(d), 0, 0);
  }

  // ---- The parser itself ---------------------------------------------------

  class Parser {
    const names: Names
    const tokens: seq<Token>
    var pos: nat

    constructor (names: Names, tokens: seq<Token>)
      ensures this.names == names && this.tokens == tokens && pos == 0
    {
      this.names, this.tokens, pos := names, tokens, 0;
    }

    function Peek(): (t: Option<Token>)
      reads this
    {
      if pos < |tokens| then Some(tokens[pos]) else None
    }

    method Consume() returns (t: Option<Token>)
      requires pos <= |tokens|
      modifies this
      ensures t == old(Peek()) && pos == old(pos) + (if t.Some? then 1 else 0) <= |tokens|
    {
      t := Peek();
      if t.Some? {
        pos := pos + 1;
      }
    }

    method ParseExprAt(minPrec: nat) returns (r: Parsed)
      requires pos <= |tokens|
      modifies this
      ensures r == ParseExpr(names, tokens, old(pos), minPrec)
      ensures r.Good? ==> pos == r.next
      ensures old(pos) <= pos <= |tokens|
      decreases |tokens| - pos, 2
    {
      r := ParseAtomHere();
      if r.Bad? {
        return;
      }
      var lhs := r.e;
      while true
        invariant old(pos) < pos <= |tokens|
        invariant ParseExpr(names, tokens, old(pos), minPrec) == ParseLoop(names, tokens, pos, lhs, minPrec)
        decreases |tokens| - pos
      {
        var t := Peek();
        if t.None? || !t.value.TOp? || BinaryOf(t.value.op).None? {
          break;
        }
        var (op, prec) := BinaryOf(t.value.op).value;
        if prec < minPrec {
          break;
        }
        var _ := Consume();
        r := ParseExprAt(prec + 1);
        if r.Bad? {
          return;
        }
        lhs := Binary(op, lhs, r.e);
      }
      r := Good(lhs, pos);
    }

    method ParseAtomHere() returns (r: Parsed)
      requires pos <= |tokens|
      modifies this
      ensures r == ParseAtom(names, tokens, old(pos))
      ensures r.Good? ==> pos == r.next
      ensures old(pos) <= pos <= |tokens|
      decreases |tokens| - pos, 1
    {
      var t := Consume();
      match t {
        case None => r := Bad(UnexpectedEnd);
        case Some(TLit(v)) => r := Good(Literal(v), pos);
        case Some(TIdent(s)) => r := Good(NameExpr(names, s), pos);
        case Some(LParen) =>
          r := ParseExprAt(0);
          if r.Good? {
            var close := Consume();
            r := if close == Some(RParen) then Good(r.e, pos) else Bad(ExpectedRParen);
          }
        case Some(TOp(op)) =>
          if UnaryOf(op).None? {
            r := Bad(UnexpectedOperator(op));
          } else {
            r := ParseAtomHere();
            if r.Good? {
              r := Good(Unary(UnaryOf(op).value, r.e), pos);
            }
          }
        case Some(RParen) => r := Bad(UnexpectedToken(RParen));
      }
    }
  }
}
