/**
 * What every operator means, from its spelling to its value: each node and each
 * written operation against 64-bit machine arithmetic.
 */
module ExprMeaning {
  import opened Basics
  import opened Expr
  import opened ExprParser

  /** The value of a token list that is parsed to its end. */
  ghost function Calculated(names: Names, ts: seq<Token>, core: Core, symbols: Symbols): Option<Value>
  {
    var p := ParseExpr(names, ts, 0, 0);
    if p.Good? && p.next == |ts| then Some(Eval(p.e, core, symbols)) else None
  }

  /** Nodes `a` and `b` evaluate to `x` and `y`. */
  ghost predicate Operands(a: Expr, b: Expr, core: Core, symbols: Symbols, x: u64, y: u64)
  {
    Eval(a, core, symbols) == Ok(x) && Eval(b, core, symbols) == Ok(y)
  }

  lemma InfixTree(names: Names, op: string, x: u64, y: u64)
    requires BinaryOf(op).Some?
    ensures ParseExpr(names, [TLit(x), TOp(op), TLit(y)], 0, 0)
         == Good(Binary(BinaryOf(op).value.0, Literal(x), Literal(y)), 3)
  {
    hide BinaryOf, UnaryOf;
    var d := SInfix(op, SLit(x), SLit(y));
    var ts := [TLit(x), TOp(op), TLit(y)];
    assert Tokens(d) == ts;
    assert Has(ts, 0, Tokens(d));
    assert Prec(op) >= 0 && Fits(d, 0);
    ParseExprComplete(names, d, ts, 0, 0);
  }

  lemma PrefixTree(names: Names, op: string, x: u64)
    requires UnaryOf(op).Some?
    ensures ParseExpr(names, [TOp(op), TLit(x)], 0, 0) == Good(Unary(UnaryOf(op).value, Literal(x)), 2)
  {
    hide BinaryOf, UnaryOf;
    var d := SPrefix(op, SLit(x));
    var ts := [TOp(op), TLit(x)];
    assert Tokens(d) == ts;
    assert Has(ts, 0, Tokens(d));
    ParseExprComplete(names, d, ts, 0, 0);
  }

  /** A node and a written operation with the same operator and operands have the operator's table value. */
  lemma InfixValue(names: Names, op: string, bop: BinaryOp, a: Expr, b: Expr, core: Core, symbols: Symbols, x: u64, y: u64)
    requires BinaryOf(op).Some? && BinaryOf(op).value.0 == bop && Operands(a, b, core, symbols, x, y)
    ensures Eval(Binary(bop, a, b), core, symbols) == EvalBinary(bop, x, y)
    ensures Calculated(names, [TLit(x), TOp(op), TLit(y)], core, symbols) == Some(EvalBinary(bop, x, y))
  {
    hide EvalBinary, BinaryOf, ParseExpr;
    InfixTree(names, op, x, y);
    assert Eval(Binary(bop, Literal(x), Literal(y)), core, symbols) == EvalBinary(bop, x, y);
  }

  lemma PrefixValue(names: Names, op: string, uop: UnaryOp, a: Expr, core: Core, symbols: Symbols, x: u64)
    requires UnaryOf(op) == Some(uop) && Eval(a, core, symbols) == Ok(x)
    ensures Eval(Unary(uop, a), core, symbols) == Ok(EvalUnary(uop, x))
    ensures Calculated(names, [TOp(op), TLit(x)], core, symbols) == Some(Ok(EvalUnary(uop, x)))
  {
    hide EvalUnary, UnaryOf, ParseExpr;
    PrefixTree(names, op, x);
  }

  // ---- Shapes --------------------------------------------------------------

  /** Of two operators the tighter takes its operands first, and of equally tight ones the left. */
  lemma TwoOperators(names: Names, op1: string, op2: string, x: u64, y: u64, z: u64)
    requires BinaryOf(op1).Some? && BinaryOf(op2).Some?
    ensures var (b1, b2) := (BinaryOf(op1).value.0, BinaryOf(op2).value.0);
            ParseExpr(names, [TLit(x), TOp(op1), TLit(y), TOp(op2), TLit(z)], 0, 0)
            == Good(if Prec(op1) >= Prec(op2) then Binary(b2, Binary(b1, Literal(x), Literal(y)), Literal(z))
                    else Binary(b1, Literal(x), Binary(b2, Literal(y), Literal(z))), 5)
  {
    hide BinaryOf, UnaryOf, ParseExpr;
    if Prec(op1) >= Prec(op2) {
      LeftFirst(names, op1, op2, x, y, z);
    } else {
      RightFirst(names, op1, op2, x, y, z);
    }
  }

  lemma LeftFirst(names: Names, op1: string, op2: string, x: u64, y: u64, z: u64)
    requires BinaryOf(op1).Some? && BinaryOf(op2).Some? && Prec(op1) >= Prec(op2)
    ensures ParseExpr(names, [TLit(x), TOp(op1), TLit(y), TOp(op2), TLit(z)], 0, 0)
         == Good(Binary(BinaryOf(op2).value.0, Binary(BinaryOf(op1).value.0, Literal(x), Literal(y)), Literal(z)), 5)
  {
    hide BinaryOf, UnaryOf, ParseExpr, ParseLoop, ParseAtom, Prec;
    var ts := [TLit(x), TOp(op1), TLit(y), TOp(op2), TLit(z)];
    var inner := SInfix(op1, SLit(x), SLit(y));
    var d := SInfix(op2, inner, SLit(z));
    assert Tokens(inner) == [TLit(x), TOp(op1), TLit(y)];
    assert Tokens(d) == Tokens(inner) + [TOp(op2)] + Tokens(SLit(z));
    assert Tokens(d) == ts;
    assert Fits(inner, Prec(op2));
    FitsLower(inner, Prec(op2), 0);
    assert Tree(names, inner) == Binary(BinaryOf(op1).value.0, Literal(x), Literal(y));
    ParseExprComplete(names, d, ts, 0, 0);
  }

  lemma RightFirst(names: Names, op1: string, op2: string, x: u64, y: u64, z: u64)
    requires BinaryOf(op1).Some? && BinaryOf(op2).Some? && Prec(op1) < Prec(op2)
    ensures ParseExpr(names, [TLit(x), TOp(op1), TLit(y), TOp(op2), TLit(z)], 0, 0)
         == Good(Binary(BinaryOf(op1).value.0, Literal(x), Binary(BinaryOf(op2).value.0, Literal(y), Literal(z))), 5)
  {
    hide BinaryOf, UnaryOf, ParseExpr, ParseLoop, ParseAtom, Prec;
    var ts := [TLit(x), TOp(op1), TLit(y), TOp(op2), TLit(z)];
    var inner := SInfix(op2, SLit(y), SLit(z));
    var d := SInfix(op1, SLit(x), inner);
    assert Tokens(inner) == [TLit(y), TOp(op2), TLit(z)];
    assert Tokens(d) == Tokens(SLit(x)) + [TOp(op1)] + Tokens(inner);
    assert Tokens(d) == ts;
    assert Fits(inner, Prec(op1) + 1);
    FitsLower(inner, Prec(op1) + 1, 0);
    assert Tree(names, inner) == Binary(BinaryOf(op2).value.0, Literal(y), Literal(z));
    ParseExprComplete(names, d, ts, 0, 0);
  }

  /** A lone literal is itself; a lone name is the register it names, or else a symbol. */
  lemma LoneTokens(names: Names, x: u64, s: string)
    ensures ParseExpr(names, [TLit(x)], 0, 0) == Good(Literal(x), 1)
    ensures ParseExpr(names, [TIdent(s)], 0, 0)
         == Good(match names(s) case Some(r) => Register(r) case None => Symbol(s), 1)
  {
  }

  /** And a literal's value is itself, a register's what the core holds there. */
  lemma LoneValues(names: Names, x: u64, s: string, core: Core, symbols: Symbols)
    ensures Calculated(names, [TLit(x)], core, symbols) == Some(Ok(x))
    ensures names(s).Some? ==> Calculated(names, [TIdent(s)], core, symbols) == Some(Ok(core(names(s).value)))
  {
    LoneTokens(names, x, s);
    hide ParseExpr;
  }

  /** Each way for a token list to begin wrongly, and the error it is given. */
  lemma WrongBeginnings(names: Names, d: Syntax, op: string, rest: seq<Token>)
    ensures ParseExpr(names, [], 0, 0) == Bad(UnexpectedEnd)
    ensures ParseExpr(names, [RParen] + rest, 0, 0) == Bad(UnexpectedToken(RParen))
    ensures op != "-" && op != "!" && op != "~" ==>
              ParseExpr(names, [TOp(op)] + rest, 0, 0) == Bad(UnexpectedOperator(op))
    ensures Fits(d, 0) ==> ParseExpr(names, [LParen] + Tokens(d), 0, 0) == Bad(ExpectedRParen)
  {
    if Fits(d, 0) {
      var ts := [LParen] + Tokens(d);
      assert Has(ts, 1, Tokens(d));
      ParseExprComplete(names, d, ts, 1, 0);
    }
  }

  // ---- One operation each --------------------------------------------------

  lemma SumIs(x: u64, y: u64)
    ensures WrappingAdd(x, y) == x + y
  {
  }

  lemma DifferenceIs(x: u64, y: u64)
    ensures WrappingSub(x, y) == x - y
  {
  }

  lemma ProductIs(x: u64, y: u64)
    ensures WrappingMul(x, y) == x * y
  {
  }

  lemma QuotientIs(x: u64, y: u64)
    requires y != 0
    ensures !Zero(y) && WrappingDiv(x, y) == x / y
  {
  }

  lemma RemainderIs(x: u64, y: u64)
    requires y != 0
    ensures !Zero(y) && WrappingRem(x, y) == x % y
  {
  }

  lemma BitsAre(x: u64, y: u64)
    ensures BitAnd(x, y) == x & y && BitOr(x, y) == x | y
  {
  }

  lemma XorIs(x: u64, y: u64)
    ensures BitXor(x, y) == x ^ y
  {
  }

  lemma LeftIs(x: u64, y: u64)
    ensures WrappingShl(x, y) == x << (y & 63)
  {
  }

  lemma RightIs(x: u64, y: u64)
    ensures WrappingShr(x, y) == x >> (y & 63)
  {
  }

  lemma OrderIs(x: u64, y: u64)
    ensures (LessThan(x, y) <==> x < y) && (AtMost(x, y) <==> x <= y)
  {
  }

  lemma ZeroIs(x: u64)
    ensures Zero(x) <==> x == 0
  {
  }

  lemma TruthIs()
    ensures Truth(true) == 1 && Truth(false) == 0
  {
  }

  lemma MinusIs(x: u64)
    ensures WrappingNeg(x) == 0 - x
  {
  }

  lemma ComplementIs(x: u64)
    ensures Complement(x) == !x
  {
  }

  lemma PlusTable(x: u64, y: u64)
    ensures EvalBinary(Add, x, y) == Ok(x + y)
  {
    hide WrappingAdd, WrappingSub, WrappingMul, WrappingDiv, WrappingRem, WrappingNeg;
    hide BitAnd, BitOr, BitXor, Complement, WrappingShl, WrappingShr, Truth, LessThan, AtMost, Zero;
    SumIs(x, y);
  }

  /** `+` is addition modulo 2^64. */
  lemma PlusMeans(names: Names, a: Expr, b: Expr, core: Core, symbols: Symbols, x: u64, y: u64)
    requires Operands(a, b, core, symbols, x, y)
    ensures Eval(Binary(Add, a, b), core, symbols) == Ok(x + y)
    ensures Calculated(names, [TLit(x), TOp("+"), TLit(y)], core, symbols) == Some(Ok(x + y))
  {
    hide EvalBinary, Eval, Calculated;
    InfixValue(names, "+", Add, a, b, core, symbols, x, y);
    PlusTable(x, y);
  }

  lemma MinusTable(x: u64, y: u64)
    ensures EvalBinary(Sub, x, y) == Ok(x - y)
  {
    hide WrappingAdd, WrappingSub, WrappingMul, WrappingDiv, WrappingRem, WrappingNeg;
    hide BitAnd, BitOr, BitXor, Complement, WrappingShl, WrappingShr, Truth, LessThan, AtMost, Zero;
    DifferenceIs(x, y);
  }

  /** `-` takes its right operand from its left, modulo 2^64. */
  lemma MinusMeans(names: Names, a: Expr, b: Expr, core: Core, symbols: Symbols, x: u64, y: u64)
    requires Operands(a, b, core, symbols, x, y)
    ensures Eval(Binary(Sub, a, b), core, symbols) == Ok(x - y)
    ensures Calculated(names, [TLit(x), TOp("-"), TLit(y)], core, symbols) == Some(Ok(x - y))
  {
    hide EvalBinary, Eval, Calculated;
    InfixValue(names, "-", Sub, a, b, core, symbols, x, y);
    MinusTable(x, y);
  }

  lemma TimesTable(x: u64, y: u64)
    ensures EvalBinary(Mul, x, y) == Ok(x * y)
  {
    hide WrappingAdd, WrappingSub, WrappingMul, WrappingDiv, WrappingRem, WrappingNeg;
    hide BitAnd, BitOr, BitXor, Complement, WrappingShl, WrappingShr, Truth, LessThan, AtMost, Zero;
    ProductIs(x, y);
  }

  /** `*` is multiplication modulo 2^64. */
  lemma TimesMeans(names: Names, a: Expr, b: Expr, core: Core, symbols: Symbols, x: u64, y: u64)
    requires Operands(a, b, core, symbols, x, y)
    ensures Eval(Binary(Mul, a, b), core, symbols) == Ok(x * y)
    ensures Calculated(names, [TLit(x), TOp("*"), TLit(y)], core, symbols) == Some(Ok(x * y))
  {
    hide EvalBinary, Eval, Calculated;
    InfixValue(names, "*", Mul, a, b, core, symbols, x, y);
    TimesTable(x, y);
  }

  lemma OverTable(x: u64, y: u64)
    ensures EvalBinary(Div, x, y) == (if y == 0 then Err(DivisionByZero) else Ok(x / y))
  {
    hide WrappingAdd, WrappingSub, WrappingMul, WrappingDiv, WrappingRem, WrappingNeg;
    hide BitAnd, BitOr, BitXor, Complement, WrappingShl, WrappingShr, Truth, LessThan, AtMost, Zero;
    ZeroIs(y);
    if y != 0 {
      QuotientIs(x, y);
    }
  }

  /** `/` is the unsigned quotient, and an error exactly for a zero divisor. */
  lemma OverMeans(names: Names, a: Expr, b: Expr, core: Core, symbols: Symbols, x: u64, y: u64)
    requires Operands(a, b, core, symbols, x, y)
    ensures Eval(Binary(Div, a, b), core, symbols) == (if y == 0 then Err(DivisionByZero) else Ok(x / y))
    ensures Calculated(names, [TLit(x), TOp("/"), TLit(y)], core, symbols) == Some((if y == 0 then Err(DivisionByZero) else Ok(x / y)))
  {
    hide EvalBinary, Eval, Calculated;
    InfixValue(names, "/", Div, a, b, core, symbols, x, y);
    OverTable(x, y);
  }

  lemma ModuloTable(x: u64, y: u64)
    ensures EvalBinary(Rem, x, y) == (if y == 0 then Err(DivisionByZero) else Ok(x % y))
  {
    hide WrappingAdd, WrappingSub, WrappingMul, WrappingDiv, WrappingRem, WrappingNeg;
    hide BitAnd, BitOr, BitXor, Complement, WrappingShl, WrappingShr, Truth, LessThan, AtMost, Zero;
    ZeroIs(y);
    if y != 0 {
      RemainderIs(x, y);
    }
  }

  /** `%` is the unsigned remainder, and an error exactly for a zero divisor. */
  lemma ModuloMeans(names: Names, a: Expr, b: Expr, core: Core, symbols: Symbols, x: u64, y: u64)
    requires Operands(a, b, core, symbols, x, y)
    ensures Eval(Binary(Rem, a, b), core, symbols) == (if y == 0 then Err(DivisionByZero) else Ok(x % y))
    ensures Calculated(names, [TLit(x), TOp("%"), TLit(y)], core, symbols) == Some((if y == 0 then Err(DivisionByZero) else Ok(x % y)))
  {
    hide EvalBinary, Eval, Calculated;
    InfixValue(names, "%", Rem, a, b, core, symbols, x, y);
    ModuloTable(x, y);
  }

  lemma AndTable(x: u64, y: u64)
    ensures EvalBinary(And, x, y) == Ok(x & y)
  {
    hide WrappingAdd, WrappingSub, WrappingMul, WrappingDiv, WrappingRem, WrappingNeg;
    hide BitAnd, BitOr, BitXor, Complement, WrappingShl, WrappingShr, Truth, LessThan, AtMost, Zero;
    BitsAre(x, y);
  }

  /** `&` is the bitwise and. */
  lemma AndMeans(names: Names, a: Expr, b: Expr, core: Core, symbols: Symbols, x: u64, y: u64)
    requires Operands(a, b, core, symbols, x, y)
    ensures Eval(Binary(And, a, b), core, symbols) == Ok(x & y)
    ensures Calculated(names, [TLit(x), TOp("&"), TLit(y)], core, symbols) == Some(Ok(x & y))
  {
    hide EvalBinary, Eval, Calculated;
    InfixValue(names, "&", And, a, b, core, symbols, x, y);
    AndTable(x, y);
  }

  lemma OrTable(x: u64, y: u64)
    ensures EvalBinary(Or, x, y) == Ok(x | y)
  {
    hide WrappingAdd, WrappingSub, WrappingMul, WrappingDiv, WrappingRem, WrappingNeg;
    hide BitAnd, BitOr, BitXor, Complement, WrappingShl, WrappingShr, Truth, LessThan, AtMost, Zero;
    BitsAre(x, y);
  }

  /** `|` is the bitwise or. */
  lemma OrMeans(names: Names, a: Expr, b: Expr, core: Core, symbols: Symbols, x: u64, y: u64)
    requires Operands(a, b, core, symbols, x, y)
    ensures Eval(Binary(Or, a, b), core, symbols) == Ok(x | y)
    ensures Calculated(names, [TLit(x), TOp("|"), TLit(y)], core, symbols) == Some(Ok(x | y))
  {
    hide EvalBinary, Eval, Calculated;
    InfixValue(names, "|", Or, a, b, core, symbols, x, y);
    OrTable(x, y);
  }

  lemma XorTable(x: u64, y: u64)
    ensures EvalBinary(Xor, x, y) == Ok(x ^ y)
  {
    hide WrappingAdd, WrappingSub, WrappingMul, WrappingDiv, WrappingRem, WrappingNeg;
    hide BitAnd, BitOr, BitXor, Complement, WrappingShl, WrappingShr, Truth, LessThan, AtMost, Zero;
    XorIs(x, y);
  }

  /** `^` is the bitwise exclusive or. */
  lemma XorMeans(names: Names, a: Expr, b: Expr, core: Core, symbols: Symbols, x: u64, y: u64)
    requires Operands(a, b, core, symbols, x, y)
    ensures Eval(Binary(Xor, a, b), core, symbols) == Ok(x ^ y)
    ensures Calculated(names, [TLit(x), TOp("^"), TLit(y)], core, symbols) == Some(Ok(x ^ y))
  {
    hide EvalBinary, Eval, Calculated;
    InfixValue(names, "^", Xor, a, b, core, symbols, x, y);
    XorTable(x, y);
  }

  lemma LeftTable(x: u64, y: u64)
    ensures EvalBinary(Shl, x, y) == Ok(x << (y & 63))
  {
    hide WrappingAdd, WrappingSub, WrappingMul, WrappingDiv, WrappingRem, WrappingNeg;
    hide BitAnd, BitOr, BitXor, Complement, WrappingShl, WrappingShr, Truth, LessThan, AtMost, Zero;
    LeftIs(x, y);
  }

  /** `<<` shifts left by the low six bits of its right operand. */
  lemma LeftMeans(names: Names, a: Expr, b: Expr, core: Core, symbols: Symbols, x: u64, y: u64)
    requires Operands(a, b, core, symbols, x, y)
    ensures Eval(Binary(Shl, a, b), core, symbols) == Ok(x << (y & 63))
    ensures Calculated(names, [TLit(x), TOp("<<"), TLit(y)], core, symbols) == Some(Ok(x << (y & 63)))
  {
    hide EvalBinary, Eval, Calculated;
    InfixValue(names, "<<", Shl, a, b, core, symbols, x, y);
    LeftTable(x, y);
  }

  lemma RightTable(x: u64, y: u64)
    ensures EvalBinary(Shr, x, y) == Ok(x >> (y & 63))
  {
    hide WrappingAdd, WrappingSub, WrappingMul, WrappingDiv, WrappingRem, WrappingNeg;
    hide BitAnd, BitOr, BitXor, Complement, WrappingShl, WrappingShr, Truth, LessThan, AtMost, Zero;
    RightIs(x, y);
  }

  /** `>>` shifts right by the low six bits, filling with zeroes. */
  lemma RightMeans(names: Names, a: Expr, b: Expr, core: Core, symbols: Symbols, x: u64, y: u64)
    requires Operands(a, b, core, symbols, x, y)
    ensures Eval(Binary(Shr, a, b), core, symbols) == Ok(x >> (y & 63))
    ensures Calculated(names, [TLit(x), TOp(">>"), TLit(y)], core, symbols) == Some(Ok(x >> (y & 63)))
  {
    hide EvalBinary, Eval, Calculated;
    InfixValue(names, ">>", Shr, a, b, core, symbols, x, y);
    RightTable(x, y);
  }

  lemma EqualTable(x: u64, y: u64)
    ensures EvalBinary(Eq, x, y) == Ok(if x == y then 1 else 0)
  {
    hide WrappingAdd, WrappingSub, WrappingMul, WrappingDiv, WrappingRem, WrappingNeg;
    hide BitAnd, BitOr, BitXor, Complement, WrappingShl, WrappingShr, Truth, LessThan, AtMost, Zero;
    TruthIs();
  }

  /** `==` is 1 for equal operands, else 0. */
  lemma EqualMeans(names: Names, a: Expr, b: Expr, core: Core, symbols: Symbols, x: u64, y: u64)
    requires Operands(a, b, core, symbols, x, y)
    ensures Eval(Binary(Eq, a, b), core, symbols) == Ok(if x == y then 1 else 0)
    ensures Calculated(names, [TLit(x), TOp("=="), TLit(y)], core, symbols) == Some(Ok(if x == y then 1 else 0))
  {
    hide EvalBinary, Eval, Calculated;
    InfixValue(names, "==", Eq, a, b, core, symbols, x, y);
    EqualTable(x, y);
  }

  lemma UnequalTable(x: u64, y: u64)
    ensures EvalBinary(Ne, x, y) == Ok(if x == y then 0 else 1)
  {
    hide WrappingAdd, WrappingSub, WrappingMul, WrappingDiv, WrappingRem, WrappingNeg;
    hide BitAnd, BitOr, BitXor, Complement, WrappingShl, WrappingShr, Truth, LessThan, AtMost, Zero;
    TruthIs();
  }

  /** `!=` is 0 for equal operands, else 1. */
  lemma UnequalMeans(names: Names, a: Expr, b: Expr, core: Core, symbols: Symbols, x: u64, y: u64)
    requires Operands(a, b, core, symbols, x, y)
    ensures Eval(Binary(Ne, a, b), core, symbols) == Ok(if x == y then 0 else 1)
    ensures Calculated(names, [TLit(x), TOp("!="), TLit(y)], core, symbols) == Some(Ok(if x == y then 0 else 1))
  {
    hide EvalBinary, Eval, Calculated;
    InfixValue(names, "!=", Ne, a, b, core, symbols, x, y);
    UnequalTable(x, y);
  }

  lemma LessTable(x: u64, y: u64)
    ensures EvalBinary(Lt, x, y) == Ok(if x < y then 1 else 0)
  {
    hide WrappingAdd, WrappingSub, WrappingMul, WrappingDiv, WrappingRem, WrappingNeg;
    hide BitAnd, BitOr, BitXor, Complement, WrappingShl, WrappingShr, Truth, LessThan, AtMost, Zero;
    OrderIs(x, y);
    TruthIs();
  }

  /** `<` is unsigned. */
  lemma LessMeans(names: Names, a: Expr, b: Expr, core: Core, symbols: Symbols, x: u64, y: u64)
    requires Operands(a, b, core, symbols, x, y)
    ensures Eval(Binary(Lt, a, b), core, symbols) == Ok(if x < y then 1 else 0)
    ensures Calculated(names, [TLit(x), TOp("<"), TLit(y)], core, symbols) == Some(Ok(if x < y then 1 else 0))
  {
    hide EvalBinary, Eval, Calculated;
    InfixValue(names, "<", Lt, a, b, core, symbols, x, y);
    LessTable(x, y);
  }

  lemma AtMostTable(x: u64, y: u64)
    ensures EvalBinary(Le, x, y) == Ok(if x <= y then 1 else 0)
  {
    hide WrappingAdd, WrappingSub, WrappingMul, WrappingDiv, WrappingRem, WrappingNeg;
    hide BitAnd, BitOr, BitXor, Complement, WrappingShl, WrappingShr, Truth, LessThan, AtMost, Zero;
    OrderIs(x, y);
    TruthIs();
  }

  /** `<=` is unsigned. */
  lemma AtMostMeans(names: Names, a: Expr, b: Expr, core: Core, symbols: Symbols, x: u64, y: u64)
    requires Operands(a, b, core, symbols, x, y)
    ensures Eval(Binary(Le, a, b), core, symbols) == Ok(if x <= y then 1 else 0)
    ensures Calculated(names, [TLit(x), TOp("<="), TLit(y)], core, symbols) == Some(Ok(if x <= y then 1 else 0))
  {
    hide EvalBinary, Eval, Calculated;
    InfixValue(names, "<=", Le, a, b, core, symbols, x, y);
    AtMostTable(x, y);
  }

  lemma GreaterTable(x: u64, y: u64)
    ensures EvalBinary(Gt, x, y) == Ok(if x > y then 1 else 0)
  {
    hide WrappingAdd, WrappingSub, WrappingMul, WrappingDiv, WrappingRem, WrappingNeg;
    hide BitAnd, BitOr, BitXor, Complement, WrappingShl, WrappingShr, Truth, LessThan, AtMost, Zero;
    OrderIs(y, x);
    TruthIs();
  }

  /** `>` is unsigned. */
  lemma GreaterMeans(names: Names, a: Expr, b: Expr, core: Core, symbols: Symbols, x: u64, y: u64)
    requires Operands(a, b, core, symbols, x, y)
    ensures Eval(Binary(Gt, a, b), core, symbols) == Ok(if x > y then 1 else 0)
    ensures Calculated(names, [TLit(x), TOp(">"), TLit(y)], core, symbols) == Some(Ok(if x > y then 1 else 0))
  {
    hide EvalBinary, Eval, Calculated;
    InfixValue(names, ">", Gt, a, b, core, symbols, x, y);
    GreaterTable(x, y);
  }

  lemma AtLeastTable(x: u64, y: u64)
    ensures EvalBinary(Ge, x, y) == Ok(if x >= y then 1 else 0)
  {
    hide WrappingAdd, WrappingSub, WrappingMul, WrappingDiv, WrappingRem, WrappingNeg;
    hide BitAnd, BitOr, BitXor, Complement, WrappingShl, WrappingShr, Truth, LessThan, AtMost, Zero;
    OrderIs(y, x);
    TruthIs();
  }

  /** `>=` is unsigned. */
  lemma AtLeastMeans(names: Names, a: Expr, b: Expr, core: Core, symbols: Symbols, x: u64, y: u64)
    requires Operands(a, b, core, symbols, x, y)
    ensures Eval(Binary(Ge, a, b), core, symbols) == Ok(if x >= y then 1 else 0)
    ensures Calculated(names, [TLit(x), TOp(">="), TLit(y)], core, symbols) == Some(Ok(if x >= y then 1 else 0))
  {
    hide EvalBinary, Eval, Calculated;
    InfixValue(names, ">=", Ge, a, b, core, symbols, x, y);
    AtLeastTable(x, y);
  }

  lemma BothTable(x: u64, y: u64)
    ensures EvalBinary(LogAnd, x, y) == Ok(if x != 0 && y != 0 then 1 else 0)
  {
    hide WrappingAdd, WrappingSub, WrappingMul, WrappingDiv, WrappingRem, WrappingNeg;
    hide BitAnd, BitOr, BitXor, Complement, WrappingShl, WrappingShr, Truth, LessThan, AtMost, Zero;
    ZeroIs(x);
    ZeroIs(y);
    TruthIs();
  }

  /** `&&` is 1 exactly when neither operand is 0. */
  lemma BothMeans(names: Names, a: Expr, b: Expr, core: Core, symbols: Symbols, x: u64, y: u64)
    requires Operands(a, b, core, symbols, x, y)
    ensures Eval(Binary(LogAnd, a, b), core, symbols) == Ok(if x != 0 && y != 0 then 1 else 0)
    ensures Calculated(names, [TLit(x), TOp("&&"), TLit(y)], core, symbols) == Some(Ok(if x != 0 && y != 0 then 1 else 0))
  {
    hide EvalBinary, Eval, Calculated;
    InfixValue(names, "&&", LogAnd, a, b, core, symbols, x, y);
    BothTable(x, y);
  }

  lemma EitherTable(x: u64, y: u64)
    ensures EvalBinary(LogOr, x, y) == Ok(if x == 0 && y == 0 then 0 else 1)
  {
    hide WrappingAdd, WrappingSub, WrappingMul, WrappingDiv, WrappingRem, WrappingNeg;
    hide BitAnd, BitOr, BitXor, Complement, WrappingShl, WrappingShr, Truth, LessThan, AtMost, Zero;
    ZeroIs(x);
    ZeroIs(y);
    TruthIs();
  }

  /** `||` is 0 exactly when both operands are 0. */
  lemma EitherMeans(names: Names, a: Expr, b: Expr, core: Core, symbols: Symbols, x: u64, y: u64)
    requires Operands(a, b, core, symbols, x, y)
    ensures Eval(Binary(LogOr, a, b), core, symbols) == Ok(if x == 0 && y == 0 then 0 else 1)
    ensures Calculated(names, [TLit(x), TOp("||"), TLit(y)], core, symbols) == Some(Ok(if x == 0 && y == 0 then 0 else 1))
  {
    hide EvalBinary, Eval, Calculated;
    InfixValue(names, "||", LogOr, a, b, core, symbols, x, y);
    EitherTable(x, y);
  }

  lemma NegateTable(x: u64)
    ensures EvalUnary(Neg, x) == 0 - x
  {
    hide WrappingAdd, WrappingSub, WrappingMul, WrappingDiv, WrappingRem, WrappingNeg;
    hide BitAnd, BitOr, BitXor, Complement, WrappingShl, WrappingShr, Truth, LessThan, AtMost, Zero;
    MinusIs(x);
  }

  /** Prefix `-` is negation modulo 2^64. */
  lemma NegateMeans(names: Names, a: Expr, core: Core, symbols: Symbols, x: u64)
    requires Eval(a, core, symbols) == Ok(x)
    ensures Eval(Unary(Neg, a), core, symbols) == Ok(0 - x)
    ensures Calculated(names, [TOp("-"), TLit(x)], core, symbols) == Some(Ok(0 - x))
  {
    hide EvalUnary, Eval, Calculated;
    PrefixValue(names, "-", Neg, a, core, symbols, x);
    NegateTable(x);
  }

  lemma NotTable(x: u64)
    ensures EvalUnary(Not, x) == if x == 0 then 1 else 0
  {
    hide WrappingAdd, WrappingSub, WrappingMul, WrappingDiv, WrappingRem, WrappingNeg;
    hide BitAnd, BitOr, BitXor, Complement, WrappingShl, WrappingShr, Truth, LessThan, AtMost, Zero;
    ZeroIs(x);
    TruthIs();
  }

  /** `!` is 1 for 0, else 0. */
  lemma NotMeans(names: Names, a: Expr, core: Core, symbols: Symbols, x: u64)
    requires Eval(a, core, symbols) == Ok(x)
    ensures Eval(Unary(Not, a), core, symbols) == Ok(if x == 0 then 1 else 0)
    ensures Calculated(names, [TOp("!"), TLit(x)], core, symbols) == Some(Ok(if x == 0 then 1 else 0))
  {
    hide EvalUnary, Eval, Calculated;
    PrefixValue(names, "!", Not, a, core, symbols, x);
    NotTable(x);
  }

  lemma ComplementTable(x: u64)
    ensures EvalUnary(BitNot, x) == !x
  {
    hide WrappingAdd, WrappingSub, WrappingMul, WrappingDiv, WrappingRem, WrappingNeg;
    hide BitAnd, BitOr, BitXor, Complement, WrappingShl, WrappingShr, Truth, LessThan, AtMost, Zero;
    ComplementIs(x);
  }

  /** `~` is the bitwise complement. */
  lemma ComplementMeans(names: Names, a: Expr, core: Core, symbols: Symbols, x: u64)
    requires Eval(a, core, symbols) == Ok(x)
    ensures Eval(Unary(BitNot, a), core, symbols) == Ok(!x)
    ensures Calculated(names, [TOp("~"), TLit(x)], core, symbols) == Some(Ok(!x))
  {
    hide EvalUnary, Eval, Calculated;
    PrefixValue(names, "~", BitNot, a, core, symbols, x);
    ComplementTable(x);
  }
}
