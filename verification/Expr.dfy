/**
 * Monitor expressions: the tree, its evaluation over wrapping 64-bit values and
 * the constant folder.
 *
 * Register reads and symbol resolution belong to other components; they are
 * given as functions.
 */
module Expr {
  import opened Basics

  type u64 = bv64

  datatype RegTarget = Pc | Hi | Lo | Gpr(n: nat) | Cp0(n: nat) | Fpr(n: nat)

  datatype UnaryOp = Neg | Not | BitNot

  datatype BinaryOp =
    | Add | Sub | Mul | Div | Rem
    | And | Or | Xor | Shl | Shr
    | Eq | Ne | Lt | Le | Gt | Ge
    | LogAnd | LogOr

  datatype Expr =
    | Literal(val: u64)
    | Register(reg: RegTarget)
    | Symbol(name: string)
    | Unary(uop: UnaryOp, arg: Expr)
    | Binary(bop: BinaryOp, lhs: Expr, rhs: Expr)

  /** What a lookup in the symbol table answers. */
  datatype Resolved = Found(addr: u64) | NotFound(why: string)

  type Core = RegTarget -> u64
  type Symbols = Option<string -> Resolved>

  datatype EvalError = NoSymbolTable(name: string) | Unresolved(why: string) | DivisionByZero

  datatype Value = Ok(v: u64) | Err(error: EvalError)

  // ---- Machine operations on 64-bit values ---------------------------------

  function WrappingAdd(l: u64, r: u64): u64 { l + r }
  function WrappingSub(l: u64, r: u64): u64 { l - r }
  function WrappingMul(l: u64, r: u64): u64 { l * r }
  function WrappingDiv(l: u64, r: u64): u64 requires !Zero(r) { l / r }
  function WrappingRem(l: u64, r: u64): u64 requires !Zero(r) { l % r }
  function WrappingNeg(v: u64): u64 { 0 - v }
  function BitAnd(l: u64, r: u64): u64 { l & r }
  function BitOr(l: u64, r: u64): u64 { l | r }
  function BitXor(l: u64, r: u64): u64 { l ^ r }
  function Complement(v: u64): u64 { !v }

  predicate Zero(v: u64) { v == 0 }
  predicate LessThan(l: u64, r: u64) { l < r }
  predicate AtMost(l: u64, r: u64) { l <= r }

  /** Shift counts are cut to 32 bits and then taken modulo 64: their low six bits. */
  function WrappingShl(l: u64, r: u64): u64 { l << (r & 63) }
  function WrappingShr(l: u64, r: u64): u64 { l >> (r & 63) }

  function Truth(b: bool): u64
  {
    if b then 1 else 0
  }

  // ---- Evaluation ----------------------------------------------------------

  function EvalUnary(op: UnaryOp, v: u64): u64
  {
    match op
    case Neg => WrappingNeg(v)
    case Not => Truth(Zero(v))
    case BitNot => Complement(v)
  }

  function EvalBinary(op: BinaryOp, l: u64, r: u64): Value
  {
    match op
    case Add => Ok(WrappingAdd(l, r))
    case Sub => Ok(WrappingSub(l, r))
    case Mul => Ok(WrappingMul(l, r))
    case Div => if Zero(r) then Err(DivisionByZero) else Ok(WrappingDiv(l, r))
    case Rem => if Zero(r) then Err(DivisionByZero) else Ok(WrappingRem(l, r))
    case And => Ok(BitAnd(l, r))
    case Or => Ok(BitOr(l, r))
    case Xor => Ok(BitXor(l, r))
    case Shl => Ok(WrappingShl(l, r))
    case Shr => Ok(WrappingShr(l, r))
    case Eq => Ok(Truth(l == r))
    case Ne => Ok(Truth(l != r))
    case Lt => Ok(Truth(LessThan(l, r)))
    case Le => Ok(Truth(AtMost(l, r)))
    case Gt => Ok(Truth(LessThan(r, l)))
    case Ge => Ok(Truth(AtMost(r, l)))
    case LogAnd => Ok(Truth(!Zero(l) && !Zero(r)))
    case LogOr => Ok(Truth(!Zero(l) || !Zero(r)))
  }

  /** 32-bit kernel addresses are sign-extended. */
  function Extended(addr: u64): u64
  {
    if addr <= 0xFFFF_FFFF && (addr & 0x8000_0000) != 0 then addr | 0xFFFF_FFFF_0000_0000 else addr
  }

  function EvalSymbol(name: string, symbols: Symbols): Value
  {
    if symbols.None? then Err(NoSymbolTable(name))
    else
      match symbols.value(name)
      case Found(addr) => Ok(Extended(addr))
      case NotFound(why) => Err(Unresolved(why))
  }

  function Eval(e: Expr, core: Core, symbols: Symbols): Value
  {
    match e
    case Literal(v) => Ok(v)
    case Register(r) => Ok(core(r))
    case Symbol(name) => EvalSymbol(name, symbols)
    case Unary(op, a) =>
      var v := Eval(a, core, symbols);
      if v.Err? then v else Ok(EvalUnary(op, v.v))
    case Binary(op, l, r) =>
      var lv := Eval(l, core, symbols);
      if lv.Err? then lv else
      var rv := Eval(r, core, symbols);
      if rv.Err? then rv else EvalBinary(op, lv.v, rv.v)
  }

  // ---- What evaluation computes --------------------------------------------

  /** An operand's error is the node's, the left one's first: no operator skips an operand. */
  lemma OperandErrors(u: UnaryOp, op: BinaryOp, a: Expr, b: Expr, core: Core, symbols: Symbols)
    ensures Eval(a, core, symbols).Err? ==>
              Eval(Unary(u, a), core, symbols) == Eval(Binary(op, a, b), core, symbols) == Eval(a, core, symbols)
    ensures Eval(a, core, symbols).Ok? && Eval(b, core, symbols).Err? ==>
              Eval(Binary(op, a, b), core, symbols) == Eval(b, core, symbols)
  {
    hide EvalUnary, EvalBinary;
  }

  /**
   * A resolved name is its address, with 32-bit addresses of the upper half
   * moved to the top of the 64-bit space; an unresolved one is an error.
   */
  lemma SymbolMeans(name: string, core: Core, symbols: Symbols)
    ensures symbols.None? ==> Eval(Symbol(name), core, symbols) == Err(NoSymbolTable(name))
    ensures symbols.Some? && symbols.value(name).NotFound? ==>
              Eval(Symbol(name), core, symbols) == Err(Unresolved(symbols.value(name).why))
    ensures symbols.Some? && symbols.value(name).Found? ==>
              var addr := symbols.value(name).addr;
              Eval(Symbol(name), core, symbols)
              == Ok(if 0x8000_0000 <= addr <= 0xFFFF_FFFF then addr + 0xFFFF_FFFF_0000_0000 else addr)
  {
    hide Extended;
    if symbols.Some? && symbols.value(name).Found? {
      KernelAddress(symbols.value(name).addr);
    }
  }

  lemma KernelAddress(addr: u64)
    ensures Extended(addr) == if 0x8000_0000 <= addr <= 0xFFFF_FFFF then addr + 0xFFFF_FFFF_0000_0000 else addr
  {
  }

  // ---- Folding -------------------------------------------------------------

  /** The folder's own table of unary operators. */
  function FoldUnary(op: UnaryOp, v: u64): u64
  {
    match op
    case Neg => WrappingNeg(v)
    case Not => Truth(Zero(v))
    case BitNot => Complement(v)
  }

  /** The folder's own table of binary operators; `None` leaves the node alone. */
  function FoldBinary(op: BinaryOp, l: u64, r: u64): Option<u64>
  {
    match op
    case Add => Some(WrappingAdd(l, r))
    case Sub => Some(WrappingSub(l, r))
    case Mul => Some(WrappingMul(l, r))
    case Div => if !Zero(r) then Some(WrappingDiv(l, r)) else None
    case Rem => if !Zero(r) then Some(WrappingRem(l, r)) else None
    case And => Some(BitAnd(l, r))
    case Or => Some(BitOr(l, r))
    case Xor => Some(BitXor(l, r))
    case Shl => Some(WrappingShl(l, r))
    case Shr => Some(WrappingShr(l, r))
    case Eq => Some(Truth(l == r))
    case Ne => Some(Truth(l != r))
    case Lt => Some(Truth(LessThan(l, r)))
    case Le => Some(Truth(AtMost(l, r)))
    case Gt => Some(Truth(LessThan(r, l)))
    case Ge => Some(Truth(AtMost(r, l)))
    case LogAnd => Some(Truth(!Zero(l) && !Zero(r)))
    case LogOr => Some(Truth(!Zero(l) || !Zero(r)))
  }

  function Resolves(name: string, symbols: Symbols): bool
  {
    symbols.Some? && symbols.value(name).Found?
  }

  function Fold(e: Expr, symbols: Symbols): Expr
  {
    match e
    case Symbol(name) => if Resolves(name, symbols) then Literal(Extended(symbols.value(name).addr)) else e
    case Unary(op, a) =>
      UnaryNode(op, Fold(a, symbols))
    case Binary(op, l, r) =>
      BinaryNode(op, Fold(l, symbols), Fold(r, symbols))
    case _ => e
  }

  /** A node over a folded operand: a literal if it can be computed. */
  function UnaryNode(op: UnaryOp, f: Expr): Expr
  {
    if f.Literal? then Literal(FoldUnary(op, f.val)) else Unary(op, f)
  }

  function BinaryNode(op: BinaryOp, l: Expr, r: Expr): Expr
  {
    if l.Literal? && r.Literal? && FoldBinary(op, l.val, r.val).Some?
    then Literal(FoldBinary(op, l.val, r.val).value)
    else Binary(op, l, r)
  }

  /** The first symbol name left in a tree, left to right. */
  function FirstSymbol(e: Expr): Option<string>
  {
    match e
    case Symbol(n) => Some(n)
    case Unary(_, a) => FirstSymbol(a)
    case Binary(_, l, r) => if FirstSymbol(l).Some? then FirstSymbol(l) else FirstSymbol(r)
    case _ => None
  }

  // ---- Vocabulary for what is proved ---------------------------------------

  /** The symbol names of a tree, left to right. */
  function SymbolsOf(e: Expr): seq<string>
  {
    match e
    case Symbol(n) => [n]
    case Unary(_, a) => SymbolsOf(a)
    case Binary(_, l, r) => SymbolsOf(l) + SymbolsOf(r)
    case _ => []
  }

  ghost predicate HasRegister(e: Expr)
  {
    match e
    case Register(_) => true
    case Unary(_, a) => HasRegister(a)
    case Binary(_, l, r) => HasRegister(l) || HasRegister(r)
    case _ => false
  }

  ghost predicate AllResolve(e: Expr, symbols: Symbols)
  {
    forall n | n in SymbolsOf(e) :: Resolves(n, symbols)
  }

  /** Neither a register nor a symbol. */
  ghost predicate Closed(e: Expr)
  {
    !HasRegister(e) && SymbolsOf(e) == []
  }

  // ---- Folding preserves meaning -------------------------------------------

  /** The folder's operator tables agree with the evaluator's, refusing exactly where it fails. */
  lemma TablesAgree(u: UnaryOp, b: BinaryOp, l: u64, r: u64)
    ensures FoldUnary(u, l) == EvalUnary(u, l)
    ensures match EvalBinary(b, l, r)
            case Ok(v) => FoldBinary(b, l, r) == Some(v)
            case Err(_) => FoldBinary(b, l, r) == None
  {
    hide WrappingAdd, WrappingSub, WrappingMul, WrappingDiv, WrappingRem, WrappingNeg;
    hide BitAnd, BitOr, BitXor, Complement, WrappingShl, WrappingShr, Truth, LessThan, AtMost, Zero;
  }

  /** A folded tree evaluates as the tree did, to the same value or the same error. */
  lemma {:induction false} FoldPreservesEval(e: Expr, core: Core, symbols: Symbols)
    ensures Eval(Fold(e, symbols), core, symbols) == Eval(e, core, symbols)
  {
    hide EvalUnary, EvalBinary, FoldUnary, FoldBinary, Extended;
    match e {
      case Unary(op, a) =>
        FoldPreservesEval(a, core, symbols);
        var f := Fold(a, symbols);
        if f.Literal? {
          TablesAgree(op, Add, f.val, f.val);
        }
      case Binary(op, l, r) =>
        FoldPreservesEval(l, core, symbols);
        FoldPreservesEval(r, core, symbols);
        var fl, fr := Fold(l, symbols), Fold(r, symbols);
        if fl.Literal? && fr.Literal? {
          TablesAgree(Neg, op, fl.val, fr.val);
        }
      case _ =>
    }
  }

  /** Folding in two stages, first without symbols, is folding at once; folding twice is folding once. */
  lemma {:induction false} FoldAbsorbs(e: Expr, symbols: Symbols)
    ensures Fold(Fold(e, None), symbols) == Fold(e, symbols)
    ensures Fold(Fold(e, symbols), symbols) == Fold(e, symbols)
  {
    FoldAgain(e, None, symbols);
    FoldAgain(e, symbols, symbols);
  }

  lemma UnaryNodeFolds(op: UnaryOp, f: Expr, symbols: Symbols)
    ensures Fold(UnaryNode(op, f), symbols) == UnaryNode(op, Fold(f, symbols))
  {
    hide FoldUnary, Extended, Resolves;
  }

  lemma BinaryNodeFolds(op: BinaryOp, l: Expr, r: Expr, symbols: Symbols)
    ensures Fold(BinaryNode(op, l, r), symbols) == BinaryNode(op, Fold(l, symbols), Fold(r, symbols))
  {
    hide FoldBinary, Extended, Resolves;
  }

  /** Folding with more symbols absorbs an earlier fold with fewer. */
  lemma {:induction false} FoldAgain(e: Expr, fewer: Symbols, symbols: Symbols)
    requires fewer.None? || fewer == symbols
    ensures Fold(Fold(e, fewer), symbols) == Fold(e, symbols)
  {
    hide UnaryNode, BinaryNode, Extended;
    match e {
      case Unary(op, a) =>
        FoldAgain(a, fewer, symbols);
        UnaryNodeFolds(op, Fold(a, fewer), symbols);
      case Binary(op, l, r) =>
        FoldAgain(l, fewer, symbols);
        FoldAgain(r, fewer, symbols);
        BinaryNodeFolds(op, Fold(l, fewer), Fold(r, fewer), symbols);
      case _ =>
    }
  }

  // ---- What is left after folding ------------------------------------------

  lemma {:induction false} FirstOfSymbols(e: Expr)
    ensures FirstSymbol(e) == if SymbolsOf(e) == [] then None else Some(SymbolsOf(e)[0])
  {
    match e {
      case Unary(_, a) => FirstOfSymbols(a);
      case Binary(_, l, r) =>
        FirstOfSymbols(l);
        FirstOfSymbols(r);
      case _ =>
    }
  }

  /** Those names of `names` the table does not know, in order. */
  function Unknown(names: seq<string>, symbols: Symbols): seq<string>
  {
    if names == [] then []
    else (if Resolves(names[0], symbols) then [] else [names[0]]) + Unknown(names[1..], symbols)
  }

  lemma {:induction false} UnknownSplits(xs: seq<string>, ys: seq<string>, symbols: Symbols)
    ensures Unknown(xs + ys, symbols) == Unknown(xs, symbols) + Unknown(ys, symbols)
  {
    hide Resolves;
    if xs == [] {
      assert xs + ys == ys;
    } else {
      assert (xs + ys)[1..] == xs[1..] + ys;
      UnknownSplits(xs[1..], ys, symbols);
    }
  }

  /** Folding removes exactly the names that resolve and keeps the rest in order. */
  lemma {:induction false} FoldKeepsUnknownNames(e: Expr, symbols: Symbols)
    ensures SymbolsOf(Fold(e, symbols)) == Unknown(SymbolsOf(e), symbols)
  {
    hide FoldUnary, FoldBinary, Extended;
    match e {
      case Unary(_, a) => FoldKeepsUnknownNames(a, symbols);
      case Binary(_, l, r) =>
        FoldKeepsUnknownNames(l, symbols);
        FoldKeepsUnknownNames(r, symbols);
        UnknownSplits(SymbolsOf(l), SymbolsOf(r), symbols);
      case Symbol(n) => assert [n][1..] == [];
      case _ =>
    }
  }

  lemma {:induction false} UnknownMembers(names: seq<string>, symbols: Symbols)
    ensures forall n :: n in Unknown(names, symbols) <==> n in names && !Resolves(n, symbols)
  {
    if names != [] {
      UnknownMembers(names[1..], symbols);
      assert names == [names[0]] + names[1..];
    }
  }

  /** Without symbols in it a tree does not depend on the table. */
  lemma {:induction false} NoSymbolsNoTable(e: Expr, core: Core, s: Symbols, t: Symbols)
    requires SymbolsOf(e) == []
    ensures Eval(e, core, s) == Eval(e, core, t)
  {
    hide EvalUnary, EvalBinary;
    match e {
      case Unary(_, a) => NoSymbolsNoTable(a, core, s, t);
      case Binary(_, l, r) =>
        NoSymbolsNoTable(l, core, s, t);
        NoSymbolsNoTable(r, core, s, t);
      case _ =>
    }
  }

  /** A tree with a name the table does not know evaluates on no core. */
  lemma {:induction false} UnknownNameNeverEvaluates(e: Expr, core: Core, symbols: Symbols)
    requires !AllResolve(e, symbols)
    ensures Eval(e, core, symbols).Err?
  {
    hide EvalUnary, EvalBinary, Extended;
    match e {
      case Unary(_, a) => UnknownNameNeverEvaluates(a, core, symbols);
      case Binary(_, l, r) =>
        if !AllResolve(l, symbols) {
          UnknownNameNeverEvaluates(l, core, symbols);
        } else {
          UnknownNameNeverEvaluates(r, core, symbols);
        }
      case _ =>
    }
  }

  // ---- Checked conditions --------------------------------------------------

  datatype CheckError = UnknownName(why: string) | CannotResolve(name: string) | NoSymbolsLoaded(name: string)

  datatype Checked = Accepted(e: Expr) | Refused(error: CheckError)

  /** The report on a name the table does not know. */
  function Report(name: string, symbols: Symbols): CheckError
  {
    if symbols.None? then NoSymbolsLoaded(name)
    else if symbols.value(name).NotFound? then UnknownName(symbols.value(name).why)
    else CannotResolve(name)
  }

  /** The fold-and-refuse half of `parse_and_fold_checked`, on the parsed tree. */
  function FoldChecked(e: Expr, symbols: Symbols): Checked
  {
    var f := Fold(e, symbols);
    match FirstSymbol(f)
    case None => Accepted(f)
    case Some(name) => Refused(Report(name, symbols))
  }

  /**
   * A condition is accepted exactly when every name in it resolves.  Accepted,
   * it means the same under every later symbol table as the original does now;
   * refused, it could not have evaluated on any core, and the report names its
   * first unknown name (the "cannot resolve" report is never the one made).
   */
  lemma CheckedConditionIsSound(e: Expr, symbols: Symbols, core: Core, later: Symbols)
    ensures FoldChecked(e, symbols).Accepted? <==> AllResolve(e, symbols)
    ensures FoldChecked(e, symbols).Accepted? ==>
              Eval(FoldChecked(e, symbols).e, core, later) == Eval(e, core, symbols)
    ensures FoldChecked(e, symbols).Refused? ==>
              && Eval(e, core, symbols).Err?
              && Unknown(SymbolsOf(e), symbols) != []
              && !FoldChecked(e, symbols).error.CannotResolve?
              && (var first := Unknown(SymbolsOf(e), symbols)[0];
                  if symbols.None? then FoldChecked(e, symbols).error == NoSymbolsLoaded(first)
                  else symbols.value(first).NotFound? &&
                       FoldChecked(e, symbols).error == UnknownName(symbols.value(first).why))
  {
    hide Eval, Fold, EvalSymbol;
    var f := Fold(e, symbols);
    FirstOfSymbols(f);
    FoldKeepsUnknownNames(e, symbols);
    UnknownMembers(SymbolsOf(e), symbols);
    if FirstSymbol(f).None? {
      FoldPreservesEval(e, core, symbols);
      NoSymbolsNoTable(f, core, symbols, later);
      forall n | n in SymbolsOf(e) ensures Resolves(n, symbols) {
        assert n !in Unknown(SymbolsOf(e), symbols);
      }
    } else {
      var name := SymbolsOf(f)[0];
      assert name in Unknown(SymbolsOf(e), symbols);
      UnknownNameNeverEvaluates(e, core, symbols);
    }
  }

  // ---- Constant expressions ------------------------------------------------

  lemma {:induction false} LiteralFoldIsClosed(e: Expr)
    requires Fold(e, None).Literal?
    ensures Closed(e)
  {
    hide FoldUnary, FoldBinary;
    match e {
      case Unary(_, a) => LiteralFoldIsClosed(a);
      case Binary(_, l, r) =>
        LiteralFoldIsClosed(l);
        LiteralFoldIsClosed(r);
      case _ =>
    }
  }

  lemma {:induction false} ClosedOkFoldsToLiteral(e: Expr, core: Core)
    requires Closed(e) && Eval(e, core, None).Ok?
    ensures Fold(e, None) == Literal(Eval(e, core, None).v)
  {
    hide EvalUnary, EvalBinary, FoldUnary, FoldBinary;
    match e {
      case Unary(op, a) =>
        ClosedOkFoldsToLiteral(a, core);
        TablesAgree(op, Add, Eval(a, core, None).v, 0);
      case Binary(op, l, r) =>
        ClosedOkFoldsToLiteral(l, core);
        ClosedOkFoldsToLiteral(r, core);
        TablesAgree(Neg, op, Eval(l, core, None).v, Eval(r, core, None).v);
      case _ =>
    }
  }

  /** `eval_const_expr` on the parsed tree: a value only if folding leaves a literal. */
  function ConstValue(e: Expr): Option<u64>
  {
    match Fold(e, None)
    case Literal(v) => Some(v)
    case _ => None
  }

  /** It yields a value exactly for closed trees that evaluate without error, and that value. */
  lemma ConstValueExactly(e: Expr, core: Core)
    ensures ConstValue(e).Some? <==> Closed(e) && Eval(e, core, None).Ok?
    ensures ConstValue(e).Some? ==> Eval(e, core, None) == Ok(ConstValue(e).value)
  {
    FoldPreservesEval(e, core, None);
    if ConstValue(e).Some? {
      LiteralFoldIsClosed(e);
    }
    if Closed(e) && Eval(e, core, None).Ok? {
      ClosedOkFoldsToLiteral(e, core);
    }
  }
}
