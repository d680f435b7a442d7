/**
 * Trees of `+ - *` over variables of one kind and literals of any size: when the emitted
 * code compiles, and that it then computes the exact value of the tree modulo 2^64.
 */
module Wrapping {
  import opened Ast
  import opened Numeric
  import opened RustSyntax
  import opened RustSemantics
  import opened Emitter

  /** `+ - *` over names of kind `k` and literals. */
  predicate OneKind(e: Expr, k: Kind, v: Vars) {
    match e
    case Ident(_) => MachineKind(e, v) == Some(k)
    case IntLit(_) => true
    case Binary(op, l, r) => op.CanWrap() && OneKind(l, k, v) && OneKind(r, k, v)
    case _ => false
  }

  predicate HasName(e: Expr) {
    match e
    case Ident(_) => true
    case Binary(_, l, r) => HasName(l) || HasName(r)
    case _ => false
  }

  /** A literal argument is written unsuffixed up to `i32::MAX` and as `_i64` up to `i64::MAX`. */
  predicate ArgumentFits(n: nat, k: Kind) {
    n <= Max(I32) || (k.IntKind? && n <= Max(I64))
  }

  /**
   * Every operand is a literal or mentions a name, never a sum of literals only; a literal
   * that ends up as an argument fits unsuffixed or as `i64`, and one that stays the
   * receiver of a subtraction fits the kind.
   */
  predicate LiteralsFit(e: Expr, k: Kind) {
    e.Binary? ==>
      && HasName(e)
      && (HasName(e.lhs) || e.lhs.IntLit?) && LiteralsFit(e.lhs, k)
      && (HasName(e.rhs) || e.rhs.IntLit?) && LiteralsFit(e.rhs, k)
      && (e.rhs.IntLit? ==> ArgumentFits(e.rhs.n, k))
      && (e.lhs.IntLit? ==> if e.op.Commutes() then ArgumentFits(e.lhs.n, k) else InRange(KindType(k), e.lhs.n))
  }

  /** The value of the tree in unbounded integers. */
  function Exact(e: Expr, v: Vars, s: Store): int {
    match e
    case Ident(x) =>
      var name := RustName(x, v.renameResult);
      if name in s then AsInt(s[name]) else 0
    case IntLit(n) => n
    case Binary(op, l, r) => if op.CanWrap() then ArithOp(op, Exact(l, v, s), Exact(r, v, s)) else 0
    case _ => 0
  }

  /** Every name of the tree is declared with the machine type of the kind. */
  predicate NamesTyped(e: Expr, k: Kind, v: Vars, env: TyEnv) {
    match e
    case Ident(x) => RustName(x, v.renameResult) in env && env[RustName(x, v.renameResult)] == KindType(k)
    case Binary(_, l, r) => NamesTyped(l, k, v, env) && NamesTyped(r, k, v, env)
    case _ => true
  }

  ghost predicate Tree64(e: Expr, k: Kind, v: Vars, env: TyEnv) {
    k != LitKind && v.floats == {} && OneKind(e, k, v) && NamesTyped(e, k, v, env)
  }

  lemma {:induction false} TreeKind(e: Expr, k: Kind, v: Vars)
    requires k != LitKind && v.floats == {} && OneKind(e, k, v)
    ensures MachineKind(e, v) == Some(if HasName(e) then k else LitKind)
    ensures IsNumeric(e) && !HasFloat(e, {})
    ensures HasName(e) && LiteralsFit(e, k) ==> !HasU128Literal(e)
  {
    if e.Binary? {
      TreeKind(e.lhs, k, v);
      TreeKind(e.rhs, k, v);
    }
  }

  /** What the emitted code's type can be. */
  ghost predicate TreeType(e: Expr, k: Kind, t: Option<Ty>) {
    && (t == Some(U128) ==> HasU128Literal(e))
    && if HasName(e) then
      && (t == None || t == Some(KindType(k)) || t == Some(U128))
      && (t == Some(KindType(k)) <==> LiteralsFit(e, k))
    else if e.IntLit? then t == NumType(e.n, LitSuffix(e.n))
    else t == None || t == Some(I128) || t == Some(U128)
  }

  lemma {:induction false} TreeTypes(e: Expr, k: Kind, v: Vars, env: TyEnv)
    requires Tree64(e, k, v, env)
    ensures TreeType(e, k, TypeOf(Intended(e, v), env))
    decreases e
  {
    TreeKind(e, k, v);
    if e.Binary? {
      TreeTypes(e.lhs, k, v, env);
      TreeTypes(e.rhs, k, v, env);
      TreeKind(e.lhs, k, v);
      TreeKind(e.rhs, k, v);
      BinaryTreeTypes(e.op, e.lhs, e.rhs, k, v, env);
    }
  }

  lemma BinaryTreeTypes(op: BinOp, l: Expr, r: Expr, k: Kind, v: Vars, env: TyEnv)
    requires Tree64(Binary(op, l, r), k, v, env)
    requires TreeType(l, k, TypeOf(Intended(l, v), env)) && TreeType(r, k, TypeOf(Intended(r, v), env))
    ensures TreeType(Binary(op, l, r), k, TypeOf(Intended(Binary(op, l, r), v), env))
  {
    hide Text, HasFloat, MachineKind, TreeType;
    var e := Binary(op, l, r);
    TreeForm(op, l, r, k, v);
    match FormOf(op, l, r, v)
    case U128Form => assert TreeType(e, k, TypeOf(Intended(e, v), env)) by { U128Types(op, l, r, k, v, env); }
    case WidenForm => assert TreeType(e, k, TypeOf(Intended(e, v), env)) by { WidenTypes(op, l, r, k, v, env); }
    case WrapForm(_) =>
      if Swaps(op, l, r) { WrapTypes(op, r, l, k, v, env); } else { WrapTypes(op, l, r, k, v, env); }
      assert TreeType(e, k, TypeOf(Intended(e, v), env)) by { WrapFits(op, l, r, k, v, env); }
  }

  lemma TreeForm(op: BinOp, l: Expr, r: Expr, k: Kind, v: Vars)
    requires k != LitKind && v.floats == {} && OneKind(Binary(op, l, r), k, v)
    ensures FormOf(op, l, r, v) ==
      if HasU128Literal(Binary(op, l, r)) then U128Form else if HasName(Binary(op, l, r)) then WrapForm(k) else WidenForm
  {
    TreeKind(l, k, v);
    TreeKind(r, k, v);
  }

  lemma U128Types(op: BinOp, l: Expr, r: Expr, k: Kind, v: Vars, env: TyEnv)
    requires Tree64(Binary(op, l, r), k, v, env) && HasU128Literal(Binary(op, l, r)) && FormOf(op, l, r, v).U128Form?
    ensures TreeType(Binary(op, l, r), k, TypeOf(Intended(Binary(op, l, r), v), env))
  {
    hide Text, FormOf, MachineKind, LiteralsFit;
    TreeKind(Binary(op, l, r), k, v);
  }

  lemma WidenTypes(op: BinOp, l: Expr, r: Expr, k: Kind, v: Vars, env: TyEnv)
    requires Tree64(Binary(op, l, r), k, v, env) && !HasName(Binary(op, l, r)) && FormOf(op, l, r, v).WidenForm?
    ensures TreeType(Binary(op, l, r), k, TypeOf(Intended(Binary(op, l, r), v), env))
  {
    hide Text, FormOf, MachineKind, LiteralsFit;
  }

  /** The receiver is a literal of the kind's range, or a typed tree; the argument joins it. */
  predicate OperandsFit(recv: Expr, arg: Expr, k: Kind) {
    && (if recv.IntLit? then InRange(KindType(k), recv.n) else HasName(recv) && LiteralsFit(recv, k))
    && (if arg.IntLit? then ArgumentFits(arg.n, k) else HasName(arg) && LiteralsFit(arg, k))
  }

  lemma WrapTypes(op: BinOp, recv: Expr, arg: Expr, k: Kind, v: Vars, env: TyEnv)
    requires op.CanWrap() && k != LitKind && (HasName(recv) || HasName(arg))
    requires OneKind(recv, k, v) && OneKind(arg, k, v) && !HasU128Literal(recv) && !HasU128Literal(arg)
    requires TreeType(recv, k, TypeOf(Intended(recv, v), env)) && TreeType(arg, k, TypeOf(Intended(arg, v), env))
    ensures TypeOf(RMethod1(ReceiverTree(recv, k, v), WrapMethodName(op), Intended(arg, v)), env)
         == if OperandsFit(recv, arg, k) then Some(KindType(k)) else None
  {
    hide Text, MachineKind, HasU128Literal, Intended, LiteralsFit, TypeOf;
    var r := TypeOf(ReceiverTree(recv, k, v), env);
    ReceiverLiteralType(recv, k, v, env);
    MethodType(op, ReceiverTree(recv, k, v), Intended(arg, v), env);
  }

  lemma ReceiverLiteralType(recv: Expr, k: Kind, v: Vars, env: TyEnv)
    requires OneKind(recv, k, v)
    ensures TypeOf(ReceiverTree(recv, k, v), env)
         == if recv.IntLit? then NumType(recv.n, Some(KindType(k))) else TypeOf(Intended(recv, v), env)
  {
  }

  lemma MethodType(op: BinOp, recv: Tree, arg: Tree, env: TyEnv)
    requires op.CanWrap()
    ensures WrapMethod(WrapMethodName(op)) == Some(op)
    ensures TypeOf(RMethod1(recv, WrapMethodName(op), arg), env)
         == WrapType(WrapMethodName(op), TypeOf(recv, env), TypeOf(arg, env))
  {
  }

  lemma WrapFits(op: BinOp, l: Expr, r: Expr, k: Kind, v: Vars, env: TyEnv)
    requires OneKind(Binary(op, l, r), k, v) && HasName(Binary(op, l, r)) && FormOf(op, l, r, v) == WrapForm(k)
    requires !HasU128Literal(Binary(op, l, r))
    requires TypeOf(Intended(Binary(op, l, r), v), env)
          == if (if Swaps(op, l, r) then OperandsFit(r, l, k) else OperandsFit(l, r, k)) then Some(KindType(k)) else None
    ensures TreeType(Binary(op, l, r), k, TypeOf(Intended(Binary(op, l, r), v), env))
  {
    hide Text, FormOf, MachineKind, TypeOf, Intended, HasU128Literal;
    assert OneKind(l, k, v) && OneKind(r, k, v);
    assert IsBareLiteral(l) == l.IntLit? && IsBareLiteral(r) == r.IntLit?;
    var e := Binary(op, l, r);
    assert LiteralsFit(e, k) == (if Swaps(op, l, r) then OperandsFit(r, l, k) else OperandsFit(l, r, k));
    assert KindType(k) != U128;
  }

  // ----- Main results -----

  /**
   * The emitted code for a one-kind tree over at least one name has the kind's machine
   * type exactly when its literals fit.
   */
  lemma CompilesIff(e: Expr, k: Kind, v: Vars, env: TyEnv)
    requires Tree64(e, k, v, env) && HasName(e)
    ensures TypeOf(Intended(e, v), env) == Some(KindType(k)) <==> LiteralsFit(e, k)
  {
    TreeTypes(e, k, v, env);
  }

  /** When it compiles, it computes the exact value of the tree wrapped to the kind's range. */
  lemma {:induction false} ComputesModulo(e: Expr, k: Kind, v: Vars, env: TyEnv, s: Store)
    requires Tree64(e, k, v, env) && HasName(e) && LiteralsFit(e, k) && StoreTyped(s, env)
    ensures Eval(Intended(e, v), env, s) == Val(IntV(Wrap(KindType(k), Exact(e, v, s))))
    decreases e
  {
    hide Text, Wrap, MachineKind, HasU128Literal, Eval, TypeOf, Intended;
    if e.Ident? {
      NameComputes(e.name, k, v, env, s);
    } else {
      var l, r := e.lhs, e.rhs;
      if HasName(l) { ComputesModulo(l, k, v, env, s); }
      if HasName(r) { ComputesModulo(r, k, v, env, s); }
      TreeForm(e.op, l, r, k, v);
      TreeKind(e, k, v);
      CompilesIff(e, k, v, env);
      SumComputes(e.op, l, r, k, v, env, s);
    }
  }

  lemma NameComputes(x: string, k: Kind, v: Vars, env: TyEnv, s: Store)
    requires k != LitKind && NamesTyped(Ident(x), k, v, env) && StoreTyped(s, env)
    ensures Eval(Intended(Ident(x), v), env, s) == Val(IntV(Wrap(KindType(k), Exact(Ident(x), v, s))))
  {
    hide Wrap;
    WrapInRange(KindType(k), s[RustName(x, v.renameResult)].i);
  }

  ghost predicate IsModulo(e: Expr, k: Kind, v: Vars, env: TyEnv, s: Store) {
    Eval(Intended(e, v), env, s) == Val(IntV(Wrap(KindType(k), Exact(e, v, s))))
  }

  lemma SumComputes(op: BinOp, l: Expr, r: Expr, k: Kind, v: Vars, env: TyEnv, s: Store)
    requires op.CanWrap() && k != LitKind && FormOf(op, l, r, v) == WrapForm(k) && LiteralsFit(Binary(op, l, r), k)
    requires OneKind(l, k, v) && OneKind(r, k, v)
    requires TypeOf(Intended(Binary(op, l, r), v), env) == Some(KindType(k))
    requires (HasName(l) ==> IsModulo(l, k, v, env, s)) && (HasName(r) ==> IsModulo(r, k, v, env, s))
    ensures IsModulo(Binary(op, l, r), k, v, env, s)
  {
    hide Text, Wrap, MachineKind, FormOf, Eval, TypeOf;
    if Swaps(op, l, r) { MethodComputes(op, r, l, k, v, env, s); } else { MethodComputes(op, l, r, k, v, env, s); }
    if op.Commutes() { ArithCommutes(op, Exact(l, v, s), Exact(r, v, s)); }
  }

  lemma ArithCommutes(op: BinOp, a: int, b: int)
    requires op.Commutes()
    ensures ArithOp(op, a, b) == ArithOp(op, b, a)
  {
  }

  lemma MethodComputes(op: BinOp, recv: Expr, arg: Expr, k: Kind, v: Vars, env: TyEnv, s: Store)
    requires op.CanWrap() && k != LitKind && OneKind(recv, k, v) && OneKind(arg, k, v)
    requires recv.IntLit? ==> InRange(KindType(k), recv.n)
    requires arg.IntLit? ==> ArgumentFits(arg.n, k)
    requires recv.IntLit? || IsModulo(recv, k, v, env, s)
    requires arg.IntLit? || IsModulo(arg, k, v, env, s)
    requires TypeOf(RMethod1(ReceiverTree(recv, k, v), WrapMethodName(op), Intended(arg, v)), env) == Some(KindType(k))
    ensures Eval(RMethod1(ReceiverTree(recv, k, v), WrapMethodName(op), Intended(arg, v)), env, s)
         == Val(IntV(Wrap(KindType(k), ArithOp(op, Exact(recv, v, s), Exact(arg, v, s)))))
  {
    hide Text, Wrap, Intended, TypeOf, Eval;
    MethodEval(op, ReceiverTree(recv, k, v), Intended(arg, v), k, env, s);
    ReceiverModulo(recv, k, v, env, s);
    ArgumentModulo(arg, k, v, env, s);
    WrapArith(op, KindType(k), Exact(recv, v, s), Exact(arg, v, s));
  }

  lemma MethodEval(op: BinOp, recv: Tree, arg: Tree, k: Kind, env: TyEnv, s: Store)
    requires op.CanWrap()
    requires TypeOf(RMethod1(recv, WrapMethodName(op), arg), env) == Some(KindType(k))
    ensures TypeOf(recv, env) == Some(KindType(k)) && TypeOf(arg, env).Some?
    ensures WrapMethod(WrapMethodName(op)) == Some(op)
    ensures Eval(RMethod1(recv, WrapMethodName(op), arg), env, s)
         == EvalWrap(WrapMethodName(op), KindType(k), Eval(recv, env, s), Eval(arg, env, s))
  {
    hide Wrap;
  }

  lemma ReceiverModulo(recv: Expr, k: Kind, v: Vars, env: TyEnv, s: Store)
    requires OneKind(recv, k, v) && (recv.IntLit? ==> InRange(KindType(k), recv.n))
    requires recv.IntLit? || IsModulo(recv, k, v, env, s)
    requires TypeOf(ReceiverTree(recv, k, v), env) == Some(KindType(k))
    ensures Eval(ReceiverTree(recv, k, v), env, s) == Val(IntV(Wrap(KindType(k), Exact(recv, v, s))))
  {
    hide Wrap, Text;
    if recv.IntLit? { WrapInRange(KindType(k), recv.n); }
  }

  lemma ArgumentModulo(arg: Expr, k: Kind, v: Vars, env: TyEnv, s: Store)
    requires OneKind(arg, k, v) && (arg.IntLit? ==> ArgumentFits(arg.n, k))
    requires arg.IntLit? || IsModulo(arg, k, v, env, s)
    requires TypeOf(Intended(arg, v), env).Some?
    ensures Eval(Intended(arg, v), env, s) == Val(IntV(Wrap(KindType(k), Exact(arg, v, s))))
  {
    hide Wrap, Text;
    if arg.IntLit? { WrapInRange(KindType(k), arg.n); }
  }

  lemma WrapArith(op: BinOp, t: Ty, a: int, b: int)
    requires op.CanWrap()
    ensures Wrap(t, ArithOp(op, Wrap(t, a), Wrap(t, b))) == Wrap(t, ArithOp(op, a, b))
  {
    hide Wrap;
    match op
    case Add => WrapAdd(t, a, b);
    case Sub => WrapSub(t, a, b);
    case Mul => WrapMul(t, a, b);
  }
}
