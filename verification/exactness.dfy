/**
 * When widening to `i128` is exact: a bound on the size of an expression, read off the
 * source, below which no emitted operation can overflow.
 */
module Exactness {
  import opened Ast
  import opened Numeric
  import opened RustSemantics
  import opened Emitter
  import opened Sources
  import opened Soundness
  import opened Meanings
  import opened Branches

  /** Value in unbounded integers, except that same-kind sums wrap at 64 bits as documented. */
  function Ideal(e: Expr, renameResult: bool, env: TyEnv, s: Store): int {
    match e
    case Ident(x) =>
      var name := RustName(x, renameResult);
      if name in s then AsInt(s[name]) else 0
    case IntLit(n) => n
    case Unary(_, inner) => -Ideal(inner, renameResult, env, s)
    case Binary(op, l, r) =>
      var a, b := Ideal(l, renameResult, env, s), Ideal(r, renameResult, env, s);
      var t := SourceType(e, renameResult, env);
      if op.CanWrap() then
        if t.Some? && Is64(t.value) then Wrap(t.value, ArithOp(op, a, b)) else ArithOp(op, a, b)
      else if b == 0 then 0
      else if op.Div? then TruncDiv(a, b)
      else TruncMod(a, b)
    case _ => 0
  }

  /** No divisor is zero and no 64-bit minimum is negated. */
  predicate Defined(e: Expr, renameResult: bool, env: TyEnv, s: Store) {
    match e
    case Unary(_, inner) =>
      && Defined(inner, renameResult, env, s)
      && (SourceType(inner, renameResult, env) == Some(I64) ==> Ideal(inner, renameResult, env, s) != Min(I64))
    case Binary(op, l, r) =>
      && Defined(l, renameResult, env, s) && Defined(r, renameResult, env, s)
      && (op.Div? || op.Mod? ==> Ideal(r, renameResult, env, s) != 0)
    case _ => true
  }

  /** The largest absolute value of a 64-bit type. */
  function TypeSize(t: Ty): nat {
    if t.I64? then TWO_63 else TWO_64 - 1
  }

  /** A bound on the absolute value of `e`, from types and literals alone. */
  function Size(e: Expr, renameResult: bool, env: TyEnv): nat {
    match e
    case Ident(x) =>
      var t := SourceType(e, renameResult, env);
      if t.Some? then TypeSize(t.value) else 0
    case IntLit(n) => n
    case Unary(_, inner) => Size(inner, renameResult, env)
    case Binary(op, l, r) =>
      var t := SourceType(e, renameResult, env);
      if t.Some? && Is64(t.value) then TypeSize(t.value)
      else if op.Mul? then Size(l, renameResult, env) * Size(r, renameResult, env)
      else if op.Add? || op.Sub? then Size(l, renameResult, env) + Size(r, renameResult, env)
      else Size(l, renameResult, env)
    case _ => 0
  }

  /** Every widened node of `e` has a size that `i128` can hold. */
  predicate FitsI128(e: Expr, renameResult: bool, env: TyEnv) {
    match e
    case Unary(_, inner) => FitsI128(inner, renameResult, env)
    case Binary(_, l, r) => FitsI128(l, renameResult, env) && FitsI128(r, renameResult, env) && Size(e, renameResult, env) <= Max(I128)
    case _ => true
  }

  ghost predicate InFragment(e: Expr, v: Vars, env: TyEnv, s: Store) {
    && Arithmetic(e) && DeclaredNames(e, v, env)
    && SourceType(e, v.renameResult, env).Some? && StoreTyped(s, env)
  }

  lemma ProductSize(a: int, b: int, m: nat, n: nat)
    requires Abs(a) <= m && Abs(b) <= n
    ensures Abs(a * b) <= m * n
  {
    assert Abs(a * b) == Abs(a) * Abs(b) by { SignedProduct(a, b); SignedProduct(b, Abs(a)); }
    assert Abs(a) * Abs(b) <= m * Abs(b) <= m * n;
  }

  lemma {:induction false} SizeBounds(e: Expr, v: Vars, env: TyEnv, s: Store)
    requires InFragment(e, v, env, s)
    ensures Abs(Ideal(e, v.renameResult, env, s)) <= Size(e, v.renameResult, env)
  {
    hide Wrap, SourceType, TruncDiv, TruncMod, Contains, OperatorType;
    match e
    case Ident(x) => NameSize(x, v, env, s);
    case IntLit(_) =>
    case Unary(_, inner) =>
      OperandInFragment(e, inner, v, env, s);
      SizeBounds(inner, v, env, s);
    case Binary(op, l, r) =>
      OperandInFragment(e, l, v, env, s);
      OperandInFragment(e, r, v, env, s);
      SizeBounds(l, v, env, s);
      SizeBounds(r, v, env, s);
      OperationSize(op, l, r, v, env, s);
  }

  lemma NameSize(x: string, v: Vars, env: TyEnv, s: Store)
    requires InFragment(Ident(x), v, env, s)
    ensures Abs(Ideal(Ident(x), v.renameResult, env, s)) <= Size(Ident(x), v.renameResult, env)
  {
  }

  lemma OperandInFragment(e: Expr, o: Expr, v: Vars, env: TyEnv, s: Store)
    requires InFragment(e, v, env, s)
    requires match e case Unary(_, inner) => o == inner case Binary(_, l, r) => o == l || o == r case _ => false
    ensures InFragment(o, v, env, s)
  {
  }

  lemma OperationSize(op: BinOp, l: Expr, r: Expr, v: Vars, env: TyEnv, s: Store)
    requires op.IsArithmetic()
    requires Abs(Ideal(l, v.renameResult, env, s)) <= Size(l, v.renameResult, env) && Abs(Ideal(r, v.renameResult, env, s)) <= Size(r, v.renameResult, env)
    ensures Abs(Ideal(Binary(op, l, r), v.renameResult, env, s)) <= Size(Binary(op, l, r), v.renameResult, env)
  {
    hide SourceType, TruncDiv, TruncMod, Wrap, Size, Ideal, TypeSize;
    var a, b := Ideal(l, v.renameResult, env, s), Ideal(r, v.renameResult, env, s);
    var m, n := Size(l, v.renameResult, env), Size(r, v.renameResult, env);
    var w := SourceType(Binary(op, l, r), v.renameResult, env);
    IdealStep(op, l, r, v, env, s);
    if w.Some? && Is64(w.value) && op.CanWrap() {
      WrapSize(w.value, ArithOp(op, a, b));
    } else if op.Mul? {
      ProductSize(a, b, m, n);
    } else if b != 0 {
      TruncDivSize(a, b);
      TruncModSize(a, b);
    }
  }

  lemma WrapSize(t: Ty, i: int)
    requires Is64(t)
    ensures Abs(Wrap(t, i)) <= TypeSize(t)
  {
  }

  /** One step of `Ideal` and `Size`. */
  lemma IdealStep(op: BinOp, l: Expr, r: Expr, v: Vars, env: TyEnv, s: Store)
    requires op.IsArithmetic()
    ensures var a, b := Ideal(l, v.renameResult, env, s), Ideal(r, v.renameResult, env, s);
      var w := SourceType(Binary(op, l, r), v.renameResult, env);
      Ideal(Binary(op, l, r), v.renameResult, env, s) ==
        if op.CanWrap() then (if w.Some? && Is64(w.value) then Wrap(w.value, ArithOp(op, a, b)) else ArithOp(op, a, b))
        else if b == 0 then 0 else if op.Div? then TruncDiv(a, b) else TruncMod(a, b)
    ensures var m, n := Size(l, v.renameResult, env), Size(r, v.renameResult, env);
      var w := SourceType(Binary(op, l, r), v.renameResult, env);
      Size(Binary(op, l, r), v.renameResult, env) ==
        if w.Some? && Is64(w.value) then TypeSize(w.value)
        else if op.Mul? then m * n else if op.Add? || op.Sub? then m + n else m
    ensures var w := SourceType(Binary(op, l, r), v.renameResult, env); w.Some? ==> w.value.I128? || (Is64(w.value) && op.CanWrap())
  {
    hide Wrap, TruncDiv, TruncMod, TypeSize, SourceType, ArithOp;
    ArithmeticType(op, l, r, v.renameResult, env);
  }

  lemma ArithmeticType(op: BinOp, l: Expr, r: Expr, renameResult: bool, env: TyEnv)
    requires op.IsArithmetic()
    ensures var w := SourceType(Binary(op, l, r), renameResult, env); w.Some? ==> w.value.I128? || (Is64(w.value) && op.CanWrap())
  {
    hide OperatorType;
    if SourceType(Binary(op, l, r), renameResult, env).Some? {
      OperatorTypeIs(op, SourceType(l, renameResult, env).value, SourceType(r, renameResult, env).value);
    }
  }

  /** Below the bound, the meaning of the source and the emitted code are the ideal value. */
  lemma WideningIsExact(e: Expr, v: Vars, env: TyEnv, hidden: set<string>, names: set<string>, s: Store)
    requires InFragment(e, v, env, s) && Compilable(e, v, env, hidden, names)
    requires FitsI128(e, v.renameResult, env) && Defined(e, v.renameResult, env, s)
    ensures Meaning(e, v.renameResult, env, s) == Val(IntV(Ideal(e, v.renameResult, env, s)))
    ensures Eval(Intended(e, v), env, s) == Val(IntV(Ideal(e, v.renameResult, env, s)))
  {
    hide Supported, Recorded, Arithmetic, DeclaredNames, FitsI128, Defined, Ideal, Meaning, Eval, Intended, TypeOf;
    ExactMeaning(e, v, env, s);
    EmittedComputesMeaning(e, v, env, hidden, names, s);
  }

  lemma {:induction false} ExactMeaning(e: Expr, v: Vars, env: TyEnv, s: Store)
    requires InFragment(e, v, env, s) && FitsI128(e, v.renameResult, env) && Defined(e, v.renameResult, env, s)
    ensures Meaning(e, v.renameResult, env, s) == Val(IntV(Ideal(e, v.renameResult, env, s)))
  {
    hide Wrap, SourceType, TruncDiv, TruncMod, Contains, Meaning, Size;
    match e
    case Ident(_) | IntLit(_) => LeafExact(e, v, env, s);
    case Unary(_, inner) =>
      OperandInFragment(e, inner, v, env, s);
      ExactMeaning(inner, v, env, s);
      NegationExact(inner, v, env, s);
    case Binary(op, l, r) =>
      OperandInFragment(e, l, v, env, s);
      OperandInFragment(e, r, v, env, s);
      ExactMeaning(l, v, env, s);
      ExactMeaning(r, v, env, s);
      SizeBounds(l, v, env, s);
      SizeBounds(r, v, env, s);
      SizeBounds(e, v, env, s);
      DividendFits(op, l, r, v, env);
      OperationExact(op, l, r, v, env, s);
  }

  lemma LeafExact(e: Expr, v: Vars, env: TyEnv, s: Store)
    requires InFragment(e, v, env, s) && (e.Ident? || e.IntLit?)
    ensures Meaning(e, v.renameResult, env, s) == Val(IntV(Ideal(e, v.renameResult, env, s)))
  {
  }

  lemma NegationExact(inner: Expr, v: Vars, env: TyEnv, s: Store)
    requires InFragment(Unary(Neg, inner), v, env, s) && Defined(Unary(Neg, inner), v.renameResult, env, s)
    requires FitsI128(inner, v.renameResult, env) && Meaning(inner, v.renameResult, env, s) == Val(IntV(Ideal(inner, v.renameResult, env, s)))
    ensures Meaning(Unary(Neg, inner), v.renameResult, env, s) == Val(IntV(Ideal(Unary(Neg, inner), v.renameResult, env, s)))
  {
    hide Wrap, TruncDiv, TruncMod, Contains, SourceType, Meaning, Ideal, Size;
    OperandInFragment(Unary(Neg, inner), inner, v, env, s);
    MeaningIsTyped(inner, v.renameResult, env, s);
    SizeBounds(inner, v, env, s);
    if SourceType(inner, v.renameResult, env) == Some(I128) { WideSizeFits(inner, v, env); }
    NegationStep(inner, v, env, s);
  }

  lemma NegationStep(inner: Expr, v: Vars, env: TyEnv, s: Store)
    requires SourceType(Unary(Neg, inner), v.renameResult, env).Some? && DeclaredNames(inner, v, env) && Arithmetic(inner)
    requires var i := Ideal(inner, v.renameResult, env, s);
      && Meaning(inner, v.renameResult, env, s) == Val(IntV(i)) && HasType(IntV(i), SourceType(inner, v.renameResult, env).value)
      && (SourceType(inner, v.renameResult, env) == Some(I64) ==> i != Min(I64))
      && (SourceType(inner, v.renameResult, env) == Some(I128) ==> Abs(i) <= Max(I128))
    ensures Meaning(Unary(Neg, inner), v.renameResult, env, s) == Val(IntV(Ideal(Unary(Neg, inner), v.renameResult, env, s)))
  {
    ArithmeticWidens(inner, v, env);
    NegationMeaning(inner, v, env, s);
  }

  lemma NegationMeaning(inner: Expr, v: Vars, env: TyEnv, s: Store)
    requires SourceType(Unary(Neg, inner), v.renameResult, env).Some? && Meaning(inner, v.renameResult, env, s).Val?
    ensures Meaning(Unary(Neg, inner), v.renameResult, env, s)
         == Checked(SourceType(Unary(Neg, inner), v.renameResult, env).value, -AsInt(Meaning(inner, v.renameResult, env, s).v))
    ensures SourceType(Unary(Neg, inner), v.renameResult, env) == NegType(SourceType(inner, v.renameResult, env))
  {
  }

  lemma {:induction false} WideSizeFits(e: Expr, v: Vars, env: TyEnv)
    requires Arithmetic(e) && DeclaredNames(e, v, env) && FitsI128(e, v.renameResult, env) && SourceType(e, v.renameResult, env) == Some(I128)
    ensures Size(e, v.renameResult, env) <= Max(I128)
  {
    if e.Unary? { WideSizeFits(e.operand, v, env); }
  }

  lemma DividendFits(op: BinOp, l: Expr, r: Expr, v: Vars, env: TyEnv)
    requires op.IsArithmetic() && SourceType(Binary(op, l, r), v.renameResult, env).Some? && FitsI128(Binary(op, l, r), v.renameResult, env)
    ensures Size(Binary(op, l, r), v.renameResult, env) <= Max(I128)
    ensures op.Div? || op.Mod? ==> Size(l, v.renameResult, env) <= Max(I128)
  {
  }

  lemma OperationExact(op: BinOp, l: Expr, r: Expr, v: Vars, env: TyEnv, s: Store)
    requires op.IsArithmetic() && SourceType(Binary(op, l, r), v.renameResult, env).Some?
    requires op.Div? || op.Mod? ==> Ideal(r, v.renameResult, env, s) != 0
    requires Meaning(l, v.renameResult, env, s) == Val(IntV(Ideal(l, v.renameResult, env, s)))
    requires Meaning(r, v.renameResult, env, s) == Val(IntV(Ideal(r, v.renameResult, env, s)))
    requires Abs(Ideal(Binary(op, l, r), v.renameResult, env, s)) <= Max(I128)
    requires Abs(Ideal(l, v.renameResult, env, s)) <= Size(l, v.renameResult, env) && (op.Div? || op.Mod? ==> Size(l, v.renameResult, env) <= Max(I128))
    ensures Meaning(Binary(op, l, r), v.renameResult, env, s) == Val(IntV(Ideal(Binary(op, l, r), v.renameResult, env, s)))
  {
    hide Wrap, TruncDiv, TruncMod, Size, Meaning, Ideal, SourceType;
    OperatorMeaning(op, l, r, v.renameResult, env, s);
    IdealStep(op, l, r, v, env, s);
    var a, b := Ideal(l, v.renameResult, env, s), Ideal(r, v.renameResult, env, s);
    if b != 0 { TruncDivSize(a, b); }
  }

  /** One `+`, `-` or `*` of an Int with a Nat, and any `/` or `%` of 64-bit values, always fits. */
  lemma OneStepFits(op: BinOp, l: Expr, r: Expr, v: Vars, env: TyEnv)
    requires op.IsArithmetic() && (l.Ident? || l.IntLit?) && (r.Ident? || r.IntLit?)
    requires DeclaredNames(Binary(op, l, r), v, env) && SourceType(Binary(op, l, r), v.renameResult, env).Some?
    requires SourceType(l, v.renameResult, env) != SourceType(r, v.renameResult, env) || !op.Mul?
    ensures FitsI128(Binary(op, l, r), v.renameResult, env)
  {
    hide Contains, SharedKind, Swaps;
    IdealStep(op, l, r, v, env, map[]);
    assert SourceType(l, v.renameResult, env).Some? && SourceType(r, v.renameResult, env).Some?;
    SmallSize(l, v, env);
    SmallSize(r, v, env);
    if op.Mul? { SmallProduct(Size(l, v.renameResult, env), Size(r, v.renameResult, env)); }
  }

  lemma SmallSize(e: Expr, v: Vars, env: TyEnv)
    requires (e.Ident? || e.IntLit?) && DeclaredNames(e, v, env) && SourceType(e, v.renameResult, env).Some?
    ensures if SourceType(e, v.renameResult, env) == Some(I64) then Size(e, v.renameResult, env) == TWO_63
      else if SourceType(e, v.renameResult, env) == Some(U64) then Size(e, v.renameResult, env) == TWO_64 - 1
      else SourceType(e, v.renameResult, env) == Some(Lit) && Size(e, v.renameResult, env) <= TWO_31
    ensures FitsI128(e, v.renameResult, env)
  {
  }

  lemma SmallProduct(m: nat, n: nat)
    requires (m <= TWO_63 && n < TWO_64) || (n <= TWO_63 && m < TWO_64)
    ensures m * n <= Max(I128)
  {
    if m <= TWO_63 && n < TWO_64 {
      ProductSize(m, n, TWO_63, TWO_64 - 1);
    } else {
      ProductSize(n, m, TWO_63, TWO_64 - 1);
      assert m * n == n * m;
    }
    assert TWO_63 * (TWO_64 - 1) <= Max(I128);
  }

  /** An emitted comparison orders the ideal values of its sides. */
  lemma ComparisonIsExact(op: BinOp, l: Expr, r: Expr, v: Vars, env: TyEnv, hidden: set<string>, names: set<string>, s: Store)
    requires op.IsComparison() && Compilable(l, v, env, hidden, names) && Compilable(r, v, env, hidden, names)
    requires InFragment(l, v, env, s) && FitsI128(l, v.renameResult, env) && Defined(l, v.renameResult, env, s)
    requires InFragment(r, v, env, s) && FitsI128(r, v.renameResult, env) && Defined(r, v.renameResult, env, s)
    ensures Eval(Intended(Binary(op, l, r), v), env, s)
         == Val(BoolV(CompareOp(op, Ideal(l, v.renameResult, env, s), Ideal(r, v.renameResult, env, s))))
  {
    hide Intended, Eval, TypeOf, Meaning, Ideal, FitsI128, Defined, SourceType, Arithmetic, DeclaredNames,
         StoreTyped, Compilable, CompareOp;
    assert SourceType(l, v.renameResult, env).Some? && SourceType(r, v.renameResult, env).Some?;
    ExactMeaning(l, v, env, s);
    ExactMeaning(r, v, env, s);
    ArithmeticWidens(l, v, env);
    ArithmeticWidens(r, v, env);
    ComparisonMeaning(op, l, r, v, env, s);
    ComparisonCompiles(op, l, r, v, env, hidden, names);
    EmittedComputesMeaning(Binary(op, l, r), v, env, hidden, names, s);
  }

  lemma ComparisonCompiles(op: BinOp, l: Expr, r: Expr, v: Vars, env: TyEnv, hidden: set<string>, names: set<string>)
    requires op.IsComparison() && Compilable(l, v, env, hidden, names) && Compilable(r, v, env, hidden, names)
    requires SourceType(Binary(op, l, r), v.renameResult, env).Some?
    ensures Compilable(Binary(op, l, r), v, env, hidden, names)
  {
    hide SourceType, Recorded, KindVisible;
  }

  lemma ComparisonMeaning(op: BinOp, l: Expr, r: Expr, v: Vars, env: TyEnv, s: Store)
    requires op.IsComparison() && SourceType(l, v.renameResult, env).Some? && SourceType(r, v.renameResult, env).Some?
    requires SourceType(l, v.renameResult, env).value.IsInteger() && SourceType(r, v.renameResult, env).value.IsInteger()
    requires Meaning(l, v.renameResult, env, s).Val? && Meaning(r, v.renameResult, env, s).Val?
    ensures SourceType(Binary(op, l, r), v.renameResult, env) == Some(Bool)
    ensures Meaning(Binary(op, l, r), v.renameResult, env, s)
         == Val(BoolV(CompareOp(op, AsInt(Meaning(l, v.renameResult, env, s).v), AsInt(Meaning(r, v.renameResult, env, s).v))))
  {
    hide Meaning, CompareOp, Wrap;
    OperatorMeaning(op, l, r, v.renameResult, env, s);
  }
}
