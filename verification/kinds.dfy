/** The machine kind the folder computes is the Rust type of the code it emits. */
module Kinds {
  import opened Ast
  import opened Numeric
  import opened RustSemantics
  import opened Emitter
  import opened Folder
  import opened Widths
  import opened Sources
  import opened Branches

  /** A classified name has the type of its set. */
  ghost predicate Classifies(v: Vars, env: TyEnv) {
    forall x | Plain(x) && RustName(x, v.renameResult) in env ::
      && (x in v.ints ==> env[RustName(x, v.renameResult)] == I64)
      && (x in v.nats ==> env[RustName(x, v.renameResult)] == U64)
  }

  /**
   * No sum of literals only, no `let` over a classified name, and every `if` has Boolean
   * or arithmetic branches.
   */
  predicate Regular(e: Expr, v: Vars, env: TyEnv) {
    match e
    case Ident(_) | IntLit(_) | BoolLit(_) | FloatLit(_) | Field(_, _) | Old(_) => true
    case Length(r) => Regular(r, v, env)
    case Unary(_, inner) => Regular(inner, v, env)
    case Cast(inner, _) => Regular(inner, v, env)
    case Binary(op, l, r) => Regular(l, v, env) && Regular(r, v, env) && MachineKind(e, v) != Some(LitKind)
    case Let(x, value, body) =>
      var v' := Bind(x, value, v);
      var w := Width(value, v', env);
      && x !in v.ints + v.nats && Regular(value, v', env)
      && (w.Some? ==> Regular(body, v', env[x := LetType(w.value)]))
    case If(c, t, f) =>
      && Regular(c, v, env) && Regular(t, v, env) && Regular(f, v, env)
      && (Width(t, v, env) == Some(Bool) || ArithmeticIf(t, f, v, env))
  }

  predicate ArithmeticIf(t: Expr, f: Expr, v: Vars, env: TyEnv) {
    Arithmetic(t) && DeclaredNames(t, v, env) && Arithmetic(f) && DeclaredNames(f, v, env)
  }

  /** Knowing one more name never changes a kind that is already known. */
  lemma {:induction false} KindIsStable(e: Expr, x: string, value: Expr, v: Vars)
    requires x !in v.ints + v.nats && MachineKind(e, v).Some?
    ensures MachineKind(e, Bind(x, value, v)) == MachineKind(e, v)
    decreases e
  {
    match e
    case Unary(_, inner) => KindIsStable(inner, x, value, v);
    case Old(inner) => KindIsStable(inner, x, value, v);
    case Cast(inner, ty) =>
      if MapTypeToken(ty) != "u64" && MapTypeToken(ty) != "i64" { KindIsStable(inner, x, value, v); }
    case Let(_, _, body) => KindIsStable(body, x, value, v);
    case If(_, t, f) =>
      KindIsStable(t, x, value, v);
      KindIsStable(f, x, value, v);
    case Binary(_, l, r) =>
      KindIsStable(l, x, value, v);
      KindIsStable(r, x, value, v);
    case _ =>
  }

  ghost predicate KindMatches(e: Expr, v: Vars, w: Ty) {
    match MachineKind(e, v)
    case None => true
    case Some(IntKind) => w == I64
    case Some(NatKind) => w == U64
    case Some(LitKind) => w.IsLiteral()
  }

  /** Kind Int means `i64`, kind Nat means `u64`, kind Lit means an untyped literal. */
  lemma {:induction false} KindImpliesType(e: Expr, v: Vars, env: TyEnv)
    requires v.floats == {} && Width(e, v, env).Some? && Regular(e, v, env) && Classifies(v, env)
    ensures KindMatches(e, v, Width(e, v, env).value)
    decreases e
  {
    hide Text, HasInnerI128, MapTypeToken, HasFloat, IsNumeric;
    match e
    case Ident(_) | IntLit(_) | BoolLit(_) | FloatLit(_) | Field(_, _) | Old(_) => LeafKind(e, v, env);
    case Length(_) =>
    case Unary(_, inner) => KindImpliesType(inner, v, env);
    case Cast(inner, ty) => CastKind(inner, ty, v);
    case Binary(op, l, r) =>
    case If(c, t, f) =>
      KindImpliesType(t, v, env);
      KindImpliesType(f, v, env);
      IfKind(c, t, f, v, env);
    case Let(x, value, body) =>
      LetClassifies(x, value, body, v, env);
      KindImpliesType(body, Bind(x, value, v), env[x := LetType(Width(value, Bind(x, value, v), env).value)]);
      if MachineKind(body, v).Some? { KindIsStable(body, x, value, v); }
  }

  lemma LeafKind(e: Expr, v: Vars, env: TyEnv)
    requires e.Ident? || e.IntLit? || e.BoolLit? || e.FloatLit? || e.Field? || e.Old?
    requires Width(e, v, env).Some? && Classifies(v, env)
    ensures KindMatches(e, v, Width(e, v, env).value)
  {
  }

  lemma CastKind(inner: Expr, ty: string, v: Vars)
    ensures ty == "Int" ==> MachineKind(Cast(inner, ty), v) == Some(IntKind)
    ensures ty == "Nat" ==> MachineKind(Cast(inner, ty), v) == Some(NatKind)
  {
  }

  lemma LetClassifies(x: string, value: Expr, body: Expr, v: Vars, env: TyEnv)
    requires v.floats == {} && Width(Let(x, value, body), v, env).Some?
    requires Regular(Let(x, value, body), v, env) && Classifies(v, env)
    ensures var v', w := Bind(x, value, v), Width(value, Bind(x, value, v), env).value;
      v'.floats == {} && Classifies(v', env) && Classifies(v', env[x := LetType(w)])
    decreases Let(x, value, body), 0
  {
    hide Text, HasInnerI128, Regular, MachineKind;
    var v' := Bind(x, value, v);
    NoFloats(value, v', env);
    assert Classifies(v', env);
    assert Regular(value, v', env) && x !in v.ints + v.nats by { LetRegular(x, value, body, v, env); }
    KindImpliesType(value, v', env);
    if MachineKind(value, v).Some? { KindIsStable(value, x, value, v); }
  }

  lemma LetRegular(x: string, value: Expr, body: Expr, v: Vars, env: TyEnv)
    requires Regular(Let(x, value, body), v, env)
    ensures Regular(value, Bind(x, value, v), env) && x !in v.ints + v.nats
  {
  }

  lemma IfKind(c: Expr, t: Expr, f: Expr, v: Vars, env: TyEnv)
    requires v.floats == {} && Width(If(c, t, f), v, env).Some?
    requires Width(t, v, env) == Some(Bool) || ArithmeticIf(t, f, v, env)
    requires KindMatches(t, v, Width(t, v, env).value) && KindMatches(f, v, Width(f, v, env).value)
    ensures KindMatches(If(c, t, f), v, Width(If(c, t, f), v, env).value)
  {
    hide Text, HasInnerI128, HasFloat;
    if ArithmeticIf(t, f, v, env) { ArithmeticBranchesAgree(c, t, f, v, env); }
  }

  // ----- When exactly the kind is the type -----

  /**
   * The kind the folder computes is that of the type if it is visible, and none if it is
   * not: a sum of two Ints or two Nats wraps exactly when both kinds are visible.
   */
  lemma {:induction false} KindIs(e: Expr, v: Vars, env: TyEnv, hidden: set<string>, names: set<string>)
    requires Within(v, names) && NoShadow(e, names) && Recorded(v, env, hidden)
    requires SourceType(e, v.renameResult, env).Some?
    ensures MachineKind(e, v)
         == if KindVisible(e, hidden) then TypeKind(SourceType(e, v.renameResult, env).value) else None
  {
    hide OperatorType, IfType, HasFloat, MapTypeToken, Recorded;
    match e
    case Ident(_) | IntLit(_) | BoolLit(_) | FloatLit(_) | Field(_, _) | Old(_) => LeafKindIs(e, v, env, hidden);
    case Length(_) =>
    case Unary(_, inner) => KindIs(inner, v, env, hidden, names);
    case Cast(inner, ty) => CastKind(inner, ty, v);
    case If(_, t, f) =>
      KindIs(t, v, env, hidden, names);
      KindIs(f, v, env, hidden, names);
      IfKindIs(SourceType(t, v.renameResult, env).value, SourceType(f, v.renameResult, env).value);
    case Let(x, value, body) =>
      var env' := env[x := LetType(SourceType(value, v.renameResult, env).value)];
      LetRecorded(x, v, env, env', hidden, names);
      KindIs(body, v, env', hidden + {x}, names + {x});
    case Binary(op, l, r) =>
      KindIs(l, v, env, hidden, names);
      KindIs(r, v, env, hidden, names);
      OperatorKindIs(op, SourceType(l, v.renameResult, env).value, SourceType(r, v.renameResult, env).value);
  }

  lemma LeafKindIs(e: Expr, v: Vars, env: TyEnv, hidden: set<string>)
    requires e.Ident? || e.IntLit? || e.BoolLit? || e.FloatLit? || e.Field? || e.Old?
    requires Recorded(v, env, hidden) && SourceType(e, v.renameResult, env).Some?
    ensures MachineKind(e, v)
         == if KindVisible(e, hidden) then TypeKind(SourceType(e, v.renameResult, env).value) else None
  {
  }

  lemma IfKindIs(t: Ty, f: Ty)
    requires IfType(t, f).Some?
    ensures TypeKind(IfType(t, f).value) == UnifyKind(TypeKind(t), TypeKind(f))
  {
  }

  lemma OperatorKindIs(op: BinOp, l: Ty, r: Ty)
    requires OperatorType(op, l, r).Some?
    ensures TypeKind(OperatorType(op, l, r).value) == if op.CanWrap() then UnifyKind(TypeKind(l), TypeKind(r)) else None
    ensures op.CanWrap() ==> UnifyKind(TypeKind(l), TypeKind(r)) != Some(LitKind)
  {
  }

  /** Seen from outside, the variable of a `let` is a hidden name. */
  lemma LetRecorded(x: string, v: Vars, env: TyEnv, env': TyEnv, hidden: set<string>, names: set<string>)
    requires Within(v, names) && Recorded(v, env, hidden) && x !in names && Plain(x)
    requires x in env' && env' == env[x := env'[x]]
    ensures Recorded(v, env', hidden + {x})
  {
    ResultIsReserved();
  }

  /**
   * For an Int or a Nat: the kind is that of the type exactly when no name that decides
   * it is hidden or bound by a `let` inside the expression.
   */
  lemma KindIsTypeIff(e: Expr, v: Vars, env: TyEnv, hidden: set<string>, names: set<string>)
    requires Within(v, names) && NoShadow(e, names) && Recorded(v, env, hidden)
    requires SourceType(e, v.renameResult, env) == Some(I64) || SourceType(e, v.renameResult, env) == Some(U64)
    ensures MachineKind(e, v) == TypeKind(SourceType(e, v.renameResult, env).value) <==> KindVisible(e, hidden)
  {
    KindIs(e, v, env, hidden, names);
  }

  /**
   * The sum of a variable and a `let` whose body is its own variable is widened although
   * both have the same type: the kind of a `let` is computed outside its scope.
   */
  lemma LetBodyLosesKind(v: Vars, env: TyEnv, a: string, y: string)
    requires v == Vars({}, {a}, {}, true) && env == map[a := I64]
    requires Plain(a) && Plain(y) && a != "result" && y != "result" && a != y
    ensures var e := Binary(Add, Let(y, Ident(a), Ident(y)), Ident(a));
      && Width(Let(y, Ident(a), Ident(y)), v, env) == Some(I64)
      && Width(Ident(a), v, env) == Some(I64)
      && Width(e, v, env) == Some(I128)
  {
    var inner := Let(y, Ident(a), Ident(y));
    assert MachineKind(inner, v) == None;
    assert Width(Ident(a), Bind(y, Ident(a), v), env) == Some(I64);
  }
}
