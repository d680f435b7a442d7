/**
 * Types of contract expressions, from the declared types alone: sums of two Ints or two
 * Nats stay at 64 bits, mixed sums, quotients and remainders are unbounded. Then the
 * restrictions under which the compiler keeps to them, each said on the source.
 */
module Sources {
  import opened Ast
  import opened Numeric
  import opened RustSemantics
  import opened Emitter
  import opened Folder
  import opened Widths

  predicate Is64(t: Ty) { t.I64? || t.U64? }

  /**
   * The type of `e`: Int is `I64`, Nat is `U64`, and `I128` stands for an unbounded
   * integer. `env` types the emitted names, the result variable and the `old` snapshots
   * among them. `None` for what no type fits, and for floats, fields, literals above
   * `i32::MAX`, sums of literals only, casts to other types, `old` of anything but a
   * name, and an `if` between byte strings.
   */
  function SourceType(e: Expr, renameResult: bool, env: TyEnv): (t: Option<Ty>)
    ensures t.Some? ==> Widenable(t.value) || t.value.Bytes?
  {
    match e
    case Ident(x) => NameWidth(x, renameResult, env)
    case IntLit(n) => if InRange(Lit, n) then Some(Lit) else None
    case BoolLit(_) => Some(Bool)
    case FloatLit(_) | Field(_, _) => None
    case Length(r) => if SourceType(r, renameResult, env) == Some(Bytes) then Some(U64) else None
    case Unary(uop, inner) =>
      var t := SourceType(inner, renameResult, env);
      if uop.Neg? then NegType(t) else if t == Some(Bool) then Some(Bool) else None
    case Old(inner) => if inner.Ident? then OldWidth(inner.name, renameResult, env) else None
    case Cast(inner, ty) =>
      var t := SourceType(inner, renameResult, env);
      if t.Some? && t.value.IsInteger() && (ty == "Int" || ty == "Nat") then Some(if ty == "Int" then I64 else U64)
      else None
    case Let(x, value, body) =>
      var t := SourceType(value, renameResult, env);
      if t.Some? && Plain(x) && x != "result" && x !in env
      then SourceType(body, renameResult, env[x := LetType(t.value)]) else None
    case If(c, t, f) =>
      var tt, tf := SourceType(t, renameResult, env), SourceType(f, renameResult, env);
      if SourceType(c, renameResult, env) == Some(Bool) && tt.Some? && tf.Some? then IfType(tt.value, tf.value) else None
    case Binary(op, l, r) =>
      var tl, tr := SourceType(l, renameResult, env), SourceType(r, renameResult, env);
      if tl.Some? && tr.Some? then OperatorType(op, tl.value, tr.value) else None
  }

  function OperatorType(op: BinOp, l: Ty, r: Ty): Option<Ty> {
    if op.IsArithmetic() then
      if !l.IsInteger() || !r.IsInteger() then None
      else if op.CanWrap() then SumType(l, r)
      else Some(I128)
    else if op.IsComparison() then
      if (l.IsInteger() && r.IsInteger()) || (l.Bool? && r.Bool? && (op.Eq? || op.Neq?)) then Some(Bool) else None
    else if l.Bool? && r.Bool? then Some(Bool) else None
  }

  /** `+`, `-` and `*`: a literal takes the type of the other side; a negative one is no Nat. */
  function SumType(l: Ty, r: Ty): Option<Ty> {
    if l.IsLiteral() && r.IsLiteral() then None
    else if (Is64(l) || Is64(r)) && (l == r || l.IsLiteral() || r.IsLiteral()) then Join(l, r)
    else Some(I128)
  }

  function IfType(t: Ty, f: Ty): Option<Ty> {
    if t.Bool? != f.Bool? || t.Bytes? || f.Bytes? then None
    else if t.I128? || f.I128? then Some(I128)
    else Join(t, f)
  }

  // ----- Names whose kind the folder knows -----

  /**
   * The folder's sets hold exactly the Int and Nat names of `env` that are not hidden.
   * Parameters of a declared type are never hidden.
   */
  ghost predicate Recorded(v: Vars, env: TyEnv, hidden: set<string>) {
    forall x | Plain(x) && RustName(x, v.renameResult) in env ::
      && (x in v.ints <==> env[RustName(x, v.renameResult)] == I64 && x !in hidden)
      && (x in v.nats <==> env[RustName(x, v.renameResult)] == U64 && x !in hidden)
  }

  /**
   * No operand that decides the kind of `e` is a hidden name or a variable of a `let`
   * inside `e`: looking through negation, `old`, sums, both branches and `let` bodies, and
   * stopping at casts.
   */
  predicate KindVisible(e: Expr, hidden: set<string>) {
    match e
    case Ident(x) => x !in hidden
    case Unary(uop, inner) => uop.Neg? ==> KindVisible(inner, hidden)
    case Old(inner) => KindVisible(inner, hidden)
    case Binary(op, l, r) => op.CanWrap() ==> KindVisible(l, hidden) && KindVisible(r, hidden)
    case If(_, t, f) => KindVisible(t, hidden) && KindVisible(f, hidden)
    case Let(x, _, body) => KindVisible(body, hidden + {x})
    case _ => true
  }

  /** A `let` over a value whose kind is not visible hides its variable, too. */
  function LetHidden(x: string, value: Expr, hidden: set<string>): set<string> {
    if KindVisible(value, hidden) then hidden else hidden + {x}
  }

  // ----- What the compiler supports -----

  /** Something inside `e` is unbounded, or spelled like it. */
  predicate Widens(e: Expr, renameResult: bool, env: TyEnv) {
    match e
    case Ident(x) => Contains(RustName(x, renameResult), "_i128")
    case IntLit(_) | BoolLit(_) | FloatLit(_) | Field(_, _) => false
    case Length(r) => Widens(r, renameResult, env)
    case Unary(_, inner) => Widens(inner, renameResult, env)
    case Old(inner) =>
      if renameResult then Contains(OLD_VAR_PREFIX + OldVarName(inner), "_i128") else Widens(inner, renameResult, env)
    case Cast(inner, _) => Widens(inner, renameResult, env)
    case If(c, t, f) => Widens(c, renameResult, env) || Widens(t, renameResult, env) || Widens(f, renameResult, env)
    case Let(x, value, body) =>
      var t := SourceType(value, renameResult, env);
      || Contains(x, "_i128") || Widens(value, renameResult, env)
      || (t.Some? && Widens(body, renameResult, env[x := LetType(t.value)]))
    case Binary(op, l, r) =>
      || Widens(l, renameResult, env) || Widens(r, renameResult, env)
      || (op.IsArithmetic() && SourceType(e, renameResult, env) == Some(I128))
      || (op.IsComparison() && IsNumeric(l) && IsNumeric(r))
  }

  /** Both branches look numeric and one of them widens: the other one is then widened, too. */
  predicate Normalised(t: Expr, f: Expr, renameResult: bool, env: TyEnv) {
    IsNumeric(t) && IsNumeric(f) && (Widens(t, renameResult, env) || Widens(f, renameResult, env))
  }

  /** The Rust type of one branch after normalisation. */
  function BranchType(e: Expr, t: Ty, normalise: bool, renameResult: bool, env: TyEnv): Ty {
    if normalise && !Widens(e, renameResult, env) then I128 else t
  }

  /** Normalising the branches gives the type the `if` has. */
  predicate IfAgrees(t: Expr, f: Expr, renameResult: bool, env: TyEnv) {
    var tt, tf := SourceType(t, renameResult, env), SourceType(f, renameResult, env);
    tt.Some? && tf.Some? ==>
      var n := Normalised(t, f, renameResult, env);
      Join(BranchType(t, tt.value, n, renameResult, env), BranchType(f, tf.value, n, renameResult, env))
        == IfType(tt.value, tf.value)
  }

  /** In a sum at 64 bits the kinds of both sides are visible, and a literal on the left is a plain one. */
  predicate SumAgrees(op: BinOp, l: Expr, r: Expr, renameResult: bool, env: TyEnv, hidden: set<string>) {
    var tl, tr := SourceType(l, renameResult, env), SourceType(r, renameResult, env);
    (op.CanWrap() && tl.Some? && tr.Some? && SumType(tl.value, tr.value).Some? && Is64(SumType(tl.value, tr.value).value)) ==>
      && KindVisible(l, hidden) && KindVisible(r, hidden)
      && (tl.value.IsLiteral() ==> IsBareLiteral(l))
  }

  /** Every sum and every `if` inside `e` keeps its type. */
  predicate Supported(e: Expr, renameResult: bool, env: TyEnv, hidden: set<string>) {
    match e
    case Ident(_) | IntLit(_) | BoolLit(_) | FloatLit(_) | Field(_, _) | Old(_) => true
    case Length(r) => Supported(r, renameResult, env, hidden)
    case Unary(_, inner) => Supported(inner, renameResult, env, hidden)
    case Cast(inner, _) => Supported(inner, renameResult, env, hidden)
    case Let(x, value, body) =>
      var t := SourceType(value, renameResult, env);
      && Supported(value, renameResult, env, hidden)
      && (t.Some? ==> Supported(body, renameResult, env[x := LetType(t.value)], LetHidden(x, value, hidden)))
    case If(c, t, f) =>
      && Supported(c, renameResult, env, hidden) && Supported(t, renameResult, env, hidden)
      && Supported(f, renameResult, env, hidden) && IfAgrees(t, f, renameResult, env)
    case Binary(op, l, r) =>
      && Supported(l, renameResult, env, hidden) && Supported(r, renameResult, env, hidden)
      && SumAgrees(op, l, r, renameResult, env, hidden)
  }

  /** The folder's sets, and the names that no `let` may shadow. */
  ghost predicate Tracked(v: Vars, env: TyEnv, hidden: set<string>, names: set<string>) {
    v.floats == {} && Within(v, names) && hidden <= names && Recorded(v, env, hidden)
  }

  /** `e` has a type, is supported, and shadows nothing. */
  ghost predicate Compilable(e: Expr, v: Vars, env: TyEnv, hidden: set<string>, names: set<string>) {
    && Tracked(v, env, hidden, names) && NoShadow(e, names)
    && SourceType(e, v.renameResult, env).Some? && Supported(e, v.renameResult, env, hidden)
  }

  lemma {:induction false} TypedHasNoFloats(e: Expr, renameResult: bool, env: TyEnv)
    requires SourceType(e, renameResult, env).Some?
    ensures !HasFloat(e, {}) && !HasU128Literal(e)
  {
    hide OperatorType, IfType;
    match e
    case Ident(_) | IntLit(_) | BoolLit(_) | FloatLit(_) | Field(_, _) | Old(_) =>
    case Length(r) => TypedHasNoFloats(r, renameResult, env);
    case Unary(_, inner) => TypedHasNoFloats(inner, renameResult, env);
    case Cast(inner, _) => TypedHasNoFloats(inner, renameResult, env);
    case If(c, t, f) =>
      TypedHasNoFloats(c, renameResult, env);
      TypedHasNoFloats(t, renameResult, env);
      TypedHasNoFloats(f, renameResult, env);
    case Let(x, value, body) =>
      TypedHasNoFloats(value, renameResult, env);
      TypedHasNoFloats(body, renameResult, env[x := LetType(SourceType(value, renameResult, env).value)]);
    case Binary(_, l, r) =>
      TypedHasNoFloats(l, renameResult, env);
      TypedHasNoFloats(r, renameResult, env);
  }

  /** Inside a `let` the sets are again as declared; its variable is hidden if its value's kind is. */
  lemma LetTracked(x: string, value: Expr, t: Ty, v: Vars, env: TyEnv, hidden: set<string>, names: set<string>)
    requires Tracked(v, env, hidden, names) && x !in names && Plain(x) && x != "result" && x !in env
    requires !HasFloat(value, {})
    requires MachineKind(value, v) == if KindVisible(value, hidden) then TypeKind(t) else None
    ensures Tracked(Bind(x, value, v), env, hidden, names + {x})
    ensures Tracked(Bind(x, value, v), env[x := LetType(t)], LetHidden(x, value, hidden), names + {x})
  {
    hide MachineKind, KindVisible, HasFloat, TypeKind, Plain, RESULT_VAR;
    var v' := Bind(x, value, v);
    assert v'.ints == if MachineKind(value, v) == Some(IntKind) then v.ints + {x} else v.ints;
    assert v'.nats == if MachineKind(value, v) == Some(NatKind) then v.nats + {x} else v.nats;
    KindsOf(t);
    ResultIsReserved();
  }

  lemma KindsOf(t: Ty)
    ensures TypeKind(t) == Some(IntKind) <==> LetType(t) == I64
    ensures TypeKind(t) == Some(NatKind) <==> LetType(t) == U64
  {
  }

  lemma ResultIsReserved()
    ensures !Plain(RESULT_VAR)
  {
    assert RESULT_VAR[..9] == "__assura_";
  }

  function TypeKind(t: Ty): Option<Kind> {
    match t
    case I64 => Some(IntKind)
    case U64 => Some(NatKind)
    case Lit | SLit => Some(LitKind)
    case _ => None
  }
}
