/**
 * The typing discipline of the compiler: which Rust type the code emitted for an
 * expression has. Operands that share a machine kind stay at 64 bits, other arithmetic is
 * `i128`, and a literal alone stays untyped.
 */
module Widths {
  import opened Ast
  import opened Numeric
  import opened RustSyntax
  import opened RustSemantics
  import opened Emitter
  import opened Reading

  /**
   * The type of `e` in the compiled fragment, `None` outside it. `env` types the emitted
   * names: parameters, `let` variables, the result variable and the `old` snapshots.
   *
   * Excluded are: literals above `i32::MAX`; a wrapping operand whose type is not that of
   * its kind, unless it is a literal that can take the type; negation of a Nat; casts to
   * other types; floats; fields; `old` of anything but a name; an `if` whose branches end
   * up with different Rust types.
   */
  function Width(e: Expr, v: Vars, env: TyEnv): (w: Option<Ty>)
    ensures w.Some? ==> Widenable(w.value) || w.value.Bytes?
  {
    match e
    case Ident(x) => NameWidth(x, v.renameResult, env)
    case IntLit(n) => if InRange(Lit, n) then Some(Lit) else None
    case BoolLit(_) => Some(Bool)
    case FloatLit(_) | Field(_, _) => None
    case Length(r) => if Width(r, v, env) == Some(Bytes) then Some(U64) else None
    case Unary(uop, inner) =>
      var w := Width(inner, v, env);
      if uop.Neg? then NegType(w) else if w == Some(Bool) then Some(Bool) else None
    case Old(inner) => if inner.Ident? then OldWidth(inner.name, v.renameResult, env) else None
    case Cast(inner, ty) =>
      var w := Width(inner, v, env);
      if w.Some? && w.value.IsInteger() && (ty == "Int" || ty == "Nat") then Some(if ty == "Int" then I64 else U64)
      else None
    case Let(x, value, body) =>
      var v' := Bind(x, value, v);
      var w := Width(value, v', env);
      if w.Some? && Plain(x) && x != "result" && x !in env
      then Width(body, v', env[x := LetType(w.value)]) else None
    case If(c, t, f) =>
      var wt, wf := Width(t, v, env), Width(f, v, env);
      if Width(c, v, env) == Some(Bool) && wt.Some? && wf.Some?
      then IfWidth(t, f, wt.value, wf.value, v) else None
    case Binary(op, l, r) =>
      var wl, wr := Width(l, v, env), Width(r, v, env);
      if wl.Some? && wr.Some? then BinaryWidth(op, l, r, wl.value, wr.value, v) else None
  }

  /** Names beginning `__assura_` are reserved for the generator. */
  predicate Plain(x: string) { !("__assura_" <= x) }

  /** Types a variable of the fragment can have. */
  predicate Emittable(t: Ty) { t.I32? || t.I64? || t.U64? || t.I128? || t.Bool? || t.Bytes? }

  function NameWidth(x: string, renameResult: bool, env: TyEnv): Option<Ty> {
    var name := RustName(x, renameResult);
    if Plain(x) && name in env && Emittable(env[name]) then Some(env[name]) else None
  }

  /** A snapshot has the type of the name it was taken of. */
  function OldWidth(x: string, renameResult: bool, env: TyEnv): Option<Ty> {
    var w := NameWidth(x, renameResult, env);
    if renameResult && (OLD_VAR_PREFIX + x !in env || w != Some(env[OLD_VAR_PREFIX + x])) then None else w
  }

  function BinaryWidth(op: BinOp, l: Expr, r: Expr, wl: Ty, wr: Ty, v: Vars): Option<Ty> {
    if op.IsArithmetic() then
      if !wl.IsInteger() || !wr.IsInteger() then None
      else if !op.CanWrap() || SharedKind(l, r, v).None? then Some(I128)
      else if Swaps(op, l, r) then WrapWidth(r, wr, wl, SharedKind(l, r, v).value)
      else WrapWidth(l, wl, wr, SharedKind(l, r, v).value)
    else if op.IsComparison() then
      if (wl.IsInteger() && wr.IsInteger()) || (wl.Bool? && wr.Bool? && (op.Eq? || op.Neq?)) then Some(Bool) else None
    else if wl.Bool? && wr.Bool? then Some(Bool) else None
  }

  /** A receiver has the kind's type or is a literal that gets its suffix; the argument joins it. */
  function WrapWidth(recv: Expr, wrecv: Ty, warg: Ty, kind: Kind): Option<Ty> {
    var t := KindType(kind);
    if (wrecv == t || (IsBareLiteral(recv) && Join(t, wrecv) == Some(t))) && Join(t, warg) == Some(t)
    then Some(t) else None
  }

  function IfWidth(t: Expr, f: Expr, wt: Ty, wf: Ty, v: Vars): Option<Ty> {
    var n := Normalises(t, f, Text(t, v), Text(f, v), v.floats);
    if wt.Bool? != wf.Bool? || wt.Bytes? || wf.Bytes? then None
    else Join(BranchWidth(t, wt, n, v), BranchWidth(f, wf, n, v))
  }

  function BranchWidth(e: Expr, w: Ty, normalise: bool, v: Vars): Ty {
    if normalise && !HasInnerI128(Text(e, v)) then I128 else w
  }

  // ----- Consequences of having a width -----

  lemma {:induction false} NoFloats(e: Expr, v: Vars, env: TyEnv)
    requires Width(e, v, env).Some?
    ensures !HasFloat(e, {}) && !HasU128Literal(e)
  {
    match e
    case Ident(_) | IntLit(_) | BoolLit(_) | FloatLit(_) | Field(_, _) =>
    case Old(_) =>
    case Length(r) => NoFloats(r, v, env);
    case Unary(_, inner) => NoFloats(inner, v, env);
    case Cast(inner, _) => NoFloats(inner, v, env);
    case If(c, t, f) =>
      NoFloats(c, v, env);
      NoFloats(t, v, env);
      NoFloats(f, v, env);
    case Let(x, value, body) =>
      var v' := Bind(x, value, v);
      NoFloats(value, v', env);
      NoFloats(body, v', env[x := LetType(Width(value, v', env).value)]);
    case Binary(_, l, r) =>
      NoFloats(l, v, env);
      NoFloats(r, v, env);
  }

  /** Inside the fragment nothing is float or `u128`, and the text is read back as intended. */
  lemma {:induction false} WidthShape(e: Expr, v: Vars, env: TyEnv)
    requires v.floats == {} && Width(e, v, env).Some?
    ensures Width(e, v, env).value.IsInteger() ==> IsNumeric(e)
    ensures Readable(e, v) && NoOpenPrefix(e, v)
    ensures OpenCast(e, v) ==> Width(e, v, env) == Some(U64)
  {
    match e
    case Ident(_) | IntLit(_) | BoolLit(_) | FloatLit(_) | Field(_, _) =>
    case Old(inner) => assert !OpenCast(inner, v);
    case Length(r) => WidthShape(r, v, env);
    case Unary(_, inner) => WidthShape(inner, v, env);
    case Cast(inner, _) => WidthShape(inner, v, env);
    case If(c, t, f) =>
      WidthShape(c, v, env);
      WidthShape(t, v, env);
      WidthShape(f, v, env);
    case Let(x, value, body) =>
      var v' := Bind(x, value, v);
      NoFloats(value, v', env);
      WidthShape(value, v', env);
      WidthShape(body, v', env[x := LetType(Width(value, v', env).value)]);
    case Binary(_, l, r) =>
      NoFloats(l, v, env);
      NoFloats(r, v, env);
      WidthShape(l, v, env);
      WidthShape(r, v, env);
  }

  /** In the fragment the binary operator takes one of four forms, settled by the widths. */
  lemma WidthForm(op: BinOp, l: Expr, r: Expr, v: Vars, env: TyEnv)
    requires v.floats == {} && Width(Binary(op, l, r), v, env).Some?
    ensures var form := FormOf(op, l, r, v);
      if op.IsArithmetic() then
        (if op.CanWrap() && SharedKind(l, r, v).Some? then form == WrapForm(SharedKind(l, r, v).value) else form.WidenForm?)
      else if op.Implies? then form.ImpliesForm?
      else if op.IsComparison() then
        form.WidenForm? || (form.PlainForm? && Width(l, v, env) == Width(r, v, env) == Some(Bool))
      else form.PlainForm?
  {
    NoFloats(l, v, env);
    NoFloats(r, v, env);
    WidthShape(l, v, env);
    WidthShape(r, v, env);
  }

  // ----- Type soundness -----

  /** The emitted expression is well typed, and its type is the width of its source. */
  lemma {:induction false} EmittedIsWellTyped(e: Expr, v: Vars, env: TyEnv)
    requires v.floats == {} && Width(e, v, env).Some?
    ensures TypeOf(Intended(e, v), env) == Width(e, v, env)
    decreases e, 1
  {
    hide Text, HasInnerI128, MachineKind, TypeOf, Intended;
    match e
    case Ident(_) | IntLit(_) | BoolLit(_) | FloatLit(_) | Field(_, _) | Old(_) => LeafTyped(e, v, env);
    case Length(inner) =>
      EmittedIsWellTyped(inner, v, env);
      OneOperandTyped(e, inner, v, env);
    case Unary(_, inner) =>
      EmittedIsWellTyped(inner, v, env);
      OneOperandTyped(e, inner, v, env);
    case Cast(inner, _) =>
      EmittedIsWellTyped(inner, v, env);
      OneOperandTyped(e, inner, v, env);
    case If(c, t, f) =>
      EmittedIsWellTyped(c, v, env);
      EmittedIsWellTyped(t, v, env);
      EmittedIsWellTyped(f, v, env);
      IfTyped(c, t, f, v, env);
    case Let(x, value, body) =>
      var v' := Bind(x, value, v);
      NoFloats(value, v', env);
      EmittedIsWellTyped(value, v', env);
      EmittedIsWellTyped(body, v', env[x := LetType(Width(value, v', env).value)]);
      LetTyped(x, value, body, v, env);
    case Binary(op, l, r) =>
      EmittedIsWellTyped(l, v, env);
      EmittedIsWellTyped(r, v, env);
      BinaryTyped(op, l, r, v, env);
  }

  lemma LeafTyped(e: Expr, v: Vars, env: TyEnv)
    requires e.Ident? || e.IntLit? || e.BoolLit? || e.FloatLit? || e.Field? || e.Old?
    requires Width(e, v, env).Some?
    ensures TypeOf(Intended(e, v), env) == Width(e, v, env)
  {
  }

  lemma OneOperandTyped(e: Expr, inner: Expr, v: Vars, env: TyEnv)
    requires match e case Length(r) => r == inner case Unary(_, o) => o == inner case Cast(o, _) => o == inner case _ => false
    requires Width(e, v, env).Some? && TypeOf(Intended(inner, v), env) == Width(inner, v, env)
    ensures TypeOf(Intended(e, v), env) == Width(e, v, env)
  {
    hide Text, Bind, BinaryWidth, IfWidth, BinType, WrapType, TypeOf, Width, MapTypeToken;
    var t := Intended(inner, v);
    if e.Cast? { CastTyped(inner, e.ty, t, v, env); }
    if e.Length? { LengthTyped(inner, t, v, env); }
    if e.Unary? { UnaryTyped(e.uop, inner, t, v, env); }
  }

  lemma CastTyped(inner: Expr, ty: string, t: Tree, v: Vars, env: TyEnv)
    requires Width(Cast(inner, ty), v, env).Some? && TypeOf(t, env) == Width(inner, v, env)
    ensures TypeOf(RAs(t, MapTypeToken(ty)), env) == Width(Cast(inner, ty), v, env)
  {
  }

  lemma LengthTyped(inner: Expr, t: Tree, v: Vars, env: TyEnv)
    requires Width(Length(inner), v, env).Some? && TypeOf(t, env) == Width(inner, v, env)
    ensures TypeOf(RAs(RMethod0(t, "len"), "u64"), env) == Width(Length(inner), v, env)
  {
    assert TypeOf(RMethod0(t, "len"), env) == Some(Usize);
  }

  lemma UnaryTyped(uop: UnaryOp, inner: Expr, t: Tree, v: Vars, env: TyEnv)
    requires Width(Unary(uop, inner), v, env).Some? && TypeOf(t, env) == Width(inner, v, env)
    ensures TypeOf(if uop.Neg? then RNeg(t) else RNot(t), env) == Width(Unary(uop, inner), v, env)
  {
  }

  lemma LetTyped(x: string, value: Expr, body: Expr, v: Vars, env: TyEnv)
    requires Width(Let(x, value, body), v, env).Some?
    requires TypeOf(Intended(value, Bind(x, value, v)), env) == Width(value, Bind(x, value, v), env)
    requires var env' := env[x := LetType(Width(value, Bind(x, value, v), env).value)];
      TypeOf(Intended(body, Bind(x, value, v)), env') == Width(body, Bind(x, value, v), env')
    ensures TypeOf(Intended(Let(x, value, body), v), env) == Width(Let(x, value, body), v, env)
  {
    hide Bind, IfWidth, BinaryWidth, BinType, WrapType;
  }

  lemma IfTyped(c: Expr, t: Expr, f: Expr, v: Vars, env: TyEnv)
    requires Width(If(c, t, f), v, env).Some?
    requires TypeOf(Intended(c, v), env) == Width(c, v, env)
    requires TypeOf(Intended(t, v), env) == Width(t, v, env)
    requires TypeOf(Intended(f, v), env) == Width(f, v, env)
    ensures TypeOf(Intended(If(c, t, f), v), env) == Width(If(c, t, f), v, env)
  {
    hide Normalises, Text, HasInnerI128, TypeOf, Intended, BranchTree, BranchWidth, Width;
    var n := Normalises(t, f, Text(t, v), Text(f, v), v.floats);
    IfWidthIs(c, t, f, v, env);
    BranchTyped(t, n, v, env);
    BranchTyped(f, n, v, env);
    IfTree(c, t, f, v);
    IfTreeType(Intended(c, v), BranchTree(t, n, v), BranchTree(f, n, v), env);
  }

  lemma IfWidthIs(c: Expr, t: Expr, f: Expr, v: Vars, env: TyEnv)
    requires Width(If(c, t, f), v, env).Some?
    ensures Width(c, v, env) == Some(Bool) && Width(t, v, env).Some? && Width(f, v, env).Some?
    ensures !Width(t, v, env).value.Bytes? && !Width(f, v, env).value.Bytes?
    ensures var n := Normalises(t, f, Text(t, v), Text(f, v), v.floats);
      Width(If(c, t, f), v, env)
      == Join(BranchWidth(t, Width(t, v, env).value, n, v), BranchWidth(f, Width(f, v, env).value, n, v))
  {
    hide Normalises, Text, HasInnerI128, BranchWidth;
  }

  lemma IfTree(c: Expr, t: Expr, f: Expr, v: Vars)
    ensures var n := Normalises(t, f, Text(t, v), Text(f, v), v.floats);
      Intended(If(c, t, f), v) == RIf(Intended(c, v), BranchTree(t, n, v), BranchTree(f, n, v))
  {
    hide Normalises, Text, BranchTree;
  }

  lemma IfTreeType(c: Tree, t: Tree, f: Tree, env: TyEnv)
    requires TypeOf(c, env) == Some(Bool) && TypeOf(t, env).Some? && TypeOf(f, env).Some?
    ensures TypeOf(RIf(c, t, f), env) == Join(TypeOf(t, env).value, TypeOf(f, env).value)
  {
    hide Join;
  }

  lemma BranchTyped(e: Expr, n: bool, v: Vars, env: TyEnv)
    requires TypeOf(Intended(e, v), env) == Width(e, v, env)
    requires Width(e, v, env).Some? && !Width(e, v, env).value.Bytes?
    ensures TypeOf(BranchTree(e, n, v), env) == Some(BranchWidth(e, Width(e, v, env).value, n, v))
  {
    hide Text, HasInnerI128;
  }

  lemma BinaryTyped(op: BinOp, l: Expr, r: Expr, v: Vars, env: TyEnv)
    requires v.floats == {} && Width(Binary(op, l, r), v, env).Some?
    requires TypeOf(Intended(l, v), env) == Width(l, v, env)
    requires TypeOf(Intended(r, v), env) == Width(r, v, env)
    ensures TypeOf(Intended(Binary(op, l, r), v), env) == Width(Binary(op, l, r), v, env)
  {
    hide HasFloat, HasU128Literal, IsNumeric, MachineKind, SharedKind, FormOf, Text, Intended, TypeOf, Swaps, WrapWidth;
    WidthForm(op, l, r, v, env);
    if FormOf(op, l, r, v).WrapForm? {
      WrapBinaryTyped(op, l, r, v, env);
    } else if FormOf(op, l, r, v).WidenForm? {
      WidenBinaryTyped(op, l, r, v, env);
    } else {
      LogicTyped(op, l, r, v, env);
    }
  }

  lemma WidenBinaryTyped(op: BinOp, l: Expr, r: Expr, v: Vars, env: TyEnv)
    requires op.IsArithmetic() || op.IsComparison()
    requires FormOf(op, l, r, v).WidenForm?
    requires TypeOf(Intended(l, v), env) == Width(l, v, env) && TypeOf(Intended(r, v), env) == Width(r, v, env)
    requires Width(l, v, env).Some? && !Width(l, v, env).value.Bytes?
    requires Width(r, v, env).Some? && !Width(r, v, env).value.Bytes?
    ensures TypeOf(Intended(Binary(op, l, r), v), env) == Some(if op.IsArithmetic() then I128 else Bool)
  {
    hide FormOf, Text, Width, TypeOf;
    WidenTyped(l, v, env);
    WidenTyped(r, v, env);
    WidePairType(op, RWiden(Intended(l, v)), RWiden(Intended(r, v)), env);
  }

  lemma WidePairType(op: BinOp, l: Tree, r: Tree, env: TyEnv)
    requires op.IsArithmetic() || op.IsComparison()
    requires TypeOf(l, env) == TypeOf(r, env) == Some(I128)
    ensures TypeOf(RBin(op, l, r), env) == Some(if op.IsArithmetic() then I128 else Bool)
  {
  }

  lemma LogicTyped(op: BinOp, l: Expr, r: Expr, v: Vars, env: TyEnv)
    requires !op.IsArithmetic()
    requires if op.Implies? then FormOf(op, l, r, v).ImpliesForm? else FormOf(op, l, r, v).PlainForm?
    requires TypeOf(Intended(l, v), env) == TypeOf(Intended(r, v), env) == Some(Bool)
    ensures TypeOf(Intended(Binary(op, l, r), v), env) == Some(Bool)
  {
    hide FormOf, Text, WrapType, RustName, TypeOf;
    LogicType(op, Intended(l, v), Intended(r, v), env);
  }

  lemma LogicType(op: BinOp, l: Tree, r: Tree, env: TyEnv)
    requires TypeOf(l, env) == TypeOf(r, env) == Some(Bool)
    ensures !op.IsArithmetic() ==> TypeOf(RBin(op, l, r), env) == Some(Bool)
    ensures TypeOf(RBin(Or, RNot(l), r), env) == Some(Bool)
  {
  }

  lemma WrapBinaryTyped(op: BinOp, l: Expr, r: Expr, v: Vars, env: TyEnv)
    requires Width(Binary(op, l, r), v, env).Some? && op.CanWrap() && SharedKind(l, r, v).Some?
    requires FormOf(op, l, r, v) == WrapForm(SharedKind(l, r, v).value)
    requires TypeOf(Intended(l, v), env) == Width(l, v, env)
    requires TypeOf(Intended(r, v), env) == Width(r, v, env)
    ensures TypeOf(Intended(Binary(op, l, r), v), env) == Width(Binary(op, l, r), v, env)
  {
    hide HasFloat, HasU128Literal, IsNumeric, MachineKind, SharedKind, FormOf, Text, Swaps, WrapWidth, WrapMethodName, TypeOf;
    var kind := SharedKind(l, r, v).value;
    if Swaps(op, l, r) { WrapTyped(op, r, l, kind, v, env); } else { WrapTyped(op, l, r, kind, v, env); }
  }

  lemma WrapTyped(op: BinOp, recv: Expr, arg: Expr, kind: Kind, v: Vars, env: TyEnv)
    requires op.CanWrap() && Width(recv, v, env).Some? && Width(arg, v, env).Some?
    requires TypeOf(Intended(recv, v), env) == Width(recv, v, env)
    requires TypeOf(Intended(arg, v), env) == Width(arg, v, env)
    requires WrapWidth(recv, Width(recv, v, env).value, Width(arg, v, env).value, kind).Some?
    ensures WrapWidth(recv, Width(recv, v, env).value, Width(arg, v, env).value, kind) == Some(KindType(kind))
    ensures TypeOf(RMethod1(ReceiverTree(recv, kind, v), WrapMethodName(op), Intended(arg, v)), env) == Some(KindType(kind))
  {
    hide Intended, Width;
    ReceiverTyped(recv, kind, v, env);
    WrapNames(op);
  }

  lemma WidenTyped(e: Expr, v: Vars, env: TyEnv)
    requires TypeOf(Intended(e, v), env) == Width(e, v, env)
    requires Width(e, v, env).Some? && !Width(e, v, env).value.Bytes?
    ensures TypeOf(RWiden(Intended(e, v)), env) == Some(I128)
  {
  }

  lemma WrapNames(op: BinOp)
    requires op.CanWrap()
    ensures WrapMethod(WrapMethodName(op)) == Some(op)
  {
  }

  lemma ReceiverTyped(e: Expr, kind: Kind, v: Vars, env: TyEnv)
    requires Width(e, v, env).Some? && TypeOf(Intended(e, v), env) == Width(e, v, env)
    ensures if IsBareLiteral(e) then
        (Join(KindType(kind), Width(e, v, env).value) == Some(KindType(kind))
         ==> TypeOf(ReceiverTree(e, kind, v), env) == Some(KindType(kind)))
      else TypeOf(ReceiverTree(e, kind, v), env) == Width(e, v, env)
  {
  }
}
