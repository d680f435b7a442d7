/**
 * Types and evaluation of the generated Rust, with overflow checks on (a debug build).
 * Integer literals without a suffix get the type `Lit` and take the type of the operand
 * they meet; on their own, and as the value of a `let`, they fall back to `i32`.
 */
module RustSemantics {
  import opened Ast
  import opened Numeric
  import opened RustSyntax

  type TyEnv = map<string, Ty>

  datatype Value = IntV(i: int) | BoolV(b: bool) | BytesV(len: nat)

  type Store = map<string, Value>

  datatype Outcome = Val(v: Value) | Panic | Stuck

  /** The type two operands agree on, if any. */
  function Join(a: Ty, b: Ty): Option<Ty> {
    if a == b then Some(a)
    else if a.Lit? && b.IsInteger() then Some(b)
    else if b.Lit? && a.IsInteger() then Some(a)
    else if a.SLit? && b.IsSigned() then Some(b)
    else if b.SLit? && a.IsSigned() then Some(a)
    else None
  }

  /** Types with an `Into<i128>`; a literal falls back to `i32`. */
  predicate Widenable(t: Ty) {
    t.Bool? || t.I32? || t.I64? || t.U64? || t.I128? || t.Lit? || t.SLit?
  }

  function CastTarget(name: string): Option<Ty> {
    if name == "i64" then Some(I64)
    else if name == "u64" then Some(U64)
    else if name == "u128" then Some(U128)
    else None
  }

  function WrapMethod(name: string): Option<BinOp> {
    if name == "wrapping_add" then Some(Add)
    else if name == "wrapping_sub" then Some(Sub)
    else if name == "wrapping_mul" then Some(Mul)
    else None
  }

  function NumType(n: nat, suffix: Option<Ty>): Option<Ty> {
    match suffix
    case None => if InRange(Lit, n) then Some(Lit) else None
    case Some(t) => if t.IsConcreteInteger() && InRange(t, n) then Some(t) else None
  }

  function BinType(op: BinOp, l: Ty, r: Ty): Option<Ty> {
    match Join(l, r)
    case None => None
    case Some(t) =>
      if op.IsArithmetic() then (if t.IsInteger() then Some(t) else None)
      else if op.IsComparison() then (if t.Bytes? then None else Some(Bool))
      else if t.Bool? then Some(Bool)
      else None
  }

  /** What a `let` without an annotation gives its variable. */
  function LetType(t: Ty): Ty {
    if t.IsLiteral() then I32 else t
  }

  function TypeOf(e: Tree, env: TyEnv): Option<Ty>
    decreases e
  {
    match e
    case RVar(x) => if x in env then Some(env[x]) else None
    case RNum(n, suffix) => NumType(n, suffix)
    case RTruth(_) => Some(Bool)
    case RMethod0(recv, m) => if m == "len" && TypeOf(recv, env) == Some(Bytes) then Some(Usize) else None
    case RMethod1(recv, m, arg) => WrapType(m, TypeOf(recv, env), TypeOf(arg, env))
    case RWiden(arg) =>
      var t := TypeOf(arg, env);
      if t.Some? && Widenable(t.value) then Some(I128) else None
    case RNeg(arg) => NegType(TypeOf(arg, env))
    case RNot(arg) => if TypeOf(arg, env) == Some(Bool) then Some(Bool) else None
    case RAs(arg, ty) =>
      var t := TypeOf(arg, env);
      if t.Some? && t.value.IsInteger() then CastTarget(ty) else None
    case RBin(op, l, r) =>
      var tl, tr := TypeOf(l, env), TypeOf(r, env);
      if tl.Some? && tr.Some? then BinType(op, tl.value, tr.value) else None
    case RIf(c, t, f) =>
      var tt, tf := TypeOf(t, env), TypeOf(f, env);
      if TypeOf(c, env) == Some(Bool) && tt.Some? && tf.Some? then Join(tt.value, tf.value) else None
    case RLet(x, value, body) =>
      var t := TypeOf(value, env);
      if t.Some? then TypeOf(body, env[x := LetType(t.value)]) else None
    case RFloat(_) | RField(_, _) => None
  }

  /** A `wrapping_*` receiver must have a known integer type, and the argument that same type. */
  function WrapType(m: string, recv: Option<Ty>, arg: Option<Ty>): Option<Ty> {
    if WrapMethod(m).Some? && recv.Some? && arg.Some? && recv.value.IsConcreteInteger()
       && Join(recv.value, arg.value) == recv
    then recv else None
  }

  function NegType(t: Option<Ty>): Option<Ty> {
    if t.Some? && t.value.IsSigned() then Some(if t.value.Lit? then SLit else t.value) else None
  }

  // ----- Evaluation -----

  function ArithOp(op: BinOp, a: int, b: int): int
    requires op.CanWrap()
  {
    match op case Add => a + b case Sub => a - b case Mul => a * b
  }

  function CompareOp(op: BinOp, a: int, b: int): bool
    requires op.IsComparison()
  {
    match op
    case Eq => a == b
    case Neq => a != b
    case Lt => a < b
    case Lte => a <= b
    case Gt => a > b
    case Gte => a >= b
  }

  /** The result if it fits the type, otherwise an overflow panic. */
  function Checked(t: Ty, i: int): Outcome {
    if InRange(t, i) then Val(IntV(i)) else Panic
  }

  /** `+ - * / %` on one integer type. */
  function EvalArith(op: BinOp, t: Ty, a: int, b: int): Outcome
    requires op.IsArithmetic()
  {
    if op.CanWrap() then Checked(t, ArithOp(op, a, b))
    else if b == 0 || !InRange(t, TruncDiv(a, b)) then Panic
    else Val(IntV(if op.Div? then TruncDiv(a, b) else TruncMod(a, b)))
  }

  function AsInt(v: Value): int {
    match v case IntV(i) => i case BoolV(b) => (if b then 1 else 0) case BytesV(n) => n
  }

  /** Operators that evaluate both operands first. */
  function EvalBin(op: BinOp, t: Ty, l: Outcome, r: Outcome): Outcome {
    if l.Stuck? || r.Stuck? then Stuck
    else if l.Panic? || r.Panic? then Panic
    else if op.IsArithmetic() then EvalArith(op, t, AsInt(l.v), AsInt(r.v))
    else if op.IsComparison() then Val(BoolV(CompareOp(op, AsInt(l.v), AsInt(r.v))))
    else Stuck
  }

  function Eval(e: Tree, env: TyEnv, s: Store): Outcome
    decreases e
  {
    var ty := TypeOf(e, env);
    if ty.None? then Stuck else
    match e
    case RVar(x) => if x in s then Val(s[x]) else Stuck
    case RNum(n, _) => Val(IntV(n))
    case RTruth(b) => Val(BoolV(b))
    case RMethod0(recv, _) =>
      var r := Eval(recv, env, s);
      if r.Val? then Val(IntV(AsInt(r.v))) else r
    case RMethod1(recv, m, arg) => EvalWrap(m, ty.value, Eval(recv, env, s), Eval(arg, env, s))
    case RWiden(arg) =>
      var r := Eval(arg, env, s);
      if r.Val? then Val(IntV(AsInt(r.v))) else r
    case RNeg(arg) =>
      var r := Eval(arg, env, s);
      if r.Val? then Checked(ty.value, -AsInt(r.v)) else r
    case RNot(arg) =>
      var r := Eval(arg, env, s);
      if r.Val? && r.v.BoolV? then Val(BoolV(!r.v.b)) else if r.Val? then Stuck else r
    case RAs(arg, _) =>
      var r := Eval(arg, env, s);
      if r.Val? then Val(IntV(Wrap(ty.value, AsInt(r.v)))) else r
    case RBin(op, l, r) =>
      if op.IsArithmetic() || op.IsComparison() then
        EvalBin(op, ty.value, Eval(l, env, s), Eval(r, env, s))
      else
        var vl := Eval(l, env, s);
        if vl == Val(BoolV(op.And?)) then Eval(r, env, s) else vl
    case RIf(c, t, f) =>
      var vc := Eval(c, env, s);
      if vc == Val(BoolV(true)) then Eval(t, env, s)
      else if vc == Val(BoolV(false)) then Eval(f, env, s)
      else if vc.Val? then Stuck else vc
    case RLet(x, value, body) =>
      var r := Eval(value, env, s);
      var t := TypeOf(value, env);
      if r.Val? then Eval(body, env[x := LetType(t.value)], s[x := r.v]) else r
    case RFloat(_) | RField(_, _) => Stuck
  }

  function EvalWrap(m: string, t: Ty, l: Outcome, r: Outcome): Outcome
    requires WrapMethod(m).Some?
  {
    if l.Stuck? || r.Stuck? then Stuck
    else if l.Panic? || r.Panic? then Panic
    else Val(IntV(Wrap(t, ArithOp(WrapMethod(m).value, AsInt(l.v), AsInt(r.v)))))
  }

  /** `v` is a value of type `t`. A byte string is never longer than `isize::MAX`. */
  predicate HasType(v: Value, t: Ty) {
    match t
    case Bool => v.BoolV?
    case Bytes => v.BytesV? && v.len <= Max(I64)
    case _ => v.IntV? && InRange(t, v.i)
  }

  predicate StoreTyped(s: Store, env: TyEnv) {
    forall x :: x in env ==> x in s && HasType(s[x], env[x])
  }
}
