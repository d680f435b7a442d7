/**
 * What a contract expression means, said on the source and its declared types: sums of
 * two Ints or two Nats wrap at 64 bits, all other arithmetic is exact, and running out of
 * `i128`, dividing by zero or negating a minimum panics. The emitted Rust computes
 * exactly this.
 */
module Meanings {
  import opened Ast
  import opened Numeric
  import opened RustSyntax
  import opened RustSemantics
  import opened Emitter
  import opened Folder
  import opened Widths
  import opened Sources
  import opened Kinds
  import opened Soundness

  function Meaning(e: Expr, renameResult: bool, env: TyEnv, s: Store): Outcome {
    match e
    case Ident(x) => Lookup(RustName(x, renameResult), s)
    case IntLit(n) => Val(IntV(n))
    case BoolLit(b) => Val(BoolV(b))
    case FloatLit(_) | Field(_, _) => Stuck
    case Length(r) => ThenInt(Meaning(r, renameResult, env, s))
    case Unary(uop, inner) =>
      var r := Meaning(inner, renameResult, env, s);
      var t := SourceType(e, renameResult, env);
      if uop.Not? then (if r.Val? then Val(BoolV(r.v != BoolV(true))) else r)
      else if r.Val? && t.Some? then Checked(t.value, -AsInt(r.v)) else r
    case Old(inner) =>
      if !inner.Ident? then Stuck
      else if renameResult then Lookup(OLD_VAR_PREFIX + inner.name, s) else Lookup(inner.name, s)
    case Cast(inner, ty) =>
      var r := Meaning(inner, renameResult, env, s);
      if r.Val? then Val(IntV(Wrap(if ty == "Int" then I64 else U64, AsInt(r.v)))) else r
    case Let(x, value, body) =>
      var r := Meaning(value, renameResult, env, s);
      var t := SourceType(value, renameResult, env);
      if r.Val? && t.Some? then Meaning(body, renameResult, env[x := LetType(t.value)], s[x := r.v]) else r
    case If(c, t, f) =>
      Choose(Meaning(c, renameResult, env, s), Meaning(t, renameResult, env, s), Meaning(f, renameResult, env, s))
    case Binary(op, l, r) =>
      var rl, rr := Meaning(l, renameResult, env, s), Meaning(r, renameResult, env, s);
      if op.And? then (if rl == Val(BoolV(true)) then rr else rl)
      else if op.Or? then (if rl == Val(BoolV(false)) then rr else rl)
      else if op.Implies? then
        (if rl == Val(BoolV(true)) then rr else if rl == Val(BoolV(false)) then Val(BoolV(true)) else rl)
      else Strict(op, SourceType(e, renameResult, env), rl, rr)
  }

  function Choose(c: Outcome, t: Outcome, f: Outcome): Outcome {
    if c == Val(BoolV(true)) then t
    else if c == Val(BoolV(false)) then f
    else if c.Val? then Stuck else c
  }

  function Lookup(name: string, s: Store): Outcome {
    if name in s then Val(s[name]) else Stuck
  }

  function ThenInt(r: Outcome): Outcome {
    if r.Val? then Val(IntV(AsInt(r.v))) else r
  }

  /** Operators that need both operands: comparisons are on integers, sums wrap at a 64-bit width. */
  function Strict(op: BinOp, w: Option<Ty>, l: Outcome, r: Outcome): Outcome {
    if l.Stuck? || r.Stuck? || w.None? then Stuck
    else if l.Panic? || r.Panic? then Panic
    else if op.IsComparison() then Val(BoolV(CompareOp(op, AsInt(l.v), AsInt(r.v))))
    else if !op.IsArithmetic() then Stuck
    else if op.CanWrap() && Is64(w.value) then Val(IntV(Wrap(w.value, ArithOp(op, AsInt(l.v), AsInt(r.v)))))
    else EvalArith(op, I128, AsInt(l.v), AsInt(r.v))
  }

  ghost predicate Sound(r: Outcome, t: Ty) {
    r.Panic? || (r.Val? && HasType(r.v, t))
  }

  /** A meaning is never stuck, and its value has the source type. */
  lemma {:induction false} MeaningIsTyped(e: Expr, renameResult: bool, env: TyEnv, s: Store)
    requires SourceType(e, renameResult, env).Some? && StoreTyped(s, env)
    ensures Sound(Meaning(e, renameResult, env, s), SourceType(e, renameResult, env).value)
    decreases e
  {
    hide OperatorType, IfType, Strict, Wrap;
    match e
    case Ident(_) | IntLit(_) | BoolLit(_) | FloatLit(_) | Field(_, _) | Old(_) =>
    case Length(inner) =>
      MeaningIsTyped(inner, renameResult, env, s);
      OneOperandIsSound(e, inner, renameResult, env, s);
    case Unary(_, inner) =>
      MeaningIsTyped(inner, renameResult, env, s);
      OneOperandIsSound(e, inner, renameResult, env, s);
    case Cast(inner, _) =>
      MeaningIsTyped(inner, renameResult, env, s);
      OneOperandIsSound(e, inner, renameResult, env, s);
    case Let(x, value, body) =>
      MeaningIsTyped(value, renameResult, env, s);
      var r, t := Meaning(value, renameResult, env, s), SourceType(value, renameResult, env).value;
      if r.Val? { MeaningIsTyped(body, renameResult, env[x := LetType(t)], s[x := r.v]); }
    case If(c, t, f) =>
      MeaningIsTyped(c, renameResult, env, s);
      MeaningIsTyped(t, renameResult, env, s);
      MeaningIsTyped(f, renameResult, env, s);
      ChooseIsSound(Meaning(c, renameResult, env, s), Meaning(t, renameResult, env, s), Meaning(f, renameResult, env, s),
                    SourceType(t, renameResult, env).value, SourceType(f, renameResult, env).value);
    case Binary(op, l, r) =>
      MeaningIsTyped(l, renameResult, env, s);
      MeaningIsTyped(r, renameResult, env, s);
      OperatorIsSound(op, l, r, renameResult, env, s);
  }

  lemma OneOperandIsSound(e: Expr, inner: Expr, renameResult: bool, env: TyEnv, s: Store)
    requires match e case Length(r) => r == inner case Unary(_, o) => o == inner case Cast(o, _) => o == inner case _ => false
    requires SourceType(e, renameResult, env).Some?
    requires Sound(Meaning(inner, renameResult, env, s), SourceType(inner, renameResult, env).value)
    ensures Sound(Meaning(e, renameResult, env, s), SourceType(e, renameResult, env).value)
  {
    hide OperatorType, IfType, Strict, Wrap, NameWidth, OldWidth;
  }

  lemma ChooseIsSound(c: Outcome, t: Outcome, f: Outcome, tt: Ty, tf: Ty)
    requires IfType(tt, tf).Some? && Sound(c, Bool) && Sound(t, tt) && Sound(f, tf)
    requires (Widenable(tt) || tt.Bytes?) && (Widenable(tf) || tf.Bytes?)
    ensures Sound(Choose(c, t, f), IfType(tt, tf).value)
  {
  }

  lemma OperatorIsSound(op: BinOp, l: Expr, r: Expr, renameResult: bool, env: TyEnv, s: Store)
    requires SourceType(Binary(op, l, r), renameResult, env).Some?
    requires Sound(Meaning(l, renameResult, env, s), SourceType(l, renameResult, env).value)
    requires Sound(Meaning(r, renameResult, env, s), SourceType(r, renameResult, env).value)
    ensures Sound(Meaning(Binary(op, l, r), renameResult, env, s), SourceType(Binary(op, l, r), renameResult, env).value)
  {
    hide Wrap, Meaning, Strict, OperatorType;
    var tl, tr := SourceType(l, renameResult, env).value, SourceType(r, renameResult, env).value;
    OperatorTypeIs(op, tl, tr);
    OperatorMeaning(op, l, r, renameResult, env, s);
    if op.IsArithmetic() || op.IsComparison() {
      var t := OperatorType(op, tl, tr).value;
      StrictIsSound(op, t, Meaning(l, renameResult, env, s), Meaning(r, renameResult, env, s), tl, tr);
    }
  }

  lemma OperatorTypeIs(op: BinOp, l: Ty, r: Ty)
    requires OperatorType(op, l, r).Some? && (Widenable(l) || l.Bytes?) && (Widenable(r) || r.Bytes?)
    ensures if op.IsArithmetic() then var t := OperatorType(op, l, r).value; t.I128? || (Is64(t) && op.CanWrap())
      else OperatorType(op, l, r) == Some(Bool)
    ensures op.IsArithmetic() || op.IsComparison() ==> Widenable(l) && Widenable(r)
    ensures !op.IsArithmetic() && !op.IsComparison() ==> l.Bool? && r.Bool?
  {
  }

  /** One step of `Meaning`. */
  lemma OperatorMeaning(op: BinOp, l: Expr, r: Expr, renameResult: bool, env: TyEnv, s: Store)
    ensures var rl, rr := Meaning(l, renameResult, env, s), Meaning(r, renameResult, env, s);
      Meaning(Binary(op, l, r), renameResult, env, s) ==
      if op.And? then (if rl == Val(BoolV(true)) then rr else rl)
      else if op.Or? then (if rl == Val(BoolV(false)) then rr else rl)
      else if op.Implies? then
        (if rl == Val(BoolV(true)) then rr else if rl == Val(BoolV(false)) then Val(BoolV(true)) else rl)
      else Strict(op, SourceType(Binary(op, l, r), renameResult, env), rl, rr)
  {
    hide Strict, SourceType;
  }

  lemma StrictIsSound(op: BinOp, t: Ty, l: Outcome, r: Outcome, tl: Ty, tr: Ty)
    requires op.IsArithmetic() || op.IsComparison()
    requires Sound(l, tl) && Sound(r, tr) && Widenable(tl) && Widenable(tr)
    requires if op.IsComparison() then t.Bool? else t.I128? || (Is64(t) && op.CanWrap())
    ensures Sound(Strict(op, Some(t), l, r), t)
  {
    hide Wrap, TruncDiv, TruncMod;
    if op.IsArithmetic() && l.Val? && r.Val? && AsInt(r.v) != 0 {
      RemainderInRange(AsInt(l.v), AsInt(r.v));
    }
  }

  lemma RemainderInRange(a: int, b: int)
    requires b != 0
    ensures InRange(I128, a) ==> InRange(I128, TruncMod(a, b))
  {
    TruncModSize(a, b);
  }

  // ----- The emitted code computes the meaning -----

  /** Running the emitted expression gives the meaning of its source, panics included. */
  lemma EmittedComputesMeaning(e: Expr, v: Vars, env: TyEnv, hidden: set<string>, names: set<string>, s: Store)
    requires Compilable(e, v, env, hidden, names) && StoreTyped(s, env)
    ensures TypeOf(Intended(e, v), env) == SourceType(e, v.renameResult, env)
    ensures Eval(Intended(e, v), env, s) == Meaning(e, v.renameResult, env, s)
  {
    hide Eval, TypeOf, Intended, Meaning, Text, MachineKind, Supported, Recorded, NoShadow;
    CompilableComputes(e, v, env, hidden, names, s);
  }

  lemma {:induction false} CompilableComputes(e: Expr, v: Vars, env: TyEnv, hidden: set<string>, names: set<string>, s: Store)
    requires Compilable(e, v, env, hidden, names) && StoreTyped(s, env)
    ensures Computes(e, v, env, s)
    decreases e
  {
    hide Eval, TypeOf, Intended, Meaning, Text, MachineKind, Recorded, KindVisible, IfAgrees, SumAgrees, OperatorType, IfType;
    SourceTypeIsEmitted(e, v, env, hidden, names);
    MeaningIsTyped(e, v.renameResult, env, s);
    match e
    case Ident(_) | IntLit(_) | BoolLit(_) | FloatLit(_) | Field(_, _) | Old(_) => LeafComputes(e, v, env, s);
    case Length(r) =>
      CompilableComputes(r, v, env, hidden, names, s);
      LengthComputes(r, v, env, s);
    case Unary(uop, inner) =>
      CompilableComputes(inner, v, env, hidden, names, s);
      UnaryComputes(uop, inner, v, env, s);
    case Cast(inner, ty) =>
      CompilableComputes(inner, v, env, hidden, names, s);
      CastComputes(inner, ty, v, env, s);
    case Let(x, value, body) =>
      var v', t := Bind(x, value, v), SourceType(value, v.renameResult, env).value;
      var env' := env[x := LetType(t)];
      TypedHasNoFloats(value, v.renameResult, env);
      KindIs(value, v, env, hidden, names + {x});
      LetTracked(x, value, t, v, env, hidden, names);
      CompilableComputes(value, v', env, hidden, names + {x}, s);
      var r := Meaning(value, v.renameResult, env, s);
      if r.Val? { CompilableComputes(body, v', env', LetHidden(x, value, hidden), names + {x}, s[x := r.v]); }
      LetComputes(x, value, body, v, env, s);
    case If(c, t, f) =>
      CompilableComputes(c, v, env, hidden, names, s);
      CompilableComputes(t, v, env, hidden, names, s);
      CompilableComputes(f, v, env, hidden, names, s);
      IfComputes(c, t, f, v, env, s);
    case Binary(op, l, r) =>
      CompilableComputes(l, v, env, hidden, names, s);
      CompilableComputes(r, v, env, hidden, names, s);
      BinaryComputes(op, l, r, v, env, s);
  }

  /** `e` is typed, its emitted code runs as it means, and the meaning has its type. */
  ghost predicate Computes(e: Expr, v: Vars, env: TyEnv, s: Store) {
    && Typed(e, v, env)
    && Eval(Intended(e, v), env, s) == Meaning(e, v.renameResult, env, s)
    && Sound(Meaning(e, v.renameResult, env, s), Width(e, v, env).value)
  }

  ghost predicate Typed(e: Expr, v: Vars, env: TyEnv) {
    && Width(e, v, env).Some?
    && TypeOf(Intended(e, v), env) == Width(e, v, env) == SourceType(e, v.renameResult, env)
  }

  lemma LeafComputes(e: Expr, v: Vars, env: TyEnv, s: Store)
    requires e.Ident? || e.IntLit? || e.BoolLit? || e.FloatLit? || e.Field? || e.Old?
    requires Typed(e, v, env) && StoreTyped(s, env)
    ensures Eval(Intended(e, v), env, s) == Meaning(e, v.renameResult, env, s)
  {
  }

  lemma UnaryComputes(uop: UnaryOp, inner: Expr, v: Vars, env: TyEnv, s: Store)
    requires Computes(inner, v, env, s) && Typed(Unary(uop, inner), v, env)
    ensures Eval(Intended(Unary(uop, inner), v), env, s) == Meaning(Unary(uop, inner), v.renameResult, env, s)
  {
  }

  lemma CastComputes(inner: Expr, ty: string, v: Vars, env: TyEnv, s: Store)
    requires Computes(inner, v, env, s) && Typed(Cast(inner, ty), v, env)
    ensures Eval(Intended(Cast(inner, ty), v), env, s) == Meaning(Cast(inner, ty), v.renameResult, env, s)
  {
    hide Wrap, MapTypeToken;
  }

  lemma LetComputes(x: string, value: Expr, body: Expr, v: Vars, env: TyEnv, s: Store)
    requires Typed(Let(x, value, body), v, env) && Computes(value, Bind(x, value, v), env, s)
    requires var r, w := Meaning(value, v.renameResult, env, s), Width(value, Bind(x, value, v), env).value;
      r.Val? ==> Computes(body, Bind(x, value, v), env[x := LetType(w)], s[x := r.v])
    ensures Eval(Intended(Let(x, value, body), v), env, s) == Meaning(Let(x, value, body), v.renameResult, env, s)
  {
    hide MachineKind, HasFloat, Width;
  }

  lemma LengthComputes(r: Expr, v: Vars, env: TyEnv, s: Store)
    requires Computes(r, v, env, s) && Typed(Length(r), v, env)
    ensures Eval(Intended(Length(r), v), env, s) == Meaning(Length(r), v.renameResult, env, s)
  {
    hide Wrap;
    var m := Meaning(r, v.renameResult, env, s);
    if m.Val? { WrapInRange(U64, m.v.len); }
  }

  lemma IfComputes(c: Expr, t: Expr, f: Expr, v: Vars, env: TyEnv, s: Store)
    requires v.floats == {} && Typed(If(c, t, f), v, env)
    requires Computes(c, v, env, s) && Computes(t, v, env, s) && Computes(f, v, env, s)
    ensures Eval(Intended(If(c, t, f), v), env, s) == Meaning(If(c, t, f), v.renameResult, env, s)
  {
    hide Text, HasInnerI128, Normalises, TypeOf, BranchTree, Eval, Width, Intended, Meaning, SourceType, Sound;
    var n := Normalises(t, f, Text(t, v), Text(f, v), v.floats);
    IfTree(c, t, f, v);
    IfMeaning(c, t, f, v.renameResult, env, s);
    WidenedBranchIsInteger(c, t, f, v, env);
    BranchComputes(t, n, v, env, s);
    BranchComputes(f, n, v, env, s);
    IfEval(Intended(c, v), BranchTree(t, n, v), BranchTree(f, n, v), env, s);
  }

  /** One step of `Meaning`. */
  lemma IfMeaning(c: Expr, t: Expr, f: Expr, renameResult: bool, env: TyEnv, s: Store)
    ensures Meaning(If(c, t, f), renameResult, env, s)
         == Choose(Meaning(c, renameResult, env, s), Meaning(t, renameResult, env, s), Meaning(f, renameResult, env, s))
  {
    hide Choose, SourceType, Strict, Wrap, Lookup, Checked;
  }

  lemma IfEval(c: Tree, t: Tree, f: Tree, env: TyEnv, s: Store)
    requires TypeOf(RIf(c, t, f), env).Some?
    ensures Eval(RIf(c, t, f), env, s) == Choose(Eval(c, env, s), Eval(t, env, s), Eval(f, env, s))
  {
    hide TypeOf, Wrap, EvalBin, EvalWrap, Checked;
  }

  lemma WidenedBranchIsInteger(c: Expr, t: Expr, f: Expr, v: Vars, env: TyEnv)
    requires Width(If(c, t, f), v, env).Some?
    ensures var n := Normalises(t, f, Text(t, v), Text(f, v), v.floats);
      && !Width(t, v, env).value.Bytes? && !Width(f, v, env).value.Bytes?
      && (n && !HasInnerI128(Text(t, v)) ==> Width(t, v, env).value.IsInteger())
      && (n && !HasInnerI128(Text(f, v)) ==> Width(f, v, env).value.IsInteger())
  {
    hide Text, HasInnerI128, IsNumeric, HasFloat;
  }

  lemma BranchComputes(e: Expr, n: bool, v: Vars, env: TyEnv, s: Store)
    requires Computes(e, v, env, s) && !Width(e, v, env).value.Bytes?
    requires n && !HasInnerI128(Text(e, v)) ==> Width(e, v, env).value.IsInteger()
    ensures Eval(BranchTree(e, n, v), env, s) == Meaning(e, v.renameResult, env, s)
  {
    hide Text, HasInnerI128;
    BranchTyped(e, n, v, env);
  }

  lemma BinaryComputes(op: BinOp, l: Expr, r: Expr, v: Vars, env: TyEnv, s: Store)
    requires v.floats == {} && Typed(Binary(op, l, r), v, env)
    requires Computes(l, v, env, s) && Computes(r, v, env, s)
    ensures Eval(Intended(Binary(op, l, r), v), env, s) == Meaning(Binary(op, l, r), v.renameResult, env, s)
  {
    hide HasFloat, HasU128Literal, IsNumeric, MachineKind, SharedKind, FormOf, Text, Strict, Eval, TypeOf, SourceType, Meaning, Sound;
    WidthForm(op, l, r, v, env);
    OperatorMeaning(op, l, r, v.renameResult, env, s);
    var w := Width(Binary(op, l, r), v, env);
    match FormOf(op, l, r, v)
    case WrapForm(kind) =>
      if Swaps(op, l, r) {
        WrapComputes(op, r, l, kind, v, env, s);
        StrictCommutes(op, w, Meaning(l, v.renameResult, env, s), Meaning(r, v.renameResult, env, s));
      } else {
        WrapComputes(op, l, r, kind, v, env, s);
      }
    case WidenForm => WidenComputes(op, l, r, w, v, env, s);
    case _ => LogicComputes(op, l, r, v, env, s);
  }

  lemma StrictCommutes(op: BinOp, w: Option<Ty>, l: Outcome, r: Outcome)
    requires op.Commutes()
    ensures Strict(op, w, l, r) == Strict(op, w, r, l)
  {
  }

  lemma ReceiverComputes(e: Expr, kind: Kind, v: Vars, env: TyEnv, s: Store)
    requires Computes(e, v, env, s)
    requires Width(e, v, env) == Some(KindType(kind)) || (IsBareLiteral(e) && Join(KindType(kind), Width(e, v, env).value) == Some(KindType(kind)))
    ensures Eval(ReceiverTree(e, kind, v), env, s) == Meaning(e, v.renameResult, env, s)
  {
    ReceiverTyped(e, kind, v, env);
  }

  lemma WrapComputes(op: BinOp, recv: Expr, arg: Expr, kind: Kind, v: Vars, env: TyEnv, s: Store)
    requires op.CanWrap() && Computes(recv, v, env, s) && Computes(arg, v, env, s)
    requires WrapWidth(recv, Width(recv, v, env).value, Width(arg, v, env).value, kind).Some?
    ensures Eval(RMethod1(ReceiverTree(recv, kind, v), WrapMethodName(op), Intended(arg, v)), env, s)
         == Strict(op, Some(KindType(kind)), Meaning(recv, v.renameResult, env, s), Meaning(arg, v.renameResult, env, s))
  {
    hide Wrap, Intended, ReceiverTree, Width, Meaning, TypeOf, SourceType, Eval, IsBareLiteral, Strict;
    WrapTyped(op, recv, arg, kind, v, env);
    ReceiverComputes(recv, kind, v, env, s);
    WrapEval(op, ReceiverTree(recv, kind, v), Intended(arg, v), kind, env, s);
  }

  lemma WrapEval(op: BinOp, recv: Tree, arg: Tree, kind: Kind, env: TyEnv, s: Store)
    requires op.CanWrap() && TypeOf(RMethod1(recv, WrapMethodName(op), arg), env) == Some(KindType(kind))
    ensures Eval(RMethod1(recv, WrapMethodName(op), arg), env, s)
         == Strict(op, Some(KindType(kind)), Eval(recv, env, s), Eval(arg, env, s))
  {
    hide Wrap, WrapMethodName, TypeOf;
    WrapNames(op);
  }

  lemma WidenComputes(op: BinOp, l: Expr, r: Expr, w: Option<Ty>, v: Vars, env: TyEnv, s: Store)
    requires Computes(l, v, env, s) && Computes(r, v, env, s)
    requires op.IsArithmetic() || op.IsComparison()
    requires !Width(l, v, env).value.Bytes? && !Width(r, v, env).value.Bytes?
    requires w == Some(if op.IsArithmetic() then I128 else Bool)
    ensures Eval(RBin(op, RWiden(Intended(l, v)), RWiden(Intended(r, v))), env, s)
         == Strict(op, w, Meaning(l, v.renameResult, env, s), Meaning(r, v.renameResult, env, s))
  {
    hide Intended, Width, Meaning, EvalArith, CompareOp, TypeOf, Eval;
    WidenEval(l, v, env, s);
    WidenEval(r, v, env, s);
    BinEval(op, RWiden(Intended(l, v)), RWiden(Intended(r, v)), env, s);
  }

  lemma WidenEval(e: Expr, v: Vars, env: TyEnv, s: Store)
    requires Computes(e, v, env, s) && !Width(e, v, env).value.Bytes?
    ensures TypeOf(RWiden(Intended(e, v)), env) == Some(I128)
    ensures Eval(RWiden(Intended(e, v)), env, s) == ThenInt(Meaning(e, v.renameResult, env, s))
  {
    WidenTyped(e, v, env);
  }

  lemma BinEval(op: BinOp, l: Tree, r: Tree, env: TyEnv, s: Store)
    requires op.IsArithmetic() || op.IsComparison()
    requires TypeOf(l, env) == TypeOf(r, env) == Some(I128)
    ensures Eval(RBin(op, l, r), env, s)
         == EvalBin(op, if op.IsArithmetic() then I128 else Bool, Eval(l, env, s), Eval(r, env, s))
  {
  }

  lemma LogicComputes(op: BinOp, l: Expr, r: Expr, v: Vars, env: TyEnv, s: Store)
    requires Computes(l, v, env, s) && Computes(r, v, env, s) && !op.IsArithmetic()
    requires Width(l, v, env) == Width(r, v, env) == Some(Bool)
    requires Width(Binary(op, l, r), v, env) == SourceType(Binary(op, l, r), v.renameResult, env) == Some(Bool)
    requires if op.Implies? then FormOf(op, l, r, v).ImpliesForm? else FormOf(op, l, r, v).PlainForm?
    requires TypeOf(Intended(Binary(op, l, r), v), env) == Some(Bool)
    ensures Eval(Intended(Binary(op, l, r), v), env, s) == Meaning(Binary(op, l, r), v.renameResult, env, s)
  {
    hide FormOf, Text, Width, Meaning, Eval, Intended, TypeOf;
    OperatorMeaning(op, l, r, v.renameResult, env, s);
    LogicTree(op, l, r, v);
    if op.Implies? {
      NotEval(Intended(l, v), env, s);
      LogicEval(Or, RNot(Intended(l, v)), Intended(r, v), env, s);
    } else {
      LogicEval(op, Intended(l, v), Intended(r, v), env, s);
    }
  }

  lemma LogicTree(op: BinOp, l: Expr, r: Expr, v: Vars)
    requires if op.Implies? then FormOf(op, l, r, v).ImpliesForm? else FormOf(op, l, r, v).PlainForm?
    ensures Intended(Binary(op, l, r), v)
         == if op.Implies? then RBin(Or, RNot(Intended(l, v)), Intended(r, v)) else RBin(op, Intended(l, v), Intended(r, v))
  {
    hide FormOf, Text;
  }

  lemma NotEval(e: Tree, env: TyEnv, s: Store)
    requires TypeOf(e, env) == Some(Bool) && Sound(Eval(e, env, s), Bool)
    ensures TypeOf(RNot(e), env) == Some(Bool)
    ensures Eval(RNot(e), env, s) == if Eval(e, env, s).Val? then Val(BoolV(!Eval(e, env, s).v.b)) else Panic
  {
    hide Wrap, EvalWrap, EvalBin, Checked;
  }

  lemma LogicEval(op: BinOp, l: Tree, r: Tree, env: TyEnv, s: Store)
    requires !op.IsArithmetic() && !op.Implies? && TypeOf(l, env) == TypeOf(r, env) == Some(Bool)
    requires Sound(Eval(l, env, s), Bool) && Sound(Eval(r, env, s), Bool)
    ensures var rl, rr := Eval(l, env, s), Eval(r, env, s);
      Eval(RBin(op, l, r), env, s)
      == if op.And? then (if rl == Val(BoolV(true)) then rr else rl)
         else if op.Or? then (if rl == Val(BoolV(false)) then rr else rl)
         else Strict(op, Some(Bool), rl, rr)
  {
    hide Wrap, EvalWrap, Checked, EvalArith, CompareOp, TypeOf;
    LogicType(op, l, r, env);
  }

  lemma LogicType(op: BinOp, l: Tree, r: Tree, env: TyEnv)
    requires !op.IsArithmetic() && TypeOf(l, env) == TypeOf(r, env) == Some(Bool)
    ensures TypeOf(RBin(op, l, r), env) == Some(Bool)
  {
  }
}
