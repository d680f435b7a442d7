/**
 * Type soundness over the declared types: the code emitted for a supported expression has
 * the type its source has, and an expression is supported exactly when each of its sums
 * and `if`s keeps its type.
 */
module Soundness {
  import opened Ast
  import opened Numeric
  import opened RustSyntax
  import opened RustSemantics
  import opened Emitter
  import opened Folder
  import opened Widths
  import opened Sources
  import opened Kinds
  import opened Branches

  /** The folder's type for `e` is the source's, and its text test answers what the source says. */
  ghost predicate Agrees(e: Expr, v: Vars, env: TyEnv) {
    && Width(e, v, env).Some?
    && Width(e, v, env) == SourceType(e, v.renameResult, env)
    && (MentionsI128(e, v) <==> Widens(e, v.renameResult, env))
  }

  lemma {:induction false} CompilableAgrees(e: Expr, v: Vars, env: TyEnv, hidden: set<string>, names: set<string>)
    requires Compilable(e, v, env, hidden, names)
    ensures Agrees(e, v, env)
    decreases e
  {
    hide Agrees, Recorded, MachineKind, KindVisible, OperatorType, IfType, SumAgrees, IfAgrees, HasFloat;
    match e
    case Ident(_) | IntLit(_) | BoolLit(_) | FloatLit(_) | Field(_, _) | Old(_) => LeafAgrees(e, v, env);
    case Length(inner) =>
      CompilableAgrees(inner, v, env, hidden, names);
      OneOperandAgrees(e, inner, v, env);
    case Unary(_, inner) =>
      CompilableAgrees(inner, v, env, hidden, names);
      OneOperandAgrees(e, inner, v, env);
    case Cast(inner, _) =>
      CompilableAgrees(inner, v, env, hidden, names);
      OneOperandAgrees(e, inner, v, env);
    case If(c, t, f) =>
      CompilableAgrees(c, v, env, hidden, names);
      CompilableAgrees(t, v, env, hidden, names);
      CompilableAgrees(f, v, env, hidden, names);
      IfNodeAgrees(c, t, f, v, env);
    case Let(x, value, body) =>
      var t := SourceType(value, v.renameResult, env).value;
      TypedHasNoFloats(value, v.renameResult, env);
      KindIs(value, v, env, hidden, names + {x});
      LetTracked(x, value, t, v, env, hidden, names);
      CompilableAgrees(value, Bind(x, value, v), env, hidden, names + {x});
      CompilableAgrees(body, Bind(x, value, v), env[x := LetType(t)], LetHidden(x, value, hidden), names + {x});
      LetAgrees(x, value, body, v, env);
    case Binary(op, l, r) =>
      CompilableAgrees(l, v, env, hidden, names);
      CompilableAgrees(r, v, env, hidden, names);
      OperandTypes(op, l, r, v, env);
      SumDecision(op, l, r, v, env, hidden, names);
      BinaryAgrees(op, l, r, v, env);
  }

  lemma LeafAgrees(e: Expr, v: Vars, env: TyEnv)
    requires e.Ident? || e.IntLit? || e.BoolLit? || e.FloatLit? || e.Field? || e.Old?
    requires SourceType(e, v.renameResult, env).Some?
    ensures Agrees(e, v, env)
  {
    hide Contains;
    if e.Old? {
      assert MentionsI128(e.inner, v) == Widens(e.inner, v.renameResult, env);
    }
  }

  lemma OneOperandAgrees(e: Expr, inner: Expr, v: Vars, env: TyEnv)
    requires match e case Length(r) => r == inner case Unary(_, o) => o == inner case Cast(o, _) => o == inner case _ => false
    requires Agrees(inner, v, env) && SourceType(e, v.renameResult, env).Some?
    ensures Agrees(e, v, env)
  {
    hide Contains;
    if e.Cast? {
      OwnNamesAreSilent("u64");
      NoI64Name();
    }
  }

  lemma NoI64Name()
    ensures !Contains("i64", "_i128")
  {
    if Contains("i64", "_i128") { ContainsChar("i64", "_i128", '1'); }
  }

  lemma LetAgrees(x: string, value: Expr, body: Expr, v: Vars, env: TyEnv)
    requires Agrees(value, Bind(x, value, v), env)
    requires SourceType(Let(x, value, body), v.renameResult, env).Some?
    requires var t := SourceType(value, v.renameResult, env).value;
      Agrees(body, Bind(x, value, v), env[x := LetType(t)])
    ensures Agrees(Let(x, value, body), v, env)
  {
    hide Contains, MachineKind, HasFloat;
  }

  lemma IfNodeAgrees(c: Expr, t: Expr, f: Expr, v: Vars, env: TyEnv)
    requires v.floats == {} && Agrees(c, v, env) && Agrees(t, v, env) && Agrees(f, v, env)
    requires SourceType(If(c, t, f), v.renameResult, env).Some? && IfAgrees(t, f, v.renameResult, env)
    ensures Agrees(If(c, t, f), v, env)
  {
    hide Text, HasInnerI128, Contains, IsNumeric, HasFloat;
    NormalisesIs(t, f, v, env);
  }

  /** The folder normalises exactly the branches that the source says. */
  lemma NormalisesIs(t: Expr, f: Expr, v: Vars, env: TyEnv)
    requires v.floats == {} && Agrees(t, v, env) && Agrees(f, v, env)
    ensures Normalises(t, f, Text(t, v), Text(f, v), v.floats) == Normalised(t, f, v.renameResult, env)
    ensures HasInnerI128(Text(t, v)) == Widens(t, v.renameResult, env)
    ensures HasInnerI128(Text(f, v)) == Widens(f, v.renameResult, env)
  {
    hide Text, HasInnerI128, IsNumeric, HasFloat, Agrees, Widens;
    TestAgrees(t, v, env);
    TestAgrees(f, v, env);
  }

  lemma TestAgrees(e: Expr, v: Vars, env: TyEnv)
    requires v.floats == {} && Agrees(e, v, env)
    ensures HasInnerI128(Text(e, v)) == Widens(e, v.renameResult, env) && !HasFloat(e, v.floats)
  {
    hide Text, HasInnerI128, HasFloat, HasU128Literal, Width, SourceType, MentionsI128, Widens;
    InnerTest(e, v);
    TypedHasNoFloats(e, v.renameResult, env);
  }

  lemma OperandTypes(op: BinOp, l: Expr, r: Expr, v: Vars, env: TyEnv)
    requires Agrees(l, v, env) && Agrees(r, v, env) && SourceType(Binary(op, l, r), v.renameResult, env).Some?
    ensures Width(l, v, env).Some? && Width(r, v, env).Some?
    ensures SourceType(Binary(op, l, r), v.renameResult, env) == OperatorType(op, Width(l, v, env).value, Width(r, v, env).value)
  {
  }

  /** The folder's choice between wrapping and widening is the source's. */
  lemma SumDecision(op: BinOp, l: Expr, r: Expr, v: Vars, env: TyEnv, hidden: set<string>, names: set<string>)
    requires Tracked(v, env, hidden, names) && NoShadow(l, names) && NoShadow(r, names)
    requires Agrees(l, v, env) && Agrees(r, v, env)
    requires OperatorType(op, Width(l, v, env).value, Width(r, v, env).value).Some?
    requires SumAgrees(op, l, r, v.renameResult, env, hidden)
    ensures BinaryWidth(op, l, r, Width(l, v, env).value, Width(r, v, env).value, v)
         == OperatorType(op, Width(l, v, env).value, Width(r, v, env).value)
  {
    hide MachineKind, Width, SourceType, MentionsI128, Widens, KindVisible, Recorded, NoShadow,
         SumType, TypeKind, IsBareLiteral, BinaryWidth, OperatorType;
    KindIs(l, v, env, hidden, names);
    KindIs(r, v, env, hidden, names);
    BareLiteralType(l, v.renameResult, env);
    BareLiteralType(r, v.renameResult, env);
    OperatorIsSum(op, Width(l, v, env).value, Width(r, v, env).value);
    KindsDecide(op, l, r, Width(l, v, env).value, Width(r, v, env).value, v);
  }

  lemma OperatorIsSum(op: BinOp, l: Ty, r: Ty)
    requires OperatorType(op, l, r).Some?
    ensures op.CanWrap() ==> SumType(l, r) == OperatorType(op, l, r)
  {
    hide SumType;
  }

  lemma KindsDecide(op: BinOp, l: Expr, r: Expr, tl: Ty, tr: Ty, v: Vars)
    requires OperatorType(op, tl, tr).Some?
    requires var wraps := op.CanWrap() && Is64(OperatorType(op, tl, tr).value);
      && (MachineKind(l, v) == TypeKind(tl) || (MachineKind(l, v) == None && !wraps))
      && (MachineKind(r, v) == TypeKind(tr) || (MachineKind(r, v) == None && !wraps))
      && (wraps && tl.IsLiteral() ==> IsBareLiteral(l))
    requires IsBareLiteral(l) ==> tl.IsLiteral()
    ensures BinaryWidth(op, l, r, tl, tr, v) == OperatorType(op, tl, tr)
  {
    hide MachineKind, SumType, SharedKind, TypeKind, IsBareLiteral, BinaryWidth, OperatorType, UnifyKind;
    if op.CanWrap() {
      OperatorIsSum(op, tl, tr);
      SharedKindIs(tl, tr, MachineKind(l, v), MachineKind(r, v));
      SharedIsUnified(l, r, v, SumType(tl, tr).value);
      SumWidth(op, l, r, tl, tr, v);
    } else {
      NoSumWidth(op, l, r, tl, tr, v);
    }
  }

  lemma NoSumWidth(op: BinOp, l: Expr, r: Expr, tl: Ty, tr: Ty, v: Vars)
    requires !op.CanWrap()
    ensures BinaryWidth(op, l, r, tl, tr, v) == OperatorType(op, tl, tr)
  {
    hide SharedKind;
  }

  lemma SumWidth(op: BinOp, l: Expr, r: Expr, tl: Ty, tr: Ty, v: Vars)
    requires op.CanWrap() && OperatorType(op, tl, tr).Some? && OperatorType(op, tl, tr) == SumType(tl, tr)
    requires if Is64(SumType(tl, tr).value) then SharedKind(l, r, v) == TypeKind(SumType(tl, tr).value)
      else SumType(tl, tr) == Some(I128) && SharedKind(l, r, v) == None
    requires IsBareLiteral(l) ==> tl.IsLiteral()
    requires Is64(SumType(tl, tr).value) && tl.IsLiteral() ==> IsBareLiteral(l)
    ensures BinaryWidth(op, l, r, tl, tr, v) == OperatorType(op, tl, tr)
  {
    hide SumType, SharedKind, TypeKind, IsBareLiteral, Swaps, WrapWidth;
    if Is64(SumType(tl, tr).value) { WrapWidthIs(op, l, r, tl, tr, v); }
  }

  /** The shared kind is that of a 64-bit sum, and there is none for an unbounded one. */
  lemma SharedKindIs(tl: Ty, tr: Ty, kl: Option<Kind>, kr: Option<Kind>)
    requires SumType(tl, tr).Some?
    requires kl == TypeKind(tl) || (kl == None && !Is64(SumType(tl, tr).value))
    requires kr == TypeKind(tr) || (kr == None && !Is64(SumType(tl, tr).value))
    ensures if Is64(SumType(tl, tr).value) then UnifyKind(kl, kr) == TypeKind(SumType(tl, tr).value)
      else SumType(tl, tr) == Some(I128) && (UnifyKind(kl, kr) == None || UnifyKind(kl, kr) == Some(LitKind))
  {
  }

  lemma SharedIsUnified(l: Expr, r: Expr, v: Vars, t: Ty)
    ensures var k := UnifyKind(MachineKind(l, v), MachineKind(r, v));
      SharedKind(l, r, v) == (if k == Some(LitKind) then None else k) && (Is64(t) ==> TypeKind(t) != Some(LitKind))
  {
    hide MachineKind, UnifyKind;
  }

  lemma WrapWidthIs(op: BinOp, l: Expr, r: Expr, tl: Ty, tr: Ty, v: Vars)
    requires SumType(tl, tr).Some? && Is64(SumType(tl, tr).value)
    requires SharedKind(l, r, v) == TypeKind(SumType(tl, tr).value)
    requires (IsBareLiteral(l) ==> tl.IsLiteral()) && (tl.IsLiteral() ==> IsBareLiteral(l))
    ensures SharedKind(l, r, v).Some?
    ensures var kind := SharedKind(l, r, v).value;
      (if Swaps(op, l, r) then WrapWidth(r, tr, tl, kind) else WrapWidth(l, tl, tr, kind)) == SumType(tl, tr)
  {
    hide SharedKind, IsBareLiteral, SumType, WrapWidth, TypeKind;
    WrapWidthOf(l, r, tl, tr);
  }

  /** Either side can receive a 64-bit sum, if a literal among them is a plain one. */
  lemma WrapWidthOf(l: Expr, r: Expr, tl: Ty, tr: Ty)
    requires SumType(tl, tr).Some? && Is64(SumType(tl, tr).value)
    ensures var t := SumType(tl, tr).value;
      && TypeKind(t).Some?
      && (tl.IsLiteral() ==> WrapWidth(r, tr, tl, TypeKind(t).value) == Some(t))
      && (tl.IsLiteral() ==> IsBareLiteral(l) ==> WrapWidth(l, tl, tr, TypeKind(t).value) == Some(t))
      && (!tl.IsLiteral() ==> WrapWidth(l, tl, tr, TypeKind(t).value) == Some(t))
  {
    hide IsBareLiteral;
  }

  lemma BareLiteralType(e: Expr, renameResult: bool, env: TyEnv)
    requires SourceType(e, renameResult, env).Some?
    ensures IsBareLiteral(e) ==> SourceType(e, renameResult, env).value.IsLiteral()
  {
  }

  lemma BinaryAgrees(op: BinOp, l: Expr, r: Expr, v: Vars, env: TyEnv)
    requires v.floats == {} && Agrees(l, v, env) && Agrees(r, v, env)
    requires SourceType(Binary(op, l, r), v.renameResult, env).Some?
    requires BinaryWidth(op, l, r, Width(l, v, env).value, Width(r, v, env).value, v)
          == OperatorType(op, Width(l, v, env).value, Width(r, v, env).value)
    ensures Agrees(Binary(op, l, r), v, env)
  {
    hide FormOf, MentionsI128, Widens, Swaps, SharedKind, HasFloat, HasU128Literal, IsNumeric, BinaryWidth, OperatorType;
    assert Width(Binary(op, l, r), v, env) == SourceType(Binary(op, l, r), v.renameResult, env);
    WidthForm(op, l, r, v, env);
    WidthShape(l, v, env);
    WidthShape(r, v, env);
    FormMentions(op, l, r, v, env);
  }

  lemma FormMentions(op: BinOp, l: Expr, r: Expr, v: Vars, env: TyEnv)
    requires v.floats == {} && Width(Binary(op, l, r), v, env).Some?
    requires Width(Binary(op, l, r), v, env) == SourceType(Binary(op, l, r), v.renameResult, env)
    requires MentionsI128(l, v) <==> Widens(l, v.renameResult, env)
    requires MentionsI128(r, v) <==> Widens(r, v.renameResult, env)
    ensures MentionsI128(Binary(op, l, r), v) <==> Widens(Binary(op, l, r), v.renameResult, env)
  {
    hide FormOf, Swaps, SharedKind, HasFloat, HasU128Literal, IsNumeric, Width, SourceType, IsBareLiteral, Contains;
    FormIs(op, l, r, v, env);
    LiteralIsSilent(l, v, env);
    LiteralIsSilent(r, v, env);
  }

  lemma LiteralIsSilent(e: Expr, v: Vars, env: TyEnv)
    ensures IsBareLiteral(e) && Width(e, v, env).Some? ==> !MentionsI128(e, v)
  {
    if e.Unary? && IsBareLiteral(e) && Width(e, v, env).Some? { assert Width(e.operand, v, env).Some?; }
  }

  /** The form the folder writes, told from the widths. */
  lemma FormIs(op: BinOp, l: Expr, r: Expr, v: Vars, env: TyEnv)
    requires v.floats == {} && Width(Binary(op, l, r), v, env).Some?
    ensures Width(l, v, env).Some? && Width(r, v, env).Some?
    ensures op.IsArithmetic() ==>
      if Width(Binary(op, l, r), v, env) == Some(I128) then FormOf(op, l, r, v).WidenForm? else FormOf(op, l, r, v).WrapForm?
    ensures op.IsComparison() ==>
      if IsNumeric(l) && IsNumeric(r) then FormOf(op, l, r, v).WidenForm? else FormOf(op, l, r, v).PlainForm?
    ensures !op.IsArithmetic() && !op.IsComparison() ==> FormOf(op, l, r, v).PlainForm? || FormOf(op, l, r, v).ImpliesForm?
  {
    hide MachineKind, IsNumeric, HasFloat, HasU128Literal;
    NoFloats(l, v, env);
    NoFloats(r, v, env);
    WidthForm(op, l, r, v, env);
    if op.IsArithmetic() && SharedKind(l, r, v).Some? { assert SharedKind(l, r, v) != Some(LitKind); }
  }

  // ----- Main results -----

  /**
   * A supported expression compiles, and the emitted code has its source type: Int is
   * `i64`, Nat is `u64`, unbounded is `i128`. In particular no `wrapping_*` is called on
   * an `i128` or a literal without a type, and no operator joins `i64` with `u64`.
   */
  lemma SourceTypeIsEmitted(e: Expr, v: Vars, env: TyEnv, hidden: set<string>, names: set<string>)
    requires Compilable(e, v, env, hidden, names)
    ensures TypeOf(Intended(e, v), env) == SourceType(e, v.renameResult, env)
    ensures Width(e, v, env) == SourceType(e, v.renameResult, env)
  {
    hide Text, HasInnerI128, MachineKind, TypeOf, Intended;
    CompilableAgrees(e, v, env, hidden, names);
    EmittedIsWellTyped(e, v, env);
  }

  /**
   * A sum of Ints or of Nats over supported operands keeps its type exactly when both
   * kinds are visible and a literal on the left is a plain one. Otherwise it is widened,
   * or a literal without a type receives the operation.
   */
  lemma SumCompilesIff(op: BinOp, l: Expr, r: Expr, v: Vars, env: TyEnv, hidden: set<string>, names: set<string>)
    requires op.CanWrap() && Compilable(l, v, env, hidden, names) && Compilable(r, v, env, hidden, names)
    requires var t := SourceType(Binary(op, l, r), v.renameResult, env); t == Some(I64) || t == Some(U64)
    ensures TypeOf(Intended(Binary(op, l, r), v), env) == SourceType(Binary(op, l, r), v.renameResult, env)
       <==> SumAgrees(op, l, r, v.renameResult, env, hidden)
  {
    hide Text, HasInnerI128, MachineKind, TypeOf, Intended, KindVisible, Supported, Recorded, HasFloat, SumAgrees;
    var e := Binary(op, l, r);
    if SumAgrees(op, l, r, v.renameResult, env, hidden) {
      assert Compilable(e, v, env, hidden, names) by { SumIsSupported(op, l, r, v.renameResult, env, hidden); }
      SourceTypeIsEmitted(e, v, env, hidden, names);
    } else {
      SourceTypeIsEmitted(l, v, env, hidden, names);
      SourceTypeIsEmitted(r, v, env, hidden, names);
      KindIs(l, v, env, hidden, names);
      KindIs(r, v, env, hidden, names);
      SumFails(op, l, r, v, env, hidden);
    }
  }

  lemma SumIsSupported(op: BinOp, l: Expr, r: Expr, renameResult: bool, env: TyEnv, hidden: set<string>)
    requires Supported(l, renameResult, env, hidden) && Supported(r, renameResult, env, hidden)
    requires SumAgrees(op, l, r, renameResult, env, hidden)
    ensures Supported(Binary(op, l, r), renameResult, env, hidden)
  {
  }

  lemma SumFails(op: BinOp, l: Expr, r: Expr, v: Vars, env: TyEnv, hidden: set<string>)
    requires op.CanWrap() && v.floats == {} && !SumAgrees(op, l, r, v.renameResult, env, hidden)
    requires Width(l, v, env) == SourceType(l, v.renameResult, env) == TypeOf(Intended(l, v), env)
    requires Width(r, v, env) == SourceType(r, v.renameResult, env) == TypeOf(Intended(r, v), env)
    requires var t := SourceType(Binary(op, l, r), v.renameResult, env); t == Some(I64) || t == Some(U64)
    requires MachineKind(l, v) == if KindVisible(l, hidden) then TypeKind(SourceType(l, v.renameResult, env).value) else None
    requires MachineKind(r, v) == if KindVisible(r, hidden) then TypeKind(SourceType(r, v.renameResult, env).value) else None
    ensures TypeOf(Intended(Binary(op, l, r), v), env) != SourceType(Binary(op, l, r), v.renameResult, env)
  {
    hide Text, MachineKind, KindVisible, HasFloat, HasU128Literal, IsNumeric, TypeOf, Intended, Width;
    NoFloats(l, v, env);
    NoFloats(r, v, env);
    WidthShape(l, v, env);
    WidthShape(r, v, env);
    if KindVisible(l, hidden) && KindVisible(r, hidden) {
      LiteralReceiverFails(op, l, r, v, env);
    } else {
      assert FormOf(op, l, r, v).WidenForm?;
      WidenedSumType(op, l, r, v, env);
    }
  }

  lemma LiteralReceiverFails(op: BinOp, l: Expr, r: Expr, v: Vars, env: TyEnv)
    requires op.CanWrap() && FormOf(op, l, r, v).WrapForm?
    requires TypeOf(Intended(l, v), env).Some? && TypeOf(Intended(l, v), env).value.IsLiteral() && !IsBareLiteral(l)
    ensures TypeOf(Intended(Binary(op, l, r), v), env) == None
  {
    hide Text, FormOf;
  }

  lemma WidenedSumType(op: BinOp, l: Expr, r: Expr, v: Vars, env: TyEnv)
    requires op.CanWrap() && FormOf(op, l, r, v).WidenForm?
    ensures TypeOf(Intended(Binary(op, l, r), v), env) == None || TypeOf(Intended(Binary(op, l, r), v), env) == Some(I128)
  {
    hide Text, FormOf;
  }

  /** A branch that is widened has type `i128`, unless it is a byte string, which cannot be. */
  function EmittedBranchType(w: Ty, widened: bool): Option<Ty> {
    if !widened then Some(w) else if w.Bytes? then None else Some(I128)
  }

  function JoinBranches(t: Option<Ty>, f: Option<Ty>): Option<Ty> {
    if t.Some? && f.Some? then Join(t.value, f.value) else None
  }

  /**
   * The type of any emitted `if`, Boolean and byte-string branches included, whatever the
   * folder knows of its names: a branch without a trace of `i128` is widened when both
   * look numeric and the other one has such a trace.
   */
  lemma EmittedIfType(c: Expr, t: Expr, f: Expr, v: Vars, env: TyEnv)
    requires v.floats == {} && Width(c, v, env) == Some(Bool)
    requires Width(t, v, env).Some? && Width(f, v, env).Some?
    ensures var n := IsNumeric(t) && IsNumeric(f) && (MentionsI128(t, v) || MentionsI128(f, v));
      TypeOf(Intended(If(c, t, f), v), env)
      == JoinBranches(EmittedBranchType(Width(t, v, env).value, n && !MentionsI128(t, v)),
                      EmittedBranchType(Width(f, v, env).value, n && !MentionsI128(f, v)))
  {
    hide Text, HasInnerI128, Intended, Width, MentionsI128, IsNumeric, HasFloat, TypeOf, BranchTree;
    InnerTest(t, v);
    InnerTest(f, v);
    NoFloats(t, v, env);
    NoFloats(f, v, env);
    EmittedIsWellTyped(c, v, env);
    EmittedIsWellTyped(t, v, env);
    EmittedIsWellTyped(f, v, env);
    var n := Normalises(t, f, Text(t, v), Text(f, v), v.floats);
    EmittedBranch(t, n, v, env);
    EmittedBranch(f, n, v, env);
    IfTree(c, t, f, v);
    IfJoins(Intended(c, v), BranchTree(t, n, v), BranchTree(f, n, v), env);
  }

  lemma EmittedBranch(e: Expr, n: bool, v: Vars, env: TyEnv)
    requires Width(e, v, env).Some? && TypeOf(Intended(e, v), env) == Width(e, v, env)
    ensures TypeOf(BranchTree(e, n, v), env) == EmittedBranchType(Width(e, v, env).value, n && !HasInnerI128(Text(e, v)))
  {
    hide Text, HasInnerI128, Intended, Width;
    assert Widenable(Width(e, v, env).value) || Width(e, v, env).value.Bytes?;
  }

  lemma IfJoins(c: Tree, t: Tree, f: Tree, env: TyEnv)
    requires TypeOf(c, env) == Some(Bool)
    ensures TypeOf(RIf(c, t, f), env) == JoinBranches(TypeOf(t, env), TypeOf(f, env))
  {
    hide Join;
  }

  /** An `if` over supported parts keeps its source type exactly when normalising gives that type. */
  lemma IfCompilesIff(c: Expr, t: Expr, f: Expr, v: Vars, env: TyEnv, hidden: set<string>, names: set<string>)
    requires Compilable(c, v, env, hidden, names) && SourceType(c, v.renameResult, env) == Some(Bool)
    requires Compilable(t, v, env, hidden, names) && !SourceType(t, v.renameResult, env).value.Bytes?
    requires Compilable(f, v, env, hidden, names) && !SourceType(f, v.renameResult, env).value.Bytes?
    ensures TypeOf(Intended(If(c, t, f), v), env) == SourceType(If(c, t, f), v.renameResult, env)
       <==> IfAgrees(t, f, v.renameResult, env)
  {
    hide Intended, Supported, Recorded, NoShadow, IfType, Widens, TypeOf, SourceType, Width, MentionsI128, IsNumeric;
    CompilableAgrees(c, v, env, hidden, names);
    CompilableAgrees(t, v, env, hidden, names);
    CompilableAgrees(f, v, env, hidden, names);
    EmittedIfType(c, t, f, v, env);
    IfSourceType(c, t, f, v.renameResult, env);
  }

  lemma IfSourceType(c: Expr, t: Expr, f: Expr, renameResult: bool, env: TyEnv)
    requires SourceType(c, renameResult, env) == Some(Bool)
    requires SourceType(t, renameResult, env).Some? && SourceType(f, renameResult, env).Some?
    ensures SourceType(If(c, t, f), renameResult, env)
         == IfType(SourceType(t, renameResult, env).value, SourceType(f, renameResult, env).value)
  {
    hide IfType;
  }

  /** Arithmetic branches are always normalised right. */
  lemma ArithmeticIfAgrees(t: Expr, f: Expr, v: Vars, env: TyEnv)
    requires Arithmetic(t) && DeclaredNames(t, v, env) && Arithmetic(f) && DeclaredNames(f, v, env)
    ensures IfAgrees(t, f, v.renameResult, env)
  {
    hide Contains, Widens, SourceType, IsNumeric;
    if SourceType(t, v.renameResult, env).Some? && SourceType(f, v.renameResult, env).Some? {
      ArithmeticWidens(t, v, env);
      ArithmeticWidens(f, v, env);
    }
  }

  /** An arithmetic expression widens exactly when it is unbounded. */
  lemma {:induction false} ArithmeticWidens(e: Expr, v: Vars, env: TyEnv)
    requires Arithmetic(e) && DeclaredNames(e, v, env) && SourceType(e, v.renameResult, env).Some?
    ensures Widens(e, v.renameResult, env) <==> SourceType(e, v.renameResult, env) == Some(I128)
    ensures SourceType(e, v.renameResult, env).value.IsInteger() && IsNumeric(e)
    ensures SourceType(e, v.renameResult, env) != Some(I32)
  {
    hide Contains;
    match e
    case Ident(_) | IntLit(_) =>
    case Unary(_, inner) => ArithmeticWidens(inner, v, env);
    case Binary(_, l, r) =>
      ArithmeticWidens(l, v, env);
      ArithmeticWidens(r, v, env);
  }

  /**
   * No `let`; every `if` has arithmetic branches, or branches of which one does not look
   * numeric; a literal on the left of a sum is a plain one.
   */
  predicate Ordinary(e: Expr, v: Vars, env: TyEnv) {
    match e
    case Ident(_) | IntLit(_) | BoolLit(_) | FloatLit(_) | Field(_, _) => true
    case Old(inner) => Ordinary(inner, v, env)
    case Length(r) => Ordinary(r, v, env)
    case Unary(_, inner) => Ordinary(inner, v, env)
    case Cast(inner, _) => Ordinary(inner, v, env)
    case Let(_, _, _) => false
    case If(c, t, f) =>
      && Ordinary(c, v, env) && Ordinary(t, v, env) && Ordinary(f, v, env)
      && (ArithmeticIf(t, f, v, env) || !IsNumeric(t) || !IsNumeric(f))
    case Binary(op, l, r) =>
      && Ordinary(l, v, env) && Ordinary(r, v, env)
      && (op.CanWrap() && (l.If? || (l.Unary? && !l.operand.IntLit?)) ==>
           var t := SourceType(l, v.renameResult, env); t.Some? ==> !t.value.IsLiteral())
  }

  /** Ordinary expressions with a type are supported: sums of declared names always keep their type. */
  lemma {:induction false} OrdinaryIsSupported(e: Expr, v: Vars, env: TyEnv)
    requires Ordinary(e, v, env) && SourceType(e, v.renameResult, env).Some?
    ensures Supported(e, v.renameResult, env, {}) && KindVisible(e, {})
    ensures SourceType(e, v.renameResult, env).value.IsInteger() ==> IsNumeric(e)
  {
    hide OperatorType, IfType, IfAgrees, Contains, Widens;
    match e
    case Ident(_) | IntLit(_) | BoolLit(_) | FloatLit(_) | Field(_, _) | Old(_) =>
    case Length(r) => OrdinaryIsSupported(r, v, env);
    case Unary(_, inner) => OrdinaryIsSupported(inner, v, env);
    case Cast(inner, _) => OrdinaryIsSupported(inner, v, env);
    case If(c, t, f) =>
      OrdinaryIsSupported(c, v, env);
      OrdinaryIsSupported(t, v, env);
      OrdinaryIsSupported(f, v, env);
      IfTypeCases(SourceType(t, v.renameResult, env).value, SourceType(f, v.renameResult, env).value);
      if ArithmeticIf(t, f, v, env) { ArithmeticIfAgrees(t, f, v, env); } else { BooleanIfAgrees(t, f, v.renameResult, env); }
    case Binary(op, l, r) =>
      OrdinaryIsSupported(l, v, env);
      OrdinaryIsSupported(r, v, env);
      OperatorTypeCases(op, SourceType(l, v.renameResult, env).value, SourceType(r, v.renameResult, env).value);
      if op.CanWrap() { LeftLiteralIsPlain(l, v, env); }
  }

  lemma LeftLiteralIsPlain(l: Expr, v: Vars, env: TyEnv)
    requires Ordinary(l, v, env) && SourceType(l, v.renameResult, env).Some?
    requires (l.If? || (l.Unary? && !l.operand.IntLit?)) ==> !SourceType(l, v.renameResult, env).value.IsLiteral()
    ensures SourceType(l, v.renameResult, env).value.IsLiteral() ==> IsBareLiteral(l)
  {
    if l.Binary? {
      OperatorTypeCases(l.op, SourceType(l.lhs, v.renameResult, env).value, SourceType(l.rhs, v.renameResult, env).value);
    }
  }

  lemma OperatorTypeCases(op: BinOp, l: Ty, r: Ty)
    requires OperatorType(op, l, r).Some?
    ensures !OperatorType(op, l, r).value.IsLiteral()
    ensures OperatorType(op, l, r).value.IsInteger() <==> op.IsArithmetic()
  {
  }

  lemma IfTypeCases(t: Ty, f: Ty)
    requires IfType(t, f).Some?
    ensures IfType(t, f).value.IsInteger() ==> t.IsInteger() && f.IsInteger()
    ensures !IfType(t, f).value.IsInteger() ==> t.Bool? && f.Bool? && IfType(t, f) == Join(t, f)
  {
  }

  lemma BooleanIfAgrees(t: Expr, f: Expr, renameResult: bool, env: TyEnv)
    requires !IsNumeric(t) || !IsNumeric(f)
    requires SourceType(t, renameResult, env).Some? && SourceType(f, renameResult, env).Some?
    requires var tt, tf := SourceType(t, renameResult, env).value, SourceType(f, renameResult, env).value;
      && (tt.IsInteger() ==> IsNumeric(t)) && (tf.IsInteger() ==> IsNumeric(f)) && IfType(tt, tf).Some?
    ensures IfAgrees(t, f, renameResult, env)
  {
    hide SourceType, IsNumeric, Widens;
    IfTypeCases(SourceType(t, renameResult, env).value, SourceType(f, renameResult, env).value);
  }
}
