/**
 * The forms of operators that integer typing does not reach: floats, literals beyond
 * `i128`, literals on either side, and the names of types and snapshots.
 */
module Forms {
  import opened Ast
  import opened Numeric
  import opened RustSyntax
  import opened RustSemantics
  import opened Emitter
  import opened Folder
  import opened Reading
  import opened Compiler

  // ----- Leaves -----

  /** The names and literals that occur in `e`, under `old` as well. */
  function Leaves(e: Expr): set<Expr> {
    match e
    case Ident(_) | IntLit(_) | BoolLit(_) | FloatLit(_) => {e}
    case Field(b, _) => Leaves(b)
    case Length(r) => Leaves(r)
    case Unary(_, inner) => Leaves(inner)
    case Old(inner) => Leaves(inner)
    case Cast(inner, _) => Leaves(inner)
    case Binary(_, l, r) => Leaves(l) + Leaves(r)
    case If(c, t, f) => Leaves(c) + Leaves(t) + Leaves(f)
    case Let(_, value, body) => Leaves(value) + Leaves(body)
  }

  /** A float literal, or a name declared as a float, occurs in `e`. */
  ghost predicate Floating(e: Expr, floats: set<string>) {
    exists leaf :: leaf in Leaves(e) && (leaf.FloatLit? || (leaf.Ident? && leaf.name in floats))
  }

  /** A literal that needs `u128` occurs in `e`. */
  ghost predicate Huge(e: Expr) {
    exists leaf :: leaf in Leaves(e) && leaf.IntLit? && Pow2(127) <= leaf.n < Pow2(128)
  }

  lemma {:induction false} FloatIsLeaf(e: Expr, floats: set<string>)
    ensures HasFloat(e, floats) <==> Floating(e, floats)
  {
    match e
    case Ident(_) | IntLit(_) | BoolLit(_) | FloatLit(_) => assert e in Leaves(e);
    case Field(b, _) => FloatIsLeaf(b, floats);
    case Length(r) => FloatIsLeaf(r, floats);
    case Unary(_, inner) => FloatIsLeaf(inner, floats);
    case Old(inner) => FloatIsLeaf(inner, floats);
    case Cast(inner, _) => FloatIsLeaf(inner, floats);
    case Binary(_, l, r) =>
      FloatIsLeaf(l, floats);
      FloatIsLeaf(r, floats);
    case If(c, t, f) =>
      FloatIsLeaf(c, floats);
      FloatIsLeaf(t, floats);
      FloatIsLeaf(f, floats);
    case Let(_, value, body) =>
      FloatIsLeaf(value, floats);
      FloatIsLeaf(body, floats);
  }

  lemma {:induction false} HugeIsLeaf(e: Expr)
    ensures HasU128Literal(e) <==> Huge(e)
  {
    hide Pow2;
    PowersOfTwo();
    match e
    case Ident(_) | IntLit(_) | BoolLit(_) | FloatLit(_) => assert e in Leaves(e);
    case Field(b, _) => HugeIsLeaf(b);
    case Length(r) => HugeIsLeaf(r);
    case Unary(_, inner) => HugeIsLeaf(inner);
    case Old(inner) => HugeIsLeaf(inner);
    case Cast(inner, _) => HugeIsLeaf(inner);
    case Binary(_, l, r) =>
      HugeIsLeaf(l);
      HugeIsLeaf(r);
    case If(c, t, f) =>
      HugeIsLeaf(c);
      HugeIsLeaf(t);
      HugeIsLeaf(f);
    case Let(_, value, body) =>
      HugeIsLeaf(value);
      HugeIsLeaf(body);
  }

  /** What decides whether `e` looks numeric: inside `old`, casts, `let` bodies and first branches. */
  function Core(e: Expr): Expr {
    match e
    case Old(inner) => Core(inner)
    case Cast(inner, _) => Core(inner)
    case Let(_, _, body) => Core(body)
    case If(_, t, _) => Core(t)
    case _ => e
  }

  /** Written as a truth value: a Boolean literal, a negation, a comparison or a connective. */
  predicate LooksBoolean(e: Expr) {
    e.BoolLit? || (e.Unary? && e.uop.Not?) || (e.Binary? && (e.op.IsComparison() || e.op.And? || e.op.Or? || e.op.Implies?))
  }

  lemma {:induction false} NumericIsCore(e: Expr)
    ensures IsNumeric(e) <==> !LooksBoolean(Core(e))
  {
    match e
    case Old(inner) => NumericIsCore(inner);
    case Cast(inner, _) => NumericIsCore(inner);
    case Let(_, _, body) => NumericIsCore(body);
    case If(_, t, _) => NumericIsCore(t);
    case _ =>
  }

  /** Nothing written as a truth value has a kind, nor a field, a float literal, a quotient or a remainder. */
  lemma KindlessForms(e: Expr, v: Vars)
    requires LooksBoolean(e) || e.Field? || e.FloatLit? || (e.Binary? && (e.op.Div? || e.op.Mod?))
    ensures MachineKind(e, v) == None
  {
  }

  // ----- Floats -----

  /** An operator over floats is written as it stands, and a choice between floats, too: nothing is wrapped, widened or cast. */
  lemma FloatsStayPlain(op: BinOp, l: Expr, r: Expr, c: Expr, v: Vars)
    requires !op.Implies? && (Floating(l, v.floats) || Floating(r, v.floats))
    ensures Text(Binary(op, l, r), v) == BinaryText(op, Text(l, v), Text(r, v))
    ensures Text(If(c, l, r), v) == IfText(Text(c, v), Text(l, v), Text(r, v))
  {
    hide Text, BinaryText, IfText, HasFloat;
    FloatIsLeaf(l, v.floats);
    FloatIsLeaf(r, v.floats);
    TextShape(op, l, r, v);
    IfShape(c, l, r, v);
  }

  /** Inside a `let` its variable is a float exactly when a float occurs in its value, or it was one. */
  lemma FloatBinder(x: string, value: Expr, v: Vars)
    ensures x in Bind(x, value, v).floats <==> Floating(value, v.floats) || x in v.floats
  {
    FloatIsLeaf(value, v.floats);
  }

  // ----- Literals beyond `i128` -----

  /** Numeric operands of which one holds a literal that needs `u128` are both cast to it. */
  lemma HugeIsCast(op: BinOp, l: Expr, r: Expr, v: Vars)
    requires (op.IsComparison() || op.IsArithmetic()) && (Huge(l) || Huge(r))
    requires !LooksBoolean(Core(l)) && !LooksBoolean(Core(r)) && !Floating(l, v.floats) && !Floating(r, v.floats)
    ensures Text(Binary(op, l, r), v) == BinaryText(op, AsText(Text(l, v), "u128"), AsText(Text(r, v), "u128"))
  {
    hide Text, BinaryText, AsText, HasFloat, HasU128Literal, Core, IsNumeric;
    FloatIsLeaf(l, v.floats);
    FloatIsLeaf(r, v.floats);
    HugeIsLeaf(l);
    HugeIsLeaf(r);
    NumericIsCore(l);
    NumericIsCore(r);
    TextShape(op, l, r, v);
  }

  /** The name is an Int or a Nat of value `i`. */
  predicate Is64BitName(x: string, i: int, v: Vars, env: TyEnv, s: Store) {
    var name := RustName(x, v.renameResult);
    name in env && (env[name].I64? || env[name].U64?) && name in s && s[name] == IntV(i) && x !in v.floats
  }

  /** Compared with such a literal, a negative Int counts as a value near `u128::MAX`. */
  lemma HugeComparisonIs(op: BinOp, x: string, n: nat, i: int, v: Vars, env: TyEnv, s: Store)
    requires op.IsComparison() && Max(I128) < n <= Max(U128) && Is64BitName(x, i, v, env, s) && StoreTyped(s, env)
    ensures RunText(Fold(Binary(op, Ident(x), IntLit(n)), v).text, env, s)
         == Val(BoolV(CompareOp(op, if i < 0 then i + TWO_128 else i, n)))
  {
    hide Fold, Text, Read, ParseExpr, Eval, TypeOf, StoreTyped;
    var e, name := Binary(op, Ident(x), IntLit(n)), RustName(x, v.renameResult);
    var names := v.floats + v.ints + v.nats;
    FoldIsText(e, v, names);
    HugeReads(op, x, n, v);
    TextParses(e, v);
    NameAsU128(name, i, env, s);
    LiteralAsU128(n, env, s);
    CompareU128(op, RAs(RVar(name), "u128"), RAs(RNum(n, Some(U128)), "u128"), env, s);
  }

  lemma HugeReads(op: BinOp, x: string, n: nat, v: Vars)
    requires op.IsComparison() && Max(I128) < n <= Max(U128) && x !in v.floats
    ensures var e := Binary(op, Ident(x), IntLit(n));
      Readable(e, v) && Read(e, v) == RBin(op, RAs(RVar(RustName(x, v.renameResult)), "u128"), RAs(RNum(n, Some(U128)), "u128"))
  {
    assert FormOf(op, Ident(x), IntLit(n), v) == U128Form;
  }

  lemma NameAsU128(x: string, i: int, env: TyEnv, s: Store)
    requires x in env && (env[x].I64? || env[x].U64?) && x in s && s[x] == IntV(i) && StoreTyped(s, env)
    ensures var t := RAs(RVar(x), "u128");
      TypeOf(t, env) == Some(U128) && Eval(t, env, s) == Val(IntV(if i < 0 then i + TWO_128 else i))
  {
    assert TypeOf(RVar(x), env) == Some(env[x]) && Eval(RVar(x), env, s) == Val(IntV(i));
    assert HasType(s[x], env[x]);
    if i < 0 {
      WrapShift(U128, i, 1);
      WrapInRange(U128, i + TWO_128);
    } else {
      WrapInRange(U128, i);
    }
  }

  lemma LiteralAsU128(n: nat, env: TyEnv, s: Store)
    requires n <= Max(U128)
    ensures var t := RAs(RNum(n, Some(U128)), "u128");
      TypeOf(t, env) == Some(U128) && Eval(t, env, s) == Val(IntV(n))
  {
    assert TypeOf(RNum(n, Some(U128)), env) == Some(U128);
    assert Eval(RNum(n, Some(U128)), env, s) == Val(IntV(n));
    WrapInRange(U128, n);
  }

  lemma CompareU128(op: BinOp, l: Tree, r: Tree, env: TyEnv, s: Store)
    requires op.IsComparison() && TypeOf(l, env) == TypeOf(r, env) == Some(U128)
    requires Eval(l, env, s).Val? && Eval(l, env, s).v.IntV? && Eval(r, env, s).Val? && Eval(r, env, s).v.IntV?
    ensures Eval(RBin(op, l, r), env, s) == Val(BoolV(CompareOp(op, Eval(l, env, s).v.i, Eval(r, env, s).v.i)))
  {
    ComparisonType(op, l, r, env);
    ComparisonEval(op, l, r, env, s);
    hide TypeOf, CompareOp, Eval;
  }

  lemma ComparisonEval(op: BinOp, l: Tree, r: Tree, env: TyEnv, s: Store)
    requires op.IsComparison() && TypeOf(RBin(op, l, r), env) == Some(Bool)
    ensures Eval(RBin(op, l, r), env, s) == EvalBin(op, Bool, Eval(l, env, s), Eval(r, env, s))
  {
    hide TypeOf, EvalBin;
  }

  lemma ComparisonType(op: BinOp, l: Tree, r: Tree, env: TyEnv)
    requires op.IsComparison() && TypeOf(l, env) == TypeOf(r, env) == Some(U128)
    ensures TypeOf(RBin(op, l, r), env) == Some(Bool)
  {
  }

  /** An order comparison with such a literal, at least 2^63 below `u128::MAX`, is right exactly when the name is not negative. */
  lemma HugeOrderIsRightIff(op: BinOp, x: string, n: nat, i: int, v: Vars, env: TyEnv, s: Store)
    requires (op.Lt? || op.Lte? || op.Gt? || op.Gte?) && Max(I128) < n < TWO_128 - TWO_63
    requires Is64BitName(x, i, v, env, s) && StoreTyped(s, env)
    ensures RunText(Fold(Binary(op, Ident(x), IntLit(n)), v).text, env, s) == Val(BoolV(CompareOp(op, i, n))) <==> i >= 0
  {
    hide Fold, RunText;
    HugeComparisonIs(op, x, n, i, v, env, s);
    assert HasType(s[RustName(x, v.renameResult)], env[RustName(x, v.renameResult)]);
  }

  /** A literal carries the first of `i32`, `i64`, `i128` and `u128` that holds it, `i32` being left out. */
  lemma SuffixIsFirstFit(n: nat)
    ensures LitSuffix(n) == Some(I64) <==> Pow2(31) <= n < Pow2(63)
    ensures LitSuffix(n) == Some(I128) <==> Pow2(63) <= n < Pow2(127)
    ensures LitSuffix(n) == Some(U128) <==> Pow2(127) <= n < Pow2(128)
    ensures LitSuffix(n) == None <==> n < Pow2(31) || Pow2(128) <= n
  {
    hide Pow2;
    PowersOfTwo();
  }

  // ----- Literals on either side -----

  /** In a wrapping sum or product a literal may stand on either side: the other operand receives the call. */
  lemma LiteralSideIsIrrelevant(op: BinOp, l: Expr, r: Expr, v: Vars)
    requires (op.Add? || op.Mul?) && IsBareLiteral(l) && !IsBareLiteral(r) && FormOf(op, l, r, v).WrapForm?
    ensures Text(Binary(op, l, r), v) == Text(Binary(op, r, l), v)
  {
    hide Text, ReceiverText, WrapText, HasFloat, HasU128Literal, IsNumeric, MachineKind;
    TextShape(op, l, r, v);
    TextShape(op, r, l, v);
    assert SharedKind(l, r, v) == SharedKind(r, l, v);
  }

  // ----- Names of types -----

  /** Sized types are named by their letter and size; Int, Nat and Float are 64 bits wide. */
  lemma SizedTypeNames(ty: string)
    requires ty == "U8" || ty == "U16" || ty == "U32" || ty == "U64" || ty == "I8" || ty == "I16" || ty == "I32" || ty == "I64"
      || ty == "F32" || ty == "F64"
    ensures MapTypeToken(ty) == [if ty[0] == 'U' then 'u' else if ty[0] == 'I' then 'i' else 'f'] + ty[1..]
    ensures MapTypeToken("Int") == MapTypeToken("I64") && MapTypeToken("Nat") == MapTypeToken("U64")
    ensures MapTypeToken("Float") == MapTypeToken("F64")
  {
    var rust := MapTypeToken(ty);
    assert rust == [rust[0]] + rust[1..];
    assert rust[1..] == ty[1..];
  }

  /** A cast to a narrower type keeps the kind of its operand, and the sum around it wraps in that type. */
  lemma NarrowCastWraps(a: string, ty: string, v: Vars)
    requires a in v.ints && a !in v.nats && a !in v.floats && a != "result"
    requires MapTypeToken(ty) != "u64" && MapTypeToken(ty) != "i64"
    ensures Text(Binary(Add, Cast(Ident(a), ty), Ident(a)), v) == WrapText(Add, AsText([Id(a)], MapTypeToken(ty)), [Id(a)])
  {
    hide MapTypeToken;
    var cast := Cast(Ident(a), ty);
    assert MachineKind(Ident(a), v) == MachineKind(cast, v) == Some(IntKind);
    assert SharedKind(cast, Ident(a), v) == Some(IntKind);
    assert IsNumeric(Ident(a)) && IsNumeric(cast) && !HasFloat(Ident(a), v.floats) && !HasFloat(cast, v.floats);
    assert !HasU128Literal(Ident(a)) && !HasU128Literal(cast);
    assert FormOf(Add, cast, Ident(a), v) == WrapForm(IntKind);
    assert Text(cast, v) == AsText([Id(a)], MapTypeToken(ty));
    assert ReceiverText(cast, IntKind, v) == Text(cast, v);
    assert ParenthesizeAsCast([Id(a)]) == [Id(a)];
    TextShape(Add, cast, Ident(a), v);
  }

  // ----- Names of snapshots -----

  /** Over the same operands no two operators give a snapshot the same name. */
  lemma OperatorsAreTold(op: BinOp, op': BinOp, l: Expr, r: Expr)
    ensures OldVarName(Binary(op, l, r)) == OldVarName(Binary(op', l, r)) <==> op == op'
  {
    hide OldVarName, OpIdent;
    var a, b := OldVarName(l) + "_", "_" + OldVarName(r);
    OperatorName(op, l, r);
    OperatorName(op', l, r);
    var x, y := a + OpIdent(op) + b, a + OpIdent(op') + b;
    if x == y {
      assert x[|a|..|x| - |b|] == OpIdent(op) && y[|a|..|y| - |b|] == OpIdent(op');
      OperatorNames(op, op');
    }
  }

  lemma OperatorName(op: BinOp, l: Expr, r: Expr)
    ensures OldVarName(Binary(op, l, r)) == OldVarName(l) + "_" + OpIdent(op) + ("_" + OldVarName(r))
  {
    hide OpIdent;
  }

  lemma OperatorNames(op: BinOp, op': BinOp)
    ensures OpIdent(op) == OpIdent(op') ==> op == op'
  {
  }

  /** A cast and grouping leave no trace in the name, so these pairs of operands share a snapshot. */
  lemma GroupingCollides(a: Expr, b: Expr, c: Expr, ty: string)
    ensures OldVarName(Cast(a, ty)) == OldVarName(a)
    ensures OldVarName(Binary(Add, a, Binary(Mul, b, c))) == OldVarName(Binary(Mul, Binary(Add, a, b), c))
  {
    var x, y, z := OldVarName(a), OldVarName(b), OldVarName(c);
    assert x + "_" + "add" + "_" + (y + "_" + "mul" + "_" + z) == (x + "_" + "add" + "_" + y) + "_" + "mul" + "_" + z;
  }

  /** Signs and negations are told apart, and from their operand. */
  lemma PrefixesAreTold(e: Expr)
    ensures OldVarName(Unary(Neg, e)) != OldVarName(Unary(Not, e))
    ensures OldVarName(Unary(Neg, e)) != OldVarName(e) && OldVarName(Unary(Not, e)) != OldVarName(e)
  {
    assert "neg_" + OldVarName(e) != "not_" + OldVarName(e) by {
      assert ("neg_" + OldVarName(e))[1] == 'e' && ("not_" + OldVarName(e))[1] == 'o';
    }
  }

  /** Only the condition of an `if` and the variable of a `let` enter the name. */
  lemma PartsCollide(c: Expr, t: Expr, f: Expr, t': Expr, f': Expr, x: string)
    ensures OldVarName(If(c, t, f)) == OldVarName(If(c, t', f'))
    ensures OldVarName(Let(x, t, f)) == OldVarName(Let(x, t', f'))
    ensures OldVarName(If(c, t, f)) != OldVarName(c) && OldVarName(Let(x, t, f)) != x
  {
    assert |OldVarName(If(c, t, f))| > |OldVarName(c)| && |OldVarName(Let(x, t, f))| > |x|;
  }

  /** The value of decimal digits. */
  function DecimalValue(s: string): int {
    if s == [] then 0 else 10 * DecimalValue(s[..|s| - 1]) + (s[|s| - 1] as int - '0' as int)
  }

  /** The decimal text of a literal reads as its value, so no two literals share a snapshot name. */
  lemma {:induction false} DecimalReads(n: nat)
    ensures DecimalValue(Decimal(n)) == n
  {
    DigitIs(n % 10);
    var digit := "0123456789"[n % 10];
    if n >= 10 {
      DecimalReads(n / 10);
      ValueStep(Decimal(n / 10), digit);
    } else {
      assert Decimal(n) == "" + [digit];
      ValueStep("", digit);
    }
  }

  lemma DigitIs(d: nat)
    requires d < 10
    ensures "0123456789"[d] as int - '0' as int == d
  {
  }

  lemma ValueStep(s: string, digit: char)
    ensures DecimalValue(s + [digit]) == 10 * DecimalValue(s) + (digit as int - '0' as int)
  {
    assert (s + [digit])[..|s|] == s;
  }

  lemma LiteralsAreTold(m: nat, n: nat, d: string, d': string)
    ensures OldVarName(IntLit(m)) == OldVarName(IntLit(n)) <==> m == n
    ensures OldVarName(FloatLit(d)) == OldVarName(FloatLit(d')) <==> d == d'
    ensures OldVarName(BoolLit(true)) != OldVarName(BoolLit(false))
  {
    DecimalReads(m);
    DecimalReads(n);
    LiteralName(Decimal(m));
    LiteralName(Decimal(n));
    LiteralName(d);
    LiteralName(d');
    assert "lit_true"[4] != "lit_false"[4];
  }

  lemma LiteralName(s: string)
    ensures ("lit_" + s)[4..] == s
  {
  }

  /** A length is told from its receiver. */
  lemma LengthsAreTold(e: Expr)
    ensures OldVarName(Length(e)) != OldVarName(e)
  {
    assert |OldVarName(Length(e))| > |OldVarName(e)|;
  }

  // ----- The order in which operands are folded -----

  /** A `let` that rebinds the Int name `a`, and so makes the folder forget it. */
  function Rebinding(a: string): Expr { Let(a, Ident(a), Ident(a)) }

  function Doubled(a: string): Expr { Binary(Add, Ident(a), Ident(a)) }

  /** `a + a` while the name is known, and after it is forgotten. */
  lemma DoubledText(a: string, v: Vars)
    requires v.floats == {} && v.nats == {} && a != "result"
    ensures Fold(Doubled(a), v) == Folded(
      if a in v.ints then [Id(a), Dot, Id("wrapping_add"), LParen, Id(a), RParen]
      else [LParen, Widen, LParen, Id(a), RParen, Op(Add), Widen, LParen, Id(a), RParen, RParen], v)
  {
    hide Fold, Text, FormOf, ReceiverText;
    FoldIsText(Doubled(a), v, v.ints);
    DoubledForm(a, v);
    TextShape(Add, Ident(a), Ident(a), v);
  }

  lemma DoubledForm(a: string, v: Vars)
    requires v.floats == {} && v.nats == {} && a != "result"
    ensures FormOf(Add, Ident(a), Ident(a), v) == if a in v.ints then WrapForm(IntKind) else WidenForm
    ensures Text(Ident(a), v) == [Id(a)] && ReceiverText(Ident(a), IntKind, v) == [Id(a)]
  {
  }

  lemma RebindingForgets(a: string, v: Vars)
    requires a in v.ints && a !in v.floats && a !in v.nats
    ensures Fold(Rebinding(a), v).vars == v.(ints := v.ints - {a})
  {
    assert MachineKind(Ident(a), v) == Some(IntKind);
  }

  /**
   * Branches are folded before the condition: a rebinding branch makes the sum in the
   * condition widen. The left operand is folded before the right one.
   */
  lemma FoldingOrder(a: string, v: Vars)
    requires v.floats == {} && v.nats == {} && v.ints == {a} && a != "result"
    ensures var wrapped, widened := Fold(Doubled(a), v).text, Fold(Doubled(a), v.(ints := {})).text;
      && wrapped != widened
      && [IfKw] + widened + [LBrace] <= Fold(If(Doubled(a), Rebinding(a), BoolLit(true)), v).text
      && Fold(Binary(And, Doubled(a), BoolLit(true)), v).text == BinaryText(And, wrapped, [Truth(true)])
      && Fold(Binary(And, Rebinding(a), Doubled(a)), v).text == BinaryText(And, Fold(Rebinding(a), v).text, widened)
      && Fold(Binary(And, Doubled(a), Rebinding(a)), v).text == BinaryText(And, wrapped, Fold(Rebinding(a), v).text)
  {
    hide Normalises, BranchText, Rebinding, Doubled;
    var v' := v.(ints := {});
    DoubledText(a, v);
    DoubledText(a, v');
    RebindingForgets(a, v);
    assert v.ints - {a} == {};
    assert Fold(BoolLit(true), v') == Folded([Truth(true)], v') && Fold(BoolLit(true), v) == Folded([Truth(true)], v);
  }
}
