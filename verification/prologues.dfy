/**
 * The snapshot statements as they are emitted: what Rust reads in each right-hand side,
 * and what running them binds.
 */
module Prologues {
  import opened Ast
  import opened Numeric
  import opened RustSyntax
  import opened RustSemantics
  import opened Emitter
  import opened Folder
  import opened Reading
  import opened Widths
  import opened Sources
  import opened Meanings
  import opened Compiler
  import opened Snapshots
  import opened Clones
  import opened Checker

  /** The path that a Rust expression is, if it is one. */
  function TreePath(t: Tree): Option<Expr> {
    match t
    case RVar(x) => Some(Ident(x))
    case RField(base, f) => if TreePath(base).Some? then Some(Field(TreePath(base).value, f)) else None
    case _ => None
  }

  /** The path of which a text makes a clone. */
  function ClonedPath(text: seq<Token>): Option<Expr> {
    if Cloned(text).Some? then TreePath(Cloned(text).value) else None
  }

  /** A path that does not start at `result` comes back from the Rust it is emitted as. */
  lemma {:induction false} TreeIsPath(path: Expr)
    requires IsPath(path)
    ensures TreePath(PathTree(path)).Some? && IsPath(TreePath(PathTree(path)).value)
    ensures Root(TreePath(PathTree(path)).value) == if Root(path) == "result" then RESULT_VAR else Root(path)
    ensures Root(path) != "result" ==> TreePath(PathTree(path)) == Some(path)
  {
    if path.Field? { TreeIsPath(path.base); }
  }

  /**
   * The variables after running the emitted `let`s, when `entry` gives the value of a
   * path that starts at a parameter; `None` if one of them does not compile.
   */
  function RunLets(stmts: seq<Stmt>, params: set<string>, entry: Expr -> int): Option<map<string, int>> {
    if stmts == [] then Some(map[])
    else
      var last, front := stmts[|stmts| - 1], RunLets(stmts[..|stmts| - 1], params, entry);
      if front.None? || !last.LetOld? then None
      else
        var path := ClonedPath(last.rhs);
        if path.Some? && StartsIn(path.value, params) then Some(front.value[last.name := entry(path.value)]) else None
  }

  /** Running the emitted statements binds what the snapshots of the prologue ask for. */
  lemma {:induction false} LetsAreBindings(out: seq<Snapshot>, params: set<string>, entry: Expr -> int)
    requires (forall i :: 0 <= i < |out| ==> IsPath(out[i].operand)) && RESULT_VAR !in params
    ensures RunLets(LetOlds(out), params, entry) == Bindings(out, params, entry)
  {
    hide Fold, Cloned, CLONE, StartsIn, PathTree, TreePath;
    if out != [] {
      var n := |out| - 1;
      var front, last := out[..n], out[n];
      assert forall i :: 0 <= i < n ==> front[i] == out[i];
      LetsAreBindings(front, params, entry);
      LetOldsAppend(front, [last]);
      assert out == front + [last];
      OneLet(last);
      var stmts, let := LetOlds(out), LetOld(last.name, Fold(last.operand, DEFAULT_VARS).text + CLONE);
      assert stmts == LetOlds(front) + [let];
      assert stmts[..|stmts| - 1] == LetOlds(front) && stmts[|stmts| - 1] == let;
      LetReads(last, params);
    }
  }

  lemma OneLet(last: Snapshot)
    ensures LetOlds([last]) == [LetOld(last.name, Fold(last.operand, DEFAULT_VARS).text + CLONE)]
  {
    assert [last][1..] == [];
  }

  lemma LetReads(last: Snapshot, params: set<string>)
    requires IsPath(last.operand) && RESULT_VAR !in params
    ensures var path := ClonedPath(Fold(last.operand, DEFAULT_VARS).text + CLONE);
      if StartsIn(last.operand, EntryNames(params)) then path == Some(last.operand) && StartsIn(last.operand, params)
      else path.Some? && !StartsIn(path.value, params)
  {
    hide Fold, Cloned, CLONE, PathTree, TreePath;
    PathIsCloned(last.operand);
    TreeIsPath(last.operand);
  }

  /** The emitted prologue compiles, and each `old(o)` reads the entry value of `o` itself. */
  ghost predicate EmittedReadsOwnValues(clauses: seq<Expr>, params: set<string>, entry: Expr -> int) {
    var m := RunLets(LetOlds(Prologue(clauses)), params, entry);
    m.Some? && forall o | o in AllOlds(clauses, EntryNames(params)) ::
      OldVarName(o.0) in m.value && PreValue(o, entry) == Some(m.value[OldVarName(o.0)])
  }

  /**
   * The emitted snapshot statements of all `ensures` clauses compile, and every `old` of
   * a path reads its own entry value from them, in every entry state, exactly when every
   * operand starts at a parameter and no two operands share a snapshot name.
   */
  lemma EmittedSnapshotsIff(clauses: seq<Expr>, params: set<string>)
    requires (forall i :: 0 <= i < |clauses| ==> PathsOnly(clauses[i])) && RESULT_VAR !in params
    ensures OldsAtEntry(clauses, params) && NamesInjective(AllOperands(clauses))
       <==> forall entry :: EmittedReadsOwnValues(clauses, params, entry)
  {
    hide RunLets, Bindings, Prologue, AllOlds, AllOperands, PathsOnly, OldsAtEntry, NamesInjective;
    SnapshotsAreFaithfulIff(clauses, params);
    PrologueOfPaths(clauses);
    forall entry ensures EmittedReadsOwnValues(clauses, params, entry) <==> ReadsOwnValues(clauses, params, entry) {
      LetsAreBindings(Prologue(clauses), params, entry);
    }
  }

  lemma PrologueOfPaths(clauses: seq<Expr>)
    requires forall i :: 0 <= i < |clauses| ==> PathsOnly(clauses[i])
    ensures forall i :: 0 <= i < |Prologue(clauses)| ==> IsPath(Prologue(clauses)[i].operand)
  {
    hide Prologue, PathsOnly;
    PrologueIsFaithful(clauses, AllOperands(clauses));
    OperandsArePaths(clauses);
  }

  lemma {:induction false} OperandsArePaths(clauses: seq<Expr>)
    requires forall i :: 0 <= i < |clauses| ==> PathsOnly(clauses[i])
    ensures forall o | o in AllOperands(clauses) :: IsPath(o)
  {
    hide PathsOnly, IsPath;
    if clauses != [] {
      OneOperandsArePaths(clauses[0]);
      OperandsArePaths(clauses[1..]);
    }
  }

  lemma {:induction false} OneOperandsArePaths(e: Expr)
    requires PathsOnly(e)
    ensures forall o | o in Operands(e) :: IsPath(o)
  {
    match e
    case Ident(_) | IntLit(_) | BoolLit(_) | FloatLit(_) | Old(_) =>
    case Field(b, _) => OneOperandsArePaths(b);
    case Length(r) => OneOperandsArePaths(r);
    case Unary(_, inner) => OneOperandsArePaths(inner);
    case Cast(inner, _) => OneOperandsArePaths(inner);
    case Binary(_, l, r) =>
      OneOperandsArePaths(l);
      OneOperandsArePaths(r);
    case If(c, t, f) =>
      OneOperandsArePaths(c);
      OneOperandsArePaths(t);
      OneOperandsArePaths(f);
    case Let(_, value, body) =>
      OneOperandsArePaths(value);
      OneOperandsArePaths(body);
  }

  // ----- Operands that are no paths -----

  lemma {:induction false} LetAt(out: seq<Snapshot>, i: nat)
    requires i < |out|
    ensures |LetOlds(out)| == |out| && LetOlds(out)[i] == LetOld(out[i].name, Fold(out[i].operand, DEFAULT_VARS).text + CLONE)
  {
    hide Fold;
    if |out| > 1 { LetAt(out[1..], if i > 0 then i - 1 else 0); }
  }

  /** What one emitted statement binds: nothing, or a value of a type. */
  function LetTypes(stmt: Stmt, env: TyEnv): Option<Ty> {
    if stmt.LetOld? && Cloned(stmt.rhs).Some? then TypeOf(Cloned(stmt.rhs).value, env) else None
  }

  function LetRuns(stmt: Stmt, env: TyEnv, s: Store): Outcome {
    if stmt.LetOld? && Cloned(stmt.rhs).Some? then Eval(Cloned(stmt.rhs).value, env, s) else Stuck
  }

  /**
   * One statement for each snapshot, under its name. Unless it is a length, a supported
   * operand is snapshotted at its own meaning on entry.
   */
  lemma SnapshotMeansOperand(out: seq<Snapshot>, i: nat, env: TyEnv, hidden: set<string>, names: set<string>, s: Store)
    requires i < |out| && Compilable(out[i].operand, DEFAULT_VARS, env, hidden, names) && StoreTyped(s, env)
    requires !out[i].operand.Length?
    ensures |LetOlds(out)| == |out| && LetOlds(out)[i].LetOld? && LetOlds(out)[i].name == out[i].name
    ensures LetTypes(LetOlds(out)[i], env) == SourceType(out[i].operand, true, env)
    ensures LetRuns(LetOlds(out)[i], env, s) == Meaning(out[i].operand, true, env, s)
  {
    hide Fold, Cloned, ParseExpr, TypeOf, Eval, Meaning, SourceType, Supported, Tracked, Text, Read, StoreTyped, Readable, NoShadow, LetOlds;
    var o := out[i].operand;
    LetAt(out, i);
    CompiledTextIsFaithful(o, DEFAULT_VARS, env, hidden, names, s);
    TextParses(o, DEFAULT_VARS);
    WithinNames(env, hidden, names);
    CloneReadsIff(o, DEFAULT_VARS, names);
  }

  lemma WithinNames(env: TyEnv, hidden: set<string>, names: set<string>)
    requires Tracked(DEFAULT_VARS, env, hidden, names)
    ensures Within(DEFAULT_VARS, names)
  {
  }

  // ----- Operands whose snapshots Rust rejects -----

  /** An ensures clause that starts with `old(operand)`. */
  function OldFirst(operand: Expr, op: BinOp, more: Expr): seq<Clause> {
    [Clause(Ensures, Binary(op, Old(operand), more))]
  }

  /** The snapshot's statement is no clone of an expression that has a type on entry. */
  predicate RejectsOperand(operand: Expr, params: TyEnv) {
    var cloned := Cloned(Fold(operand, DEFAULT_VARS).text + CLONE);
    cloned.None? || TypeOf(cloned.value, params).None?
  }

  /** Such a clause makes the whole `check` function no Rust. */
  lemma RejectedOperandRejects(operand: Expr, op: BinOp, more: Expr, v: Vars, params: TyEnv, entry: Store, result: Value, ty: Ty)
    requires RejectsOperand(operand, params)
    ensures Exec(CheckBody(OldFirst(operand, op, more), v, None), params, entry, result, ty) == Rejected
  {
    hide Fold, Cloned, CLONE, Exec, Asserts, LetOlds, OldVarName, TypeOf;
    var e, clauses := Binary(op, Old(operand), more), OldFirst(operand, op, more);
    assert clauses[1..] == [] && Bodies(clauses, Ensures) == [e];
    OneClause(clauses[0], Ensures, v);
    OuterComesFirst(operand, []);
    CollectExtends(more, Collect(Old(operand), []));
    assert Collect(e, [])[0] == Snapshot(OldVarName(operand), operand);
    LetAt(Collect(e, []), 0);
    var body := CheckBody(clauses, v, None);
    assert body != [] && body[0] == LetOld(OldVarName(operand), Fold(operand, DEFAULT_VARS).text + CLONE);
    ExecRejects(body, params, entry, result, ty);
  }

  lemma ExecRejects(body: seq<Stmt>, params: TyEnv, entry: Store, result: Value, ty: Ty)
    requires body != [] && body[0].LetOld?
    requires Cloned(body[0].rhs).None? || TypeOf(Cloned(body[0].rhs).value, params).None?
    ensures Exec(body, params, entry, result, ty) == Rejected
  {
  }

  /** `old(old(x))` takes a snapshot of its own variable, which is not declared. */
  lemma NestedOldIsRejected(x: string, op: BinOp, more: Expr, v: Vars, params: TyEnv, entry: Store, result: Value, ty: Ty)
    requires OLD_VAR_PREFIX + x !in params
    ensures Exec(CheckBody(OldFirst(Old(Ident(x)), op, more), v, None), params, entry, result, ty) == Rejected
  {
    hide Fold, Cloned, CLONE, Exec, CheckBody;
    CloneReadsIff(Old(Ident(x)), DEFAULT_VARS, {});
    RejectedOperandRejects(Old(Ident(x)), op, more, v, params, entry, result, ty);
  }

  /** `old(s.length())` calls `clone` on a type: `s.len() as u64.clone()`. */
  lemma OldLengthIsRejected(s: Expr, op: BinOp, more: Expr, v: Vars, params: TyEnv, entry: Store, result: Value, ty: Ty)
    requires NoShadow(s, {})
    ensures Exec(CheckBody(OldFirst(Length(s), op, more), v, None), params, entry, result, ty) == Rejected
  {
    hide Fold, Cloned, CLONE, Exec, CheckBody;
    CloneReadsIff(Length(s), DEFAULT_VARS, {});
    RejectedOperandRejects(Length(s), op, more, v, params, entry, result, ty);
  }

  // ----- Sums -----

  /**
   * `old(a + b) + a` over Int: the snapshot is folded without the names' kinds and is an
   * `i128`, the sum around it takes it for an `i64`, and Rust rejects it.
   */
  lemma OldSumIsRejected(a: string, b: string, v: Vars, env: TyEnv)
    requires Plain(a) && Plain(b) && a != "result" && b != "result"
    requires v == Vars({}, {a, b}, {}, true) && env == map[a := I64, b := I64]
    ensures var sum := Binary(Add, Ident(a), Ident(b));
      var snapshot := LetOlds([Snapshot(OldVarName(sum), sum)])[0];
      && TextType(Fold(sum, v).text, env) == Some(I64)
      && LetTypes(snapshot, env) == Some(I128)
      && TextType(Fold(Binary(Add, Old(sum), Ident(a)), v).text, env[OLD_VAR_PREFIX + snapshot.name := I128]) == None
  {
    hide Fold, ParseExpr, Text, Cloned, Read, TypeOf, OLD_VAR_PREFIX;
    var sum := Binary(Add, Ident(a), Ident(b));
    var e := Binary(Add, Old(sum), Ident(a));
    OneLet(Snapshot(OldVarName(sum), sum));
    FoldIsText(sum, v, {a, b});
    FoldIsText(e, v, {a, b});
    SumReads(a, b, v);
    OldSumReads(sum, a, v);
    TextParses(sum, v);
    TextParses(e, v);
    CloneReadsIff(sum, DEFAULT_VARS, {});
    SumTypes(a, b, OLD_VAR_PREFIX + OldVarName(sum), env);
    SnapshotIsNoName(OldVarName(sum), a);
  }

  lemma SumReads(a: string, b: string, v: Vars)
    requires v == Vars({}, {a, b}, {}, true) && a != "result" && b != "result"
    ensures var sum := Binary(Add, Ident(a), Ident(b));
      && MachineKind(sum, v) == Some(IntKind) && Readable(sum, v) && Readable(sum, DEFAULT_VARS)
      && Read(sum, v) == RMethod1(RVar(a), "wrapping_add", RVar(b))
      && Read(sum, DEFAULT_VARS) == RBin(Add, RWiden(RVar(a)), RWiden(RVar(b)))
  {
    assert MachineKind(Ident(a), v) == MachineKind(Ident(b), v) == Some(IntKind);
    assert FormOf(Add, Ident(a), Ident(b), v) == WrapForm(IntKind);
    assert FormOf(Add, Ident(a), Ident(b), DEFAULT_VARS) == WidenForm;
    assert ReadReceiver(Ident(a), IntKind, v) == RVar(a);
  }

  lemma OldSumReads(sum: Expr, a: string, v: Vars)
    requires v.renameResult && v.floats == {} && v.nats == {} && MachineKind(sum, v) == Some(IntKind) && a in v.ints && a != "result"
    requires IsNumeric(sum) && !HasFloat(sum, {}) && !HasU128Literal(sum)
    ensures var e := Binary(Add, Old(sum), Ident(a));
      Readable(e, v) && Read(e, v) == RMethod1(RVar(OLD_VAR_PREFIX + OldVarName(sum)), "wrapping_add", RVar(a))
  {
    assert MachineKind(Old(sum), v) == MachineKind(Ident(a), v) == Some(IntKind);
    assert FormOf(Add, Old(sum), Ident(a), v) == WrapForm(IntKind);
    assert ReadReceiver(Old(sum), IntKind, v) == RVar(OLD_VAR_PREFIX + OldVarName(sum));
  }

  lemma SnapshotIsNoName(name: string, a: string)
    requires Plain(a)
    ensures OLD_VAR_PREFIX + name != a
  {
    OldIsReserved(name);
  }

  lemma SumTypes(a: string, b: string, y: string, env: TyEnv)
    requires env == map[a := I64, b := I64]
    ensures TypeOf(RMethod1(RVar(a), "wrapping_add", RVar(b)), env) == Some(I64)
    ensures TypeOf(RBin(Add, RWiden(RVar(a)), RWiden(RVar(b))), env) == Some(I128)
    ensures y != a ==> TypeOf(RMethod1(RVar(y), "wrapping_add", RVar(a)), env[y := I128]) == None
  {
    assert TypeOf(RVar(a), env) == TypeOf(RVar(b), env) == Some(I64);
    assert TypeOf(RWiden(RVar(a)), env) == TypeOf(RWiden(RVar(b)), env) == Some(I128);
    assert TypeOf(RVar(y), env[y := I128]) == Some(I128);
    assert y != a ==> TypeOf(RVar(a), env[y := I128]) == Some(I64);
  }
}
