/**
 * The generated inputs against the meaning of the requires clauses: a tuple that the
 * strategies produce and the assumptions let through is one that the contract admits.
 */
module TestInputs {
  import opened Ast
  import opened Numeric
  import opened RustSyntax
  import opened RustSemantics
  import opened Emitter
  import opened Folder
  import opened Reading
  import opened Sources
  import opened Meanings
  import opened Compiler
  import Ranges

  /** The text emitted for the clause is Rust that evaluates to true. */
  predicate TextHolds(e: Expr, v: Vars, env: TyEnv, s: Store) {
    RunText(Fold(e, v).text, env, s) == Val(BoolV(true))
  }

  /** Judges a clause by its text. */
  function Judge(v: Vars, env: TyEnv, s: Store): Expr -> bool {
    e => TextHolds(e, v, env, s)
  }

  /** The integer types that Int and Nat parameters have. */
  predicate IsNamed(ty: string, t: Ty) {
    (ty == "i64" && t.I64?) || (ty == "u64" && t.U64?)
  }

  /** The parameter `x` is declared with the Rust type `ty`, and `i` is its value. */
  predicate HasValue(x: string, ty: string, i: int, v: Vars, env: TyEnv, s: Store) {
    var name := RustName(x, v.renameResult);
    name in env && IsNamed(ty, env[name]) && name in s && s[name] == IntV(i)
  }

  /** Every bounded parameter is declared, has its value of the tuple, and some value meets its bounds. */
  ghost predicate BoundsFit(clauses: seq<Expr>, types: map<string, string>, inputs: map<string, int>, v: Vars, env: TyEnv, s: Store) {
    var ranges := Ranges.SplitAll(clauses).ranges;
    forall x | x in ranges ::
      x in types && x in inputs && Ranges.Satisfiable(ranges[x], types[x]) && HasValue(x, types[x], inputs[x], v, env, s)
  }

  ghost predicate AllCompile(clauses: seq<Expr>, v: Vars, env: TyEnv, hidden: set<string>, names: set<string>) {
    && Tracked(v, env, hidden, names)
    && forall i :: 0 <= i < |clauses| ==> Compilable(clauses[i], v, env, hidden, names)
  }

  ghost predicate AllMean(clauses: seq<Expr>, renameResult: bool, env: TyEnv, s: Store) {
    forall i :: 0 <= i < |clauses| ==> Meaning(clauses[i], renameResult, env, s) == Val(BoolV(true))
  }

  lemma BoundTree(e: Expr, v: Vars)
    requires v.floats == {} && Ranges.TryExtractBound(e).Some?
    ensures e.Binary? && e.op.IsComparison() && e.lhs.Ident? && e.rhs.IntLit? && e.rhs.n <= Max(I64)
    ensures Intended(e, v) == RBin(e.op, RWiden(RVar(RustName(e.lhs.name, v.renameResult))), RWiden(RNum(e.rhs.n, LitSuffix(e.rhs.n))))
    ensures Readable(e, v) && NoOpenPrefix(e, v) && NoShadow(e, v.floats + v.ints + v.nats)
  {
    assert FormOf(e.op, e.lhs, e.rhs, v).WidenForm?;
  }

  lemma WidenedName(x: string, env: TyEnv, s: Store)
    requires x in env && (env[x].I64? || env[x].U64?) && StoreTyped(s, env)
    ensures TypeOf(RWiden(RVar(x)), env) == Some(I128)
    ensures Eval(RWiden(RVar(x)), env, s) == Val(s[x])
  {
    assert TypeOf(RVar(x), env) == Some(env[x]);
    assert Eval(RVar(x), env, s) == Val(s[x]);
  }

  lemma WidenedLiteral(n: nat, env: TyEnv, s: Store)
    requires n <= Max(I64)
    ensures TypeOf(RWiden(RNum(n, LitSuffix(n))), env) == Some(I128)
    ensures Eval(RWiden(RNum(n, LitSuffix(n))), env, s) == Val(IntV(n))
  {
    assert TypeOf(RNum(n, LitSuffix(n)), env).Some?;
    assert Eval(RNum(n, LitSuffix(n)), env, s) == Val(IntV(n));
  }

  /** The code emitted for a simple bound, with any literal it can hold, decides the bound. */
  lemma BoundIsEmitted(e: Expr, i: int, ty: string, v: Vars, env: TyEnv, s: Store)
    requires v.floats == {} && Ranges.TryExtractBound(e).Some? && StoreTyped(s, env)
    requires HasValue(Ranges.TryExtractBound(e).value.0, ty, i, v, env, s)
    ensures RunText(Fold(e, v).text, env, s) == Val(BoolV(Ranges.Satisfies(Ranges.TryExtractBound(e).value.1, i)))
  {
    hide Fold, Text, Intended, ParseExpr, Eval, TypeOf, Readable, NoOpenPrefix, StoreTyped, LitSuffix;
    BoundTree(e, v);
    FoldIsText(e, v, v.floats + v.ints + v.nats);
    TextParses(e, v);
    var l, r := RWiden(RVar(RustName(e.lhs.name, v.renameResult))), RWiden(RNum(e.rhs.n, LitSuffix(e.rhs.n)));
    WidenedName(RustName(e.lhs.name, v.renameResult), env, s);
    WidenedLiteral(e.rhs.n, env, s);
    BinEval(e.op, l, r, env, s);
  }

  /**
   * With bounds on Int and Nat parameters, satisfiable in their types, and none
   * saturating: a tuple is produced and passes every `prop_assume!` exactly when the code
   * emitted for every requires clause is true of it.
   */
  lemma InputsMatchTexts(clauses: seq<Expr>, types: map<string, string>, inputs: map<string, int>, v: Vars, env: TyEnv, s: Store)
    requires v.floats == {} && StoreTyped(s, env) && Ranges.SaturatesNever(clauses)
    requires BoundsFit(clauses, types, inputs, v, env, s)
    ensures Ranges.Reaches(Ranges.SplitAll(clauses), types, inputs, Judge(v, env, s))
       <==> forall i :: 0 <= i < |clauses| ==> TextHolds(clauses[i], v, env, s)
  {
    hide Fold, RunText, Ranges.ToStrategyFor, Ranges.Produces, Ranges.Satisfiable, Ranges.SplitAll, Ranges.Reaches, StoreTyped;
    var split := Ranges.SplitAll(clauses);
    var other := Judge(v, env, s);
    Ranges.InputsMatchRequires(clauses, types, inputs, other);
    forall x | x in split.ranges ensures Ranges.OfType(types[x], inputs[x]) { ValueOfType(x, types[x], inputs[x], v, env, s); }
    forall i | 0 <= i < |clauses|
      ensures Ranges.Meets(clauses[i], inputs, other) <==> TextHolds(clauses[i], v, env, s)
    {
      var e := clauses[i];
      if Ranges.TryExtractBound(e).Some? {
        BoundsAreRanges(clauses, i);
        var x := Ranges.TryExtractBound(e).value.0;
        BoundIsEmitted(e, inputs[x], types[x], v, env, s);
      }
    }
  }

  lemma ValueOfType(x: string, ty: string, i: int, v: Vars, env: TyEnv, s: Store)
    requires HasValue(x, ty, i, v, env, s) && StoreTyped(s, env)
    ensures Ranges.OfType(ty, i)
  {
    RangesAreTwosComplement(i);
    Ranges.SpelledTypes(ty);
    assert HasType(s[RustName(x, v.renameResult)], env[RustName(x, v.renameResult)]);
  }

  /** Every bounded parameter has a range. */
  lemma {:induction false} BoundsAreRanges(clauses: seq<Expr>, i: nat)
    requires i < |clauses| && Ranges.TryExtractBound(clauses[i]).Some?
    ensures Ranges.TryExtractBound(clauses[i]).value.0 in Ranges.SplitAll(clauses).ranges
    decreases |clauses|
  {
    hide Ranges.TryExtractBound, Ranges.Applied;
    var n := |clauses| - 1;
    if i < n {
      assert clauses[..n][i] == clauses[i];
      BoundsAreRanges(clauses[..n], i);
    }
  }

  /** For supported clauses: exactly when every requires clause means true. */
  lemma InputsMatchMeaning(clauses: seq<Expr>, types: map<string, string>, inputs: map<string, int>,
                           v: Vars, env: TyEnv, hidden: set<string>, names: set<string>, s: Store)
    requires StoreTyped(s, env) && AllCompile(clauses, v, env, hidden, names) && Ranges.SaturatesNever(clauses)
    requires BoundsFit(clauses, types, inputs, v, env, s)
    ensures Ranges.Reaches(Ranges.SplitAll(clauses), types, inputs, Judge(v, env, s)) <==> AllMean(clauses, v.renameResult, env, s)
  {
    hide Fold, RunText, Meaning, Compilable, Ranges.SplitAll, Ranges.Reaches, StoreTyped, HasValue, BoundsFit;
    InputsMatchTexts(clauses, types, inputs, v, env, s);
    forall i | 0 <= i < |clauses|
      ensures TextHolds(clauses[i], v, env, s) <==> Meaning(clauses[i], v.renameResult, env, s) == Val(BoolV(true))
    {
      CompiledTextIsFaithful(clauses[i], v, env, hidden, names, s);
    }
  }
}
