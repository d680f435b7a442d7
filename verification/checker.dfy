/**
 * The statements generated for a contract's `check` function, and what running them
 * observes of the contract.
 */
module Checker {
  import opened Ast
  import opened Numeric
  import opened RustSyntax
  import opened RustSemantics
  import opened Emitter
  import opened Folder
  import opened Widths
  import opened Sources
  import opened Meanings
  import opened Snapshots
  import opened Monitoring
  import opened Compiler
  import opened Reading
  import opened Clones

  datatype Stmt =
    | LetOld(name: string, rhs: seq<Token>)    // let __assura_old_<name> = <rhs>;
    | Assert(cond: seq<Token>)                 // rendered as a debug assertion, or as a comment
    | Body                                     // the implementation, which binds the result variable
    | TailBody                                 // the implementation as the function's value
    | Alias(name: string)                      // let <name> = <result>.clone();
    | Return                                   // the result variable as the function's value

  function Bodies(clauses: seq<Clause>, kind: ClauseKind): seq<Expr> {
    if clauses == [] then []
    else (if clauses[0].kind == kind then [clauses[0].body] else []) + Bodies(clauses[1..], kind)
  }

  function CountKind(clauses: seq<Clause>, kind: ClauseKind): nat {
    if clauses == [] then 0 else CountKind(clauses[..|clauses| - 1], kind) + (if clauses[|clauses| - 1].kind == kind then 1 else 0)
  }

  /** The bodies of one kind are those of all clauses of that kind, each at the place its clause has among them. */
  lemma {:induction false} BodyAt(clauses: seq<Clause>, kind: ClauseKind, i: nat)
    requires i < |clauses|
    ensures |Bodies(clauses, kind)| == CountKind(clauses, kind)
    ensures clauses[i].kind == kind ==>
      var k := CountKind(clauses[..i], kind); k < |Bodies(clauses, kind)| && Bodies(clauses, kind)[k] == clauses[i].body
    decreases |clauses|
  {
    hide Bodies, CountKind;
    var n := |clauses| - 1;
    BodiesStep(clauses, kind);
    if n == 0 { NoBodies(kind, clauses[..0]); } else { BodyAt(clauses[..n], kind, if i < n then i else 0); }
    if i < n { assert clauses[..n][i] == clauses[i] && clauses[..n][..i] == clauses[..i]; }
  }

  lemma BodiesStep(clauses: seq<Clause>, kind: ClauseKind)
    requires clauses != []
    ensures var front, last := clauses[..|clauses| - 1], clauses[|clauses| - 1];
      && Bodies(clauses, kind) == Bodies(front, kind) + (if last.kind == kind then [last.body] else [])
      && CountKind(clauses, kind) == CountKind(front, kind) + (if last.kind == kind then 1 else 0)
  {
    var front, last := clauses[..|clauses| - 1], clauses[|clauses| - 1];
    assert clauses == front + [last];
    BodiesAppend(front, [last], kind);
    OneBody(last, kind);
  }

  lemma OneBody(c: Clause, kind: ClauseKind)
    ensures Bodies([c], kind) == if c.kind == kind then [c.body] else []
  {
    assert [c][1..] == [];
  }

  lemma NoBodies(kind: ClauseKind, none: seq<Clause>)
    requires none == []
    ensures Bodies(none, kind) == [] && CountKind(none, kind) == 0
  {
  }

  function Asserts(bodies: seq<Expr>, v: Vars): seq<Stmt> {
    if bodies == [] then [] else [Assert(Fold(bodies[0], v).text)] + Asserts(bodies[1..], v)
  }

  function LetOlds(out: seq<Snapshot>): seq<Stmt> {
    if out == [] then [] else [LetOld(out[0].name, Fold(out[0].operand, DEFAULT_VARS).text + CLONE)] + LetOlds(out[1..])
  }

  /** Snapshots, preconditions, the body, its alias, postconditions and invariants, the result. */
  function CheckBody(clauses: seq<Clause>, v: Vars, alias: Option<string>): seq<Stmt> {
    var posts := Asserts(Bodies(clauses, Ensures), v) + Asserts(Bodies(clauses, Invariant), v);
    LetOlds(Prologue(Bodies(clauses, Ensures))) + Asserts(Bodies(clauses, Requires), v) +
    if posts == [] then [TailBody]
    else [Body] + (if alias.Some? then [Alias(alias.value)] else []) + posts + [Return]
  }

  /** The generator's second pass: convert the clauses, each with a folder of its own. */
  method ConvertClauses(clauses: seq<Clause>, v: Vars) returns (pre: seq<Stmt>, post: seq<Stmt>, inv: seq<Stmt>)
    ensures pre == Asserts(Bodies(clauses, Requires), v)
    ensures post == Asserts(Bodies(clauses, Ensures), v)
    ensures inv == Asserts(Bodies(clauses, Invariant), v)
  {
    hide Fold, Asserts, Bodies;
    pre, post, inv := [], [], [];
    NoClauses(v);
    for i := 0 to |clauses|
      invariant pre == Asserts(Bodies(clauses[..i], Requires), v)
      invariant post == Asserts(Bodies(clauses[..i], Ensures), v)
      invariant inv == Asserts(Bodies(clauses[..i], Invariant), v)
    {
      var clause := clauses[i];
      PushClause(clauses, i, Requires, v);
      PushClause(clauses, i, Ensures, v);
      PushClause(clauses, i, Invariant, v);
      if clause.kind != OtherKind {
        var folder := new RustCodegenFolder(v);
        var text := folder.FoldExpr(clause.body);
        match clause.kind {
          case Requires => pre := pre + [Assert(text)];
          case Ensures => post := post + [Assert(text)];
          case Invariant => inv := inv + [Assert(text)];
        }
      }
    }
    assert clauses[..|clauses|] == clauses;
  }

  method SnapshotStatements(clauses: seq<Clause>) returns (body: seq<Stmt>)
    ensures body == LetOlds(Prologue(Bodies(clauses, Ensures)))
  {
    hide Fold, Bodies, Collect, Prologue, LetOlds;
    NoClauses(DEFAULT_VARS);
    body := [];
    for i := 0 to |clauses|
      invariant body == LetOlds(Prologue(Bodies(clauses[..i], Ensures)))
    {
      PushSnapshots(clauses, i);
      if clauses[i].kind == Ensures {
        var collector := new OldCollector();
        collector.Walk(clauses[i].body);
        body := body + LetOlds(collector.out);
      }
    }
    assert clauses[..|clauses|] == clauses;
  }

  method GenerateCheck(clauses: seq<Clause>, v: Vars, alias: Option<string>) returns (body: seq<Stmt>)
    ensures body == CheckBody(clauses, v, alias)
  {
    hide Asserts, Bodies, LetOlds, Prologue;
    var pre, post, inv := ConvertClauses(clauses, v);
    body := SnapshotStatements(clauses);
    body := body + pre;
    if post == [] && inv == [] {
      body := body + [TailBody];
    } else {
      body := body + [Body];
      if alias.Some? { body := body + [Alias(alias.value)]; }
      body := body + post + inv + [Return];
    }
  }

  lemma NoClauses(v: Vars)
    ensures forall kind :: Asserts(Bodies([], kind), v) == []
    ensures LetOlds(Prologue(Bodies([], Ensures))) == []
  {
  }

  lemma {:induction false} BodiesAppend(a: seq<Clause>, b: seq<Clause>, kind: ClauseKind)
    ensures Bodies(a + b, kind) == Bodies(a, kind) + Bodies(b, kind)
  {
    if a == [] {
      assert a + b == b;
    } else {
      BodiesAppend(a[1..], b, kind);
      assert (a + b)[1..] == a[1..] + b;
      var first := if a[0].kind == kind then [a[0].body] else [];
      assert first + (Bodies(a[1..], kind) + Bodies(b, kind)) == first + Bodies(a[1..], kind) + Bodies(b, kind);
    }
  }

  lemma {:induction false} AssertsAppend(a: seq<Expr>, b: seq<Expr>, v: Vars)
    ensures Asserts(a + b, v) == Asserts(a, v) + Asserts(b, v)
  {
    hide Fold;
    if a == [] {
      assert a + b == b;
    } else {
      AssertsAppend(a[1..], b, v);
      assert (a + b)[0] == a[0] && (a + b)[1..] == a[1..] + b;
      var first, rest, tail := [Assert(Fold(a[0], v).text)], Asserts(a[1..], v), Asserts(b, v);
      assert first + (rest + tail) == first + rest + tail;
    }
  }

  lemma {:induction false} PrologueAppend(a: seq<Expr>, b: seq<Expr>)
    ensures Prologue(a + b) == Prologue(a) + Prologue(b)
  {
    hide Collect;
    if a == [] {
      assert a + b == b;
    } else {
      PrologueAppend(a[1..], b);
      assert (a + b)[0] == a[0] && (a + b)[1..] == a[1..] + b;
      var first, rest, tail := Collect(a[0], []), Prologue(a[1..]), Prologue(b);
      assert first + (rest + tail) == first + rest + tail;
    }
  }

  lemma {:induction false} LetOldsAppend(a: seq<Snapshot>, b: seq<Snapshot>)
    ensures LetOlds(a + b) == LetOlds(a) + LetOlds(b)
  {
    hide Fold;
    if a == [] {
      assert a + b == b;
    } else {
      LetOldsAppend(a[1..], b);
      assert (a + b)[0] == a[0] && (a + b)[1..] == a[1..] + b;
      var first, rest, tail := [LetOld(a[0].name, Fold(a[0].operand, DEFAULT_VARS).text + CLONE)], LetOlds(a[1..]), LetOlds(b);
      assert first + (rest + tail) == first + rest + tail;
    }
  }

  lemma OneClause(c: Clause, kind: ClauseKind, v: Vars)
    ensures Bodies([c], kind) == if c.kind == kind then [c.body] else []
    ensures Asserts([c.body], v) == [Assert(Fold(c.body, v).text)]
    ensures Prologue([c.body]) == Collect(c.body, [])
  {
    assert [c][1..] == [] && [c.body][1..] == [];
  }

  lemma PushClause(clauses: seq<Clause>, i: nat, kind: ClauseKind, v: Vars)
    requires i < |clauses|
    ensures Asserts(Bodies(clauses[..i + 1], kind), v) == Asserts(Bodies(clauses[..i], kind), v)
      + if clauses[i].kind == kind then [Assert(Fold(clauses[i].body, v).text)] else []
  {
    assert clauses[..i + 1] == clauses[..i] + [clauses[i]];
    BodiesAppend(clauses[..i], [clauses[i]], kind);
    OneClause(clauses[i], kind, v);
    AssertsAppend(Bodies(clauses[..i], kind), Bodies([clauses[i]], kind), v);
  }

  lemma PushSnapshots(clauses: seq<Clause>, i: nat)
    requires i < |clauses|
    ensures LetOlds(Prologue(Bodies(clauses[..i + 1], Ensures))) == LetOlds(Prologue(Bodies(clauses[..i], Ensures)))
      + if clauses[i].kind == Ensures then LetOlds(Collect(clauses[i].body, [])) else []
  {
    assert clauses[..i + 1] == clauses[..i] + [clauses[i]];
    BodiesAppend(clauses[..i], [clauses[i]], Ensures);
    OneClause(clauses[i], Ensures, DEFAULT_VARS);
    PrologueAppend(Bodies(clauses[..i], Ensures), Bodies([clauses[i]], Ensures));
    LetOldsAppend(Prologue(Bodies(clauses[..i], Ensures)), Prologue(Bodies([clauses[i]], Ensures)));
  }

  // ----- Running `check` -----

  /** `Failed` names the condition that is false or panics. */
  datatype Exit = Returned(v: Value) | Failed(cond: seq<Token>) | Panicked | Rejected

  /**
   * Runs the statements with assertions on. `result`, of type `ty`, is what the body
   * produces; it changes no parameter and no snapshot. A flagged assertion is a comment.
   */
  function Exec(stmts: seq<Stmt>, env: TyEnv, s: Store, result: Value, ty: Ty): Exit {
    if stmts == [] then Rejected else
    var rest := stmts[1..];
    match stmts[0]
    case LetOld(name, rhs) =>
      var cloned := Cloned(rhs);
      if cloned.None? || TypeOf(cloned.value, env).None? then Rejected
      else
        var t, r := LetType(TypeOf(cloned.value, env).value), Eval(cloned.value, env, s);
        if r.Val? then Exec(rest, env[OLD_VAR_PREFIX + name := t], s[OLD_VAR_PREFIX + name := r.v], result, ty)
        else Panicked
    case Assert(cond) =>
      if HasDeepFieldAccess(cond) then Exec(rest, env, s, result, ty)
      else if TextType(cond, env) != Some(Bool) then Rejected
      else if RunText(cond, env, s) == Val(BoolV(true)) then Exec(rest, env, s, result, ty)
      else Failed(cond)
    case Body => Exec(rest, env[RESULT_VAR := ty], s[RESULT_VAR := result], result, ty)
    case TailBody => Returned(result)
    case Alias(name) =>
      if RESULT_VAR in env && RESULT_VAR in s
      then Exec(rest, env[name := env[RESULT_VAR]], s[name := s[RESULT_VAR]], result, ty) else Rejected
    case Return => if RESULT_VAR in s then Returned(s[RESULT_VAR]) else Rejected
  }

  /** The clause is true, or its assertion is only a comment. */
  predicate Passes(e: Expr, v: Vars, env: TyEnv, s: Store) {
    HasDeepFieldAccess(Text(e, v)) || Meaning(e, v.renameResult, env, s) == Val(BoolV(true))
  }

  predicate AllPass(bodies: seq<Expr>, v: Vars, env: TyEnv, s: Store) {
    forall i :: 0 <= i < |bodies| ==> Passes(bodies[i], v, env, s)
  }

  function FirstFailing(bodies: seq<Expr>, v: Vars, env: TyEnv, s: Store): Option<Expr> {
    if bodies == [] then None
    else if Passes(bodies[0], v, env, s) then FirstFailing(bodies[1..], v, env, s)
    else Some(bodies[0])
  }

  /** How a run of assertions in front of `otherwise` ends: with the first one that fails. */
  function Stops(bodies: seq<Expr>, v: Vars, env: TyEnv, s: Store, otherwise: Exit): Exit {
    if FirstFailing(bodies, v, env, s).Some? then Failed(Text(FirstFailing(bodies, v, env, s).value, v)) else otherwise
  }

  lemma {:induction false} FailingIff(bodies: seq<Expr>, v: Vars, env: TyEnv, s: Store)
    ensures FirstFailing(bodies, v, env, s).None? <==> AllPass(bodies, v, env, s)
  {
    hide Passes;
    if bodies != [] {
      FailingIff(bodies[1..], v, env, s);
      AllPassStep(bodies, v, env, s);
    }
  }

  /** Supported clauses, of source type bool in `env`. */
  ghost predicate Boolean(bodies: seq<Expr>, v: Vars, env: TyEnv, hidden: set<string>, names: set<string>) {
    && Tracked(v, env, hidden, names)
    && forall i :: 0 <= i < |bodies| ==>
         Compilable(bodies[i], v, env, hidden, names) && SourceType(bodies[i], v.renameResult, env) == Some(Bool)
  }

  lemma {:induction false} ExecAsserts(bodies: seq<Expr>, rest: seq<Stmt>, v: Vars, env: TyEnv, s: Store,
                                       result: Value, ty: Ty, hidden: set<string>, names: set<string>)
    requires Boolean(bodies, v, env, hidden, names) && StoreTyped(s, env)
    ensures Exec(Asserts(bodies, v) + rest, env, s, result, ty)
         == Stops(bodies, v, env, s, Exec(rest, env, s, result, ty))
  {
    hide Fold, Text, Meaning, SourceType, HasDeepFieldAccess, RunText, TextType, Compilable, Tracked, StoreTyped;
    if bodies == [] {
      assert Asserts(bodies, v) + rest == rest;
    } else {
      var e := bodies[0];
      assert forall i :: 0 <= i < |bodies[1..]| ==> bodies[1..][i] == bodies[i + 1];
      ExecAsserts(bodies[1..], rest, v, env, s, result, ty, hidden, names);
      CompiledTextIsFaithful(e, v, env, hidden, names, s);
      var stmts := Asserts(bodies, v) + rest;
      assert stmts[0] == Assert(Fold(e, v).text) && stmts[1..] == Asserts(bodies[1..], v) + rest;
    }
  }

  lemma AllPassStep(bodies: seq<Expr>, v: Vars, env: TyEnv, s: Store)
    requires bodies != []
    ensures AllPass(bodies, v, env, s) <==> Passes(bodies[0], v, env, s) && AllPass(bodies[1..], v, env, s)
  {
    hide Passes;
    if Passes(bodies[0], v, env, s) && AllPass(bodies[1..], v, env, s) {
      forall i | 0 <= i < |bodies| ensures Passes(bodies[i], v, env, s) {
        if i > 0 { assert bodies[i] == bodies[1..][i - 1]; }
      }
    }
    if AllPass(bodies, v, env, s) {
      forall i | 0 <= i < |bodies[1..]| ensures Passes(bodies[1..][i], v, env, s) { assert bodies[1..][i] == bodies[i + 1]; }
    }
  }

  // ----- Snapshots of parameters -----

  /** Parameters are user names of emittable types, and every `old` is of a parameter. */
  ghost predicate OfParameters(out: seq<Snapshot>, params: TyEnv) {
    forall i :: 0 <= i < |out| ==> out[i].operand.Ident? && out[i].operand.name in params && out[i].name == out[i].operand.name
  }

  ghost predicate Parameters(params: TyEnv) {
    forall x | x in params :: Plain(x) && x != "result" && Emittable(params[x])
  }

  function WithOlds(out: seq<Snapshot>, params: TyEnv, env: TyEnv): TyEnv
    requires OfParameters(out, params)
  {
    if out == [] then env
    else WithOlds(out[1..], params, env[OLD_VAR_PREFIX + out[0].name := params[out[0].name]])
  }

  function WithOldValues(out: seq<Snapshot>, entry: Store, s: Store): Store
    requires forall i :: 0 <= i < |out| ==> out[i].name in entry
  {
    if out == [] then s
    else WithOldValues(out[1..], entry, s[OLD_VAR_PREFIX + out[0].name := entry[out[0].name]])
  }

  /** Cloning a parameter gives its value at its type. */
  lemma ParameterRuns(x: string, params: TyEnv, env: TyEnv, s: Store)
    requires Parameters(params) && x in params && x in env && env[x] == params[x] && x in s
    ensures var t := RVar(x);
      Cloned(Fold(Ident(x), DEFAULT_VARS).text + CLONE) == Some(t)
      && TypeOf(t, env) == Some(env[x]) && Eval(t, env, s) == Val(s[x]) && LetType(env[x]) == env[x]
  {
    hide Fold, Cloned;
    PathIsCloned(Ident(x));
  }

  lemma {:induction false} ExecLetOlds(out: seq<Snapshot>, rest: seq<Stmt>, params: TyEnv, entry: Store,
                                       env: TyEnv, s: Store, result: Value, ty: Ty)
    requires Parameters(params) && OfParameters(out, params)
    requires forall x | x in params :: x in entry && x in env && env[x] == params[x] && x in s && s[x] == entry[x]
    ensures Exec(LetOlds(out) + rest, env, s, result, ty)
         == Exec(rest, WithOlds(out, params, env), WithOldValues(out, entry, s), result, ty)
  {
    hide Fold, Cloned, TypeOf, Eval, Parameters, Plain, OLD_VAR_PREFIX, RESULT_VAR, LetType, CLONE;
    if out == [] {
      assert LetOlds(out) + rest == rest;
    } else {
      var x := out[0].name;
      ParameterRuns(x, params, env, s);
      var stmts := LetOlds(out) + rest;
      assert stmts[0] == LetOld(x, Fold(Ident(x), DEFAULT_VARS).text + CLONE) && stmts[1..] == LetOlds(out[1..]) + rest;
      assert forall i :: 0 <= i < |out[1..]| ==> out[1..][i] == out[i + 1];
      OldIsNotParameter(x, params);
      ExecLetOlds(out[1..], rest, params, entry, env[OLD_VAR_PREFIX + x := params[x]], s[OLD_VAR_PREFIX + x := entry[x]], result, ty);
    }
  }

  lemma OldIsNotParameter(x: string, params: TyEnv)
    requires Parameters(params)
    ensures OLD_VAR_PREFIX + x !in params && OLD_VAR_PREFIX + x != RESULT_VAR && RESULT_VAR !in params
  {
    var y := OLD_VAR_PREFIX + x;
    assert y[..9] == "__assura_" && RESULT_VAR[..9] == "__assura_";
    assert "__assura_" <= y && "__assura_" <= RESULT_VAR;
    assert y[9] == 'o' && RESULT_VAR[9] == 'r';
  }

  /** The store after the snapshots, next to the entry store. */
  ghost predicate AfterSnapshots(out: seq<Snapshot>, entry: Store, env: TyEnv, s: Store, env': TyEnv, s': Store)
    requires StoreTyped(s, env)
    requires forall i :: 0 <= i < |out| ==> out[i].name in entry
  {
    && StoreTyped(s', env')
    && (forall x | x in env && IsKept(out, x) :: x in env' && env'[x] == env[x] && s'[x] == s[x])
    && (forall i :: 0 <= i < |out| ==> Holds(env', s', OLD_VAR_PREFIX + out[i].name, entry[out[i].name]))
  }

  predicate IsKept(out: seq<Snapshot>, x: string) {
    forall i :: 0 <= i < |out| ==> x != OLD_VAR_PREFIX + out[i].name
  }

  predicate Holds(env: TyEnv, s: Store, x: string, value: Value) {
    x in env && x in s && s[x] == value
  }

  /** Parameters and everything else are as before, and each snapshot holds its parameter's entry value. */
  lemma {:induction false} SnapshotState(out: seq<Snapshot>, params: TyEnv, entry: Store, env: TyEnv, s: Store)
    requires OfParameters(out, params) && StoreTyped(entry, params) && StoreTyped(s, env)
    ensures AfterSnapshots(out, entry, env, s, WithOlds(out, params, env), WithOldValues(out, entry, s))
  {
    if out != [] {
      var name := out[0].name;
      var y := OLD_VAR_PREFIX + name;
      var env1, s1 := env[y := params[name]], s[y := entry[name]];
      var rest := out[1..];
      assert forall i :: 0 <= i < |rest| ==> rest[i] == out[i + 1];
      SnapshotState(rest, params, entry, env1, s1);
      var env', s' := WithOlds(out, params, env), WithOldValues(out, entry, s);
      forall x | x in env && IsKept(out, x) ensures x in env' && env'[x] == env[x] && s'[x] == s[x] {
        assert x != OLD_VAR_PREFIX + out[0].name;
        assert IsKept(rest, x);
      }
      forall i | 0 <= i < |out| ensures Holds(env', s', OLD_VAR_PREFIX + out[i].name, entry[out[i].name]) {
        if i > 0 {
          assert out[i] == rest[i - 1];
        } else if !IsKept(rest, y) {
          var j :| 0 <= j < |rest| && y == OLD_VAR_PREFIX + rest[j].name;
          SamePrefix(name, rest[j].name);
        }
      }
    }
  }

  // ----- Main results -----

  /** A contract, its declared parameters and result type, and one call. */
  datatype Call = Call(clauses: seq<Clause>, v: Vars, alias: Option<string>, params: TyEnv, ty: Ty, entry: Store, result: Value)
  {
    function Pre(): seq<Expr> { Bodies(clauses, Requires) }

    function Post(): seq<Expr> { Bodies(clauses, Ensures) }

    function Inv(): seq<Expr> { Bodies(clauses, Invariant) }

    function Olds(): seq<Snapshot> { Prologue(Post()) }

    ghost predicate WellDeclared() {
      && v.floats == {} && Parameters(params) && StoreTyped(entry, params) && OfParameters(Olds(), params)
      && Emittable(ty) && HasType(result, ty)
      && (alias.Some? ==> Plain(alias.value) && alias.value !in params)
    }

    /** The names in scope once the snapshots are taken. */
    function EntryEnv(): TyEnv
      requires OfParameters(Olds(), params)
    {
      WithOlds(Olds(), params, params)
    }

    function EntryStore(): Store
      requires forall i :: 0 <= i < |Olds()| ==> Olds()[i].name in entry
    {
      WithOldValues(Olds(), entry, entry)
    }

    /** The names in scope once the body has produced its result. */
    function ExitEnv(): TyEnv
      requires OfParameters(Olds(), params)
    {
      var env := EntryEnv()[RESULT_VAR := ty];
      if alias.Some? then env[alias.value := ty] else env
    }

    function ExitStore(): Store
      requires forall i :: 0 <= i < |Olds()| ==> Olds()[i].name in entry
    {
      var s := EntryStore()[RESULT_VAR := result];
      if alias.Some? then s[alias.value := result] else s
    }

    /**
     * Every clause is a supported Boolean where it is evaluated; `hidden` are the names
     * whose declared kind the folder was not told.
     */
    ghost predicate InFragment(hidden: set<string>, names: set<string>)
      requires WellDeclared()
    {
      && Boolean(Pre(), v, EntryEnv(), hidden, names)
      && Boolean(Post(), v, ExitEnv(), hidden, names) && Boolean(Inv(), v, ExitEnv(), hidden, names)
    }
  }

  /** What the clauses see on entry and on exit. */
  lemma CallStates(c: Call)
    requires c.WellDeclared()
    ensures StoreTyped(c.EntryStore(), c.EntryEnv()) && StoreTyped(c.ExitStore(), c.ExitEnv())
    ensures forall x | x in c.params ::
      Holds(c.EntryEnv(), c.EntryStore(), x, c.entry[x]) && Holds(c.ExitEnv(), c.ExitStore(), x, c.entry[x])
    ensures Holds(c.ExitEnv(), c.ExitStore(), RESULT_VAR, c.result)
    ensures c.alias.Some? ==> Holds(c.ExitEnv(), c.ExitStore(), c.alias.value, c.result)
    ensures forall i | 0 <= i < |c.Olds()| ::
      Holds(c.ExitEnv(), c.ExitStore(), OLD_VAR_PREFIX + c.Olds()[i].name, c.entry[c.Olds()[i].name])
  {
    hide WithOlds, WithOldValues, Collect;
    SnapshotState(c.Olds(), c.params, c.entry, c.params, c.entry);
    OldIsNotParameter("", c.params);
    forall x | x in c.params ensures IsKept(c.Olds(), x) && x in c.EntryEnv() && c.EntryStore()[x] == c.entry[x] {
      forall i | 0 <= i < |c.Olds()| ensures x != OLD_VAR_PREFIX + c.Olds()[i].name {
        OldIsNotParameter(c.Olds()[i].name, c.params);
      }
    }
    forall i | 0 <= i < |c.Olds()|
      ensures Holds(c.ExitEnv(), c.ExitStore(), OLD_VAR_PREFIX + c.Olds()[i].name, c.entry[c.Olds()[i].name])
    {
      OldIsNotParameter(c.Olds()[i].name, c.params);
      if c.alias.Some? { OldIsReserved(c.Olds()[i].name); }
    }
  }

  lemma OldIsReserved(x: string)
    ensures !Plain(OLD_VAR_PREFIX + x) && !Plain(RESULT_VAR)
  {
    assert (OLD_VAR_PREFIX + x)[..9] == "__assura_" && RESULT_VAR[..9] == "__assura_";
  }

  /**
   * `check` returns its body's result when every requires clause passes on entry and
   * every ensures and invariant clause passes on exit. Otherwise it reports the first
   * clause that does not: of the requires clauses, then the ensures clauses, then the
   * invariants, each in the order they are written.
   */
  lemma CheckRunsContract(c: Call, hidden: set<string>, names: set<string>)
    requires c.WellDeclared() && c.InFragment(hidden, names)
    ensures Exec(CheckBody(c.clauses, c.v, c.alias), c.params, c.entry, c.result, c.ty)
         == Stops(c.Pre(), c.v, c.EntryEnv(), c.EntryStore(),
              Stops(c.Post(), c.v, c.ExitEnv(), c.ExitStore(),
                Stops(c.Inv(), c.v, c.ExitEnv(), c.ExitStore(), Returned(c.result))))
  {
    hide Asserts, LetOlds, Bodies, Prologue, WithOlds, WithOldValues, Stops, Boolean, Exec, HasType;
    CallStates(c);
    var post, inv := Asserts(c.Post(), c.v), Asserts(c.Inv(), c.v);
    var tail := if post + inv == [] then [TailBody]
      else [Body] + (if c.alias.Some? then [Alias(c.alias.value)] else []) + (post + inv) + [Return];
    assert CheckBody(c.clauses, c.v, c.alias) == LetOlds(c.Olds()) + (Asserts(c.Pre(), c.v) + tail);
    ExecLetOlds(c.Olds(), Asserts(c.Pre(), c.v) + tail, c.params, c.entry, c.params, c.entry, c.result, c.ty);
    ExecAsserts(c.Pre(), tail, c.v, c.EntryEnv(), c.EntryStore(), c.result, c.ty, hidden, names);
    ExecTail(c, tail, hidden, names);
  }

  lemma ExecTail(c: Call, tail: seq<Stmt>, hidden: set<string>, names: set<string>)
    requires c.WellDeclared() && c.InFragment(hidden, names)
    requires var post, inv := Asserts(c.Post(), c.v), Asserts(c.Inv(), c.v);
      tail == if post + inv == [] then [TailBody]
        else [Body] + (if c.alias.Some? then [Alias(c.alias.value)] else []) + (post + inv) + [Return]
    ensures Exec(tail, c.EntryEnv(), c.EntryStore(), c.result, c.ty)
         == Stops(c.Post(), c.v, c.ExitEnv(), c.ExitStore(),
              Stops(c.Inv(), c.v, c.ExitEnv(), c.ExitStore(), Returned(c.result)))
  {
    hide Asserts, Bodies, Prologue, WithOlds, WithOldValues, Boolean, Passes, HasType, Exec;
    CallStates(c);
    var post, inv := Asserts(c.Post(), c.v), Asserts(c.Inv(), c.v);
    if post + inv == [] {
      NoAsserts(c.Post(), c.v);
      NoAsserts(c.Inv(), c.v);
      assert post == [] && inv == [];
      ExecTailBody(tail, c.EntryEnv(), c.EntryStore(), c.result, c.ty);
    } else {
      ExecBody(tail, post + inv, c);
      assert post + inv + [Return] == post + (inv + [Return]);
      ExecAsserts(c.Post(), inv + [Return], c.v, c.ExitEnv(), c.ExitStore(), c.result, c.ty, hidden, names);
      ExecAsserts(c.Inv(), [Return], c.v, c.ExitEnv(), c.ExitStore(), c.result, c.ty, hidden, names);
      ExecReturn(c.ExitEnv(), c.ExitStore(), c.result, c.ty);
    }
  }

  lemma NoAsserts(bodies: seq<Expr>, v: Vars)
    ensures Asserts(bodies, v) == [] <==> bodies == []
  {
  }

  lemma ExecTailBody(tail: seq<Stmt>, env: TyEnv, s: Store, result: Value, ty: Ty)
    requires tail == [TailBody]
    ensures Exec(tail, env, s, result, ty) == Returned(result)
  {
  }

  lemma ExecReturn(env: TyEnv, s: Store, result: Value, ty: Ty)
    requires RESULT_VAR in s
    ensures Exec([Return], env, s, result, ty) == Returned(s[RESULT_VAR])
  {
  }

  lemma ExecBody(tail: seq<Stmt>, posts: seq<Stmt>, c: Call)
    requires c.WellDeclared()
    requires tail == [Body] + (if c.alias.Some? then [Alias(c.alias.value)] else []) + posts + [Return]
    ensures Exec(tail, c.EntryEnv(), c.EntryStore(), c.result, c.ty)
         == Exec(posts + [Return], c.ExitEnv(), c.ExitStore(), c.result, c.ty)
  {
    hide WithOlds, WithOldValues;
    var asserts := posts + [Return];
    var env, s := c.EntryEnv()[RESULT_VAR := c.ty], c.EntryStore()[RESULT_VAR := c.result];
    if c.alias.Some? {
      var rest := [Alias(c.alias.value)] + asserts;
      assert tail == [Body] + rest && tail[1..] == rest && rest[1..] == asserts;
      assert Exec(rest, env, s, c.result, c.ty) == Exec(asserts, c.ExitEnv(), c.ExitStore(), c.result, c.ty);
    } else {
      assert tail[1..] == asserts;
    }
  }

  /** Whether a clause's assertion is executed at all. */
  predicate Monitored(bodies: seq<Expr>, v: Vars) {
    forall i :: 0 <= i < |bodies| ==> !HasDeepFieldAccess(Text(bodies[i], v))
  }

  predicate AllTrue(bodies: seq<Expr>, v: Vars, env: TyEnv, s: Store) {
    forall i :: 0 <= i < |bodies| ==> Meaning(bodies[i], v.renameResult, env, s) == Val(BoolV(true))
  }

  /** When no assertion is left as a comment, `check` returns exactly when the contract holds. */
  lemma CheckIsFaithful(c: Call, hidden: set<string>, names: set<string>)
    requires c.WellDeclared() && c.InFragment(hidden, names)
    requires Monitored(c.Pre(), c.v) && Monitored(c.Post(), c.v) && Monitored(c.Inv(), c.v)
    ensures Exec(CheckBody(c.clauses, c.v, c.alias), c.params, c.entry, c.result, c.ty) == Returned(c.result)
       <==> AllTrue(c.Pre(), c.v, c.EntryEnv(), c.EntryStore())
            && AllTrue(c.Post(), c.v, c.ExitEnv(), c.ExitStore()) && AllTrue(c.Inv(), c.v, c.ExitEnv(), c.ExitStore())
  {
    hide HasDeepFieldAccess, Meaning, Text, Bodies, Prologue, WithOlds, WithOldValues, Exec, CheckBody, FirstFailing;
    CheckRunsContract(c, hidden, names);
    FailingIff(c.Pre(), c.v, c.EntryEnv(), c.EntryStore());
    FailingIff(c.Post(), c.v, c.ExitEnv(), c.ExitStore());
    FailingIff(c.Inv(), c.v, c.ExitEnv(), c.ExitStore());
  }

  /** `ensures result == a + b` over Int, called with 1 and 1, and a body that returns 7. */
  function SumClause(): Expr {
    Binary(Eq, Ident("result"), Binary(Add, Ident("a"), Ident("b")))
  }

  function WrongSum(): Call {
    Call([Clause(Ensures, SumClause())], Vars({}, {"a", "b", "result"}, {}, true), None,
         map["a" := I64, "b" := I64], I64, map["a" := IntV(1), "b" := IntV(1)], IntV(7))
  }

  lemma WrongSumParts(c: Call)
    requires c == WrongSum()
    ensures c.Post() == [SumClause()] && c.Pre() == [] && c.Inv() == [] && c.Olds() == []
    ensures c.WellDeclared()
    ensures c.EntryEnv() == c.params && c.EntryStore() == c.entry
  {
    assert c.clauses[1..] == [];
    assert Collect(SumClause(), []) == [];
    assert Prologue([SumClause()]) == Collect(SumClause(), []) + Prologue([]) by { assert [SumClause()][1..] == []; }
  }

  /** The clause is false, its assertion is a comment, and `check` returns the wrong sum. */
  lemma WrongSumIsReturned(c: Call)
    requires c == WrongSum()
    ensures c.WellDeclared()
    ensures Meaning(SumClause(), true, c.ExitEnv(), c.ExitStore()) == Val(BoolV(false))
    ensures HasDeepFieldAccess(Text(SumClause(), c.v))
    ensures Exec(CheckBody(c.clauses, c.v, c.alias), c.params, c.entry, c.result, c.ty) == Returned(IntV(7))
  {
    hide HasDeepFieldAccess, Text, Exec, CheckBody, Bodies, Prologue, WithOlds, WithOldValues, Meaning, SourceType, Supported,
         NamedReceiver, DotsTheResult;
    var names := {"a", "b", "result"};
    WrongSumParts(c);
    SumTypes(c.v, c.ExitEnv(), c.ExitStore());
    UncheckedIff(SumClause(), c.v);
    assert NoShadow(SumClause(), names);
    SumTracked(c.v, c.EntryEnv());
    SumTracked(c.v, c.ExitEnv());
    assert c.InFragment({}, names);
    CheckRunsContract(c, {}, names);
    FailingIff(c.Pre(), c.v, c.EntryEnv(), c.EntryStore());
    FailingIff(c.Post(), c.v, c.ExitEnv(), c.ExitStore());
    FailingIff(c.Inv(), c.v, c.ExitEnv(), c.ExitStore());
  }

  lemma SumTracked(v: Vars, env: TyEnv)
    requires v == Vars({}, {"a", "b", "result"}, {}, true)
    requires env == map["a" := I64, "b" := I64] || env == map["a" := I64, "b" := I64, RESULT_VAR := I64]
    ensures Tracked(v, env, {}, {"a", "b", "result"})
  {
    OldIsReserved("");
    assert "a"[0] != RESULT_VAR[0] && "b"[0] != RESULT_VAR[0];
  }

  lemma SumTypes(v: Vars, env: TyEnv, s: Store)
    requires v == Vars({}, {"a", "b", "result"}, {}, true)
    requires env == map["a" := I64, "b" := I64, RESULT_VAR := I64]
    requires s == map["a" := IntV(1), "b" := IntV(1), RESULT_VAR := IntV(7)]
    ensures var sum := SumClause();
      && SourceType(sum, true, env) == Some(Bool) && Supported(sum, true, env, {})
      && Meaning(sum, true, env, s) == Val(BoolV(false))
      && NamedReceiver(sum, v) && !DotsTheResult(sum, v)
  {
    hide Meaning, Supported, SourceType, NamedReceiver, DotsTheResult;
    NamesTyped(env);
    SumSupported(env);
    SumMeans(env, s);
    SumReceiver(v);
  }

  lemma SumSupported(env: TyEnv)
    requires env == map["a" := I64, "b" := I64, RESULT_VAR := I64]
    ensures SourceType(Binary(Add, Ident("a"), Ident("b")), true, env) == Some(I64)
    ensures SourceType(SumClause(), true, env) == Some(Bool) && Supported(SumClause(), true, env, {})
  {
    var total := Binary(Add, Ident("a"), Ident("b"));
    NamesTyped(env);
    assert SourceType(total, true, env) == Some(I64);
    assert Supported(Ident("a"), true, env, {}) && Supported(Ident("b"), true, env, {}) && Supported(Ident("result"), true, env, {});
    assert Supported(total, true, env, {});
  }

  lemma SumMeans(env: TyEnv, s: Store)
    requires env == map["a" := I64, "b" := I64, RESULT_VAR := I64]
    requires s == map["a" := IntV(1), "b" := IntV(1), RESULT_VAR := IntV(7)]
    ensures Meaning(SumClause(), true, env, s) == Val(BoolV(false))
  {
    hide SourceType;
    var total := Binary(Add, Ident("a"), Ident("b"));
    SumSupported(env);
    assert Meaning(total, true, env, s) == Val(IntV(Wrap(I64, 2)));
    WrapInRange(I64, 2);
  }

  lemma NamesTyped(env: TyEnv)
    requires env == map["a" := I64, "b" := I64, RESULT_VAR := I64]
    ensures SourceType(Ident("a"), true, env) == SourceType(Ident("b"), true, env) == SourceType(Ident("result"), true, env) == Some(I64)
  {
  }

  lemma SumReceiver(v: Vars)
    requires v == Vars({}, {"a", "b", "result"}, {}, true)
    ensures NamedReceiver(SumClause(), v) && !DotsTheResult(SumClause(), v)
  {
    var total := Binary(Add, Ident("a"), Ident("b"));
    assert NamedReceiver(total, v);
    assert !DotsTheResult(total, v) && !DotsTheResult(Ident("result"), v);
  }
}
