/** The whole pipeline: fold the expression, let Rust read the text, type it and run it. */
module Compiler {
  import opened Ast
  import opened Numeric
  import opened RustSyntax
  import opened RustSemantics
  import opened Emitter
  import opened Folder
  import opened Reading
  import opened Widths
  import opened Sources
  import opened Branches
  import opened Soundness
  import opened Meanings

  /** What `text` does when it is compiled in `env` and run in `s`; `Stuck` if it does not compile. */
  function RunText(text: seq<Token>, env: TyEnv, s: Store): Outcome {
    match ParseExpr(text)
    case Fail => Stuck
    case Got(t, rest) => if rest == [] then Eval(t, env, s) else Stuck
  }

  function TextType(text: seq<Token>, env: TyEnv): Option<Ty> {
    match ParseExpr(text)
    case Fail => None
    case Got(t, rest) => if rest == [] then TypeOf(t, env) else None
  }

  /**
   * For every supported expression, the text the mutable folder writes parses,
   * type-checks at the type of its source, and evaluates to its meaning; and the folder's
   * sets are as they were.
   */
  lemma CompiledTextIsFaithful(e: Expr, v: Vars, env: TyEnv, hidden: set<string>, names: set<string>, s: Store)
    requires Compilable(e, v, env, hidden, names) && StoreTyped(s, env)
    ensures Fold(e, v) == Folded(Text(e, v), v)
    ensures TextType(Fold(e, v).text, env) == SourceType(e, v.renameResult, env)
    ensures RunText(Fold(e, v).text, env, s) == Meaning(e, v.renameResult, env, s)
  {
    hide Fold, ParseExpr, Text, Intended, Read, Eval, TypeOf, Meaning, Width, NoShadow, Supported, Recorded;
    FoldIsText(e, v, names);
    SourceTypeIsEmitted(e, v, env, hidden, names);
    WidthShape(e, v, env);
    TextParses(e, v);
    EmittedComputesMeaning(e, v, env, hidden, names, s);
  }

  /**
   * Two branches of one type, Boolean, byte string or a sized integer: the emitted `if` is rejected
   * exactly when both look numeric and only one of them has a trace of `i128`. The text
   * test is fooled by a comparison, a cast or a `let` inside one branch.
   */
  lemma SameTypeBranchesIff(c: Expr, t: Expr, f: Expr, v: Vars, env: TyEnv)
    requires v.floats == {} && Width(c, v, env) == Some(Bool) && Width(t, v, env) == Width(f, v, env)
    requires var w := Width(t, v, env); w == Some(I64) || w == Some(U64) || w == Some(I32) || w == Some(Bool) || w == Some(Bytes)
    ensures TypeOf(Intended(If(c, t, f), v), env)
         == if IsNumeric(t) && IsNumeric(f) && MentionsI128(t, v) != MentionsI128(f, v) then None else Width(t, v, env)
  {
    hide Intended, Width, TypeOf;
    EmittedIfType(c, t, f, v, env);
  }

  /** A nested minimum inside a branch: well typed in the source, rejected by rustc. */
  lemma NestedIfIsRejected(v: Vars, env: TyEnv)
    requires v == Vars({}, {"a", "b"}, {}, true) && env == map["a" := I64, "b" := I64, "p" := Bool]
    ensures var least := If(Binary(Lt, Ident("a"), Ident("b")), Ident("a"), Ident("b"));
      && Width(least, v, env) == Some(I64)
      && TypeOf(Intended(If(Ident("p"), least, Ident("a")), v), env) == None
  {
    var less := Binary(Lt, Ident("a"), Ident("b"));
    var least := If(less, Ident("a"), Ident("b"));
    NamesHaveWidth(v, env);
    assert Width(less, v, env) == Some(Bool);
    InnerTest(Ident("a"), v);
    InnerTest(Ident("b"), v);
    assert Width(least, v, env) == Some(I64);
    assert FormOf(Lt, Ident("a"), Ident("b"), v).WidenForm?;
    assert MentionsI128(less, v);
    SameTypeBranchesIff(Ident("p"), least, Ident("a"), v, env);
  }

  /** A Boolean choice inside a branch: the other branch is widened, and rustc rejects the `if`. */
  lemma BooleanIfIsRejected(v: Vars, env: TyEnv)
    requires v == Vars({}, {"a", "b"}, {}, true) && env == map["a" := I64, "b" := I64, "p" := Bool]
    ensures var either := If(Binary(Lt, Ident("a"), Ident("b")), Ident("p"), Ident("p"));
      && Width(either, v, env) == Some(Bool)
      && TypeOf(Intended(If(Ident("p"), Ident("p"), either), v), env) == None
  {
    var less := Binary(Lt, Ident("a"), Ident("b"));
    var either := If(less, Ident("p"), Ident("p"));
    NamesHaveWidth(v, env);
    assert Width(less, v, env) == Some(Bool);
    InnerTest(Ident("p"), v);
    assert Width(either, v, env) == Some(Bool);
    assert FormOf(Lt, Ident("a"), Ident("b"), v).WidenForm?;
    assert MentionsI128(less, v);
    SameTypeBranchesIff(Ident("p"), Ident("p"), either, v, env);
  }

  lemma NamesHaveWidth(v: Vars, env: TyEnv)
    requires v == Vars({}, {"a", "b"}, {}, true) && env == map["a" := I64, "b" := I64, "p" := Bool]
    ensures Width(Ident("a"), v, env) == Width(Ident("b"), v, env) == Some(I64)
    ensures Width(Ident("p"), v, env) == Some(Bool)
    ensures !MentionsI128(Ident("a"), v) && !MentionsI128(Ident("b"), v) && !MentionsI128(Ident("p"), v)
  {
    if Contains("a", "_i128") { ContainsChar("a", "_i128", '1'); }
    if Contains("b", "_i128") { ContainsChar("b", "_i128", '1'); }
    if Contains("p", "_i128") { ContainsChar("p", "_i128", '1'); }
  }
}
