/**
 * A negative literal on the left of an Int subtraction. The lexer reads `-5` as one
 * literal, and the folder writes it as a receiver with a suffix and no parentheses.
 */
module NegativeLiterals {
  import opened Ast
  import opened Numeric
  import opened RustSyntax
  import opened RustSemantics
  import opened Emitter
  import opened Reading

  /** `-<n>_i64`, the receiver written for the literal. */
  function NegativeReceiver(n: nat): seq<Token> {
    [Op(Sub), Num(n, Some(I64))]
  }

  /** The text of `-<n> - e`, when `arg` is the text of `e`. */
  function DifferenceText(n: nat, arg: seq<Token>): seq<Token>
    requires arg != []
  {
    WrapText(Sub, ParenthesizeAsCast(NegativeReceiver(n)), ParenthesizeAsCast(arg))
  }

  /** What Rust reads: the method binds tighter than the sign. */
  function NegatedDifference(n: nat, a: Tree): Tree {
    RNeg(RMethod1(RNum(n, Some(I64)), "wrapping_sub", a))
  }

  lemma DifferenceParses(n: nat, arg: seq<Token>, a: Tree, open: bool)
    requires ReadsAs(arg, a, open)
    ensures ParseExpr(DifferenceText(n, arg)) == Got(NegatedDifference(n, a), [])
  {
    hide ParseUnary, PostfixLoop, Operand, Chain, OpenAs, ParenthesizeAsCast;
    var num := [Num(n, Some(I64))];
    var arg' := ParenthesizeAsCast(arg);
    ParenthesizedReads(arg, a, open);
    TokenReads(num, RNum(n, Some(I64)));
    ReadWrap(Sub, num, RNum(n, Some(I64)), arg', a);
    var call, m := WrapText(Sub, num, arg'), RMethod1(RNum(n, Some(I64)), "wrapping_sub", a);
    NoCast(n);
    assert DifferenceText(n, arg) == [Op(Sub)] + call;
    ReadPrefix(Neg, call, m, false, []);
    assert [Op(Sub)] + call + [] == [Op(Sub)] + call;
    assert BinaryLoop(1, RNeg(m), []) == Got(RNeg(m), []);
  }

  lemma NoCast(n: nat)
    ensures ParenthesizeAsCast(NegativeReceiver(n)) == NegativeReceiver(n)
  {
  }

  /** It computes `e - n`, or panics on `i64::MIN`, instead of `-n - e`: right only for 0 and, but for n = 0, for `i64::MIN`. */
  lemma DifferenceIsRightIff(n: nat, a: Tree, i: int, env: TyEnv, s: Store)
    requires InRange(I64, n) && InRange(I64, i)
    requires TypeOf(a, env) == Some(I64) && Eval(a, env, s) == Val(IntV(i))
    ensures Eval(NegatedDifference(n, a), env, s) == Checked(I64, -Wrap(I64, n - i))
    ensures Eval(NegatedDifference(n, a), env, s) == Val(IntV(Wrap(I64, -(n + i)))) <==> i == 0 || (i == Min(I64) && n > 0)
  {
    hide Wrap, Eval, TypeOf;
    DifferenceRuns(n, a, i, env, s);
    WrapCases(n, i);
  }

  lemma DifferenceRuns(n: nat, a: Tree, i: int, env: TyEnv, s: Store)
    requires InRange(I64, n) && TypeOf(a, env) == Some(I64) && Eval(a, env, s) == Val(IntV(i))
    ensures Eval(NegatedDifference(n, a), env, s) == Checked(I64, -Wrap(I64, n - i))
  {
    hide Wrap;
    assert TypeOf(RNum(n, Some(I64)), env) == Some(I64);
    assert WrapMethod("wrapping_sub") == Some(Sub);
    assert TypeOf(RMethod1(RNum(n, Some(I64)), "wrapping_sub", a), env) == Some(I64);
    assert Eval(RMethod1(RNum(n, Some(I64)), "wrapping_sub", a), env, s) == Val(IntV(Wrap(I64, n - i)));
  }

  lemma WrapCases(n: nat, i: int)
    requires InRange(I64, n) && InRange(I64, i)
    ensures Wrap(I64, n - i) == if n - i > Max(I64) then n - i - TWO_64 else n - i
    ensures Wrap(I64, -(n + i)) == if -(n + i) < Min(I64) then -(n + i) + TWO_64 else if -(n + i) > Max(I64) then -(n + i) - TWO_64 else -(n + i)
  {
  }
}
