/**
 * The textual test that decides whether an `if` branch is already `i128`: what it tells
 * about any expression, and why it is right for arithmetic branches.
 */
module Branches {
  import opened Ast
  import opened Numeric
  import opened RustSyntax
  import opened RustSemantics
  import opened Emitter
  import opened Widths
  import opened Sources

  /** Somewhere in `e` the folder widens to `i128`, or a name or literal is spelled `.._i128..`. */
  predicate MentionsI128(e: Expr, v: Vars) {
    match e
    case Ident(x) => Contains(RustName(x, v.renameResult), "_i128")
    case IntLit(n) => LitSuffix(n) == Some(I128)
    case BoolLit(_) | FloatLit(_) => false
    case Field(b, f) => MentionsI128(b, v) || Contains(f, "_i128")
    case Length(r) => MentionsI128(r, v)
    case Unary(_, inner) => MentionsI128(inner, v)
    case Old(inner) => if v.renameResult then Contains(OLD_VAR_PREFIX + OldVarName(inner), "_i128") else MentionsI128(inner, v)
    case Cast(inner, ty) => MentionsI128(inner, v) || Contains(MapTypeToken(ty), "_i128")
    case If(c, t, f) => MentionsI128(c, v) || MentionsI128(t, v) || MentionsI128(f, v)
    case Let(x, value, body) =>
      var v' := Bind(x, value, v);
      Contains(x, "_i128") || MentionsI128(value, v') || MentionsI128(body, v')
    case Binary(op, l, r) =>
      var form := FormOf(op, l, r, v);
      if form.WidenForm? then true
      else if form.WrapForm? then
        // a literal receiver is rewritten with the suffix of its kind
        var (recv, arg) := if Swaps(op, l, r) then (r, l) else (l, r);
        (!IsBareLiteral(recv) && MentionsI128(recv, v)) || MentionsI128(arg, v)
      else MentionsI128(l, v) || MentionsI128(r, v)
  }

  lemma InnerConcat(a: seq<Token>, b: seq<Token>)
    ensures HasInnerI128(a + b) <==> HasInnerI128(a) || HasInnerI128(b)
  {
    forall i | 0 <= i < |a| && IsI128Token(a[i]) ensures HasInnerI128(a + b) { assert (a + b)[i] == a[i]; }
    forall i | 0 <= i < |b| && IsI128Token(b[i]) ensures HasInnerI128(a + b) { assert (a + b)[|a| + i] == b[i]; }
    forall i | 0 <= i < |a + b| && IsI128Token((a + b)[i]) ensures HasInnerI128(a) || HasInnerI128(b) {
      if i < |a| { assert a[i] == (a + b)[i]; } else { assert b[i - |a|] == (a + b)[i]; }
    }
  }

  /** Punctuation and the generator's own names are not `i128` tokens. */
  predicate Silent(ts: seq<Token>) {
    forall i | 0 <= i < |ts| :: !IsI128Token(ts[i])
  }

  lemma Surrounded(a: seq<Token>, ts: seq<Token>, b: seq<Token>)
    requires Silent(a) && Silent(b)
    ensures HasInnerI128(a + ts + b) <==> HasInnerI128(ts)
  {
    InnerConcat(a + ts, b);
    InnerConcat(a, ts);
  }

  lemma Between(a: seq<Token>, ts: seq<Token>, b: seq<Token>, us: seq<Token>, c: seq<Token>)
    requires Silent(a) && Silent(b) && Silent(c)
    ensures HasInnerI128(a + ts + b + us + c) <==> HasInnerI128(ts) || HasInnerI128(us)
  {
    InnerConcat(a + ts + b + us, c);
    InnerConcat(a + ts + b, us);
    Surrounded(a, ts, b);
  }

  lemma ParenthesizeIsSilent(ts: seq<Token>)
    requires ts != []
    ensures HasInnerI128(ParenthesizeAsCast(ts)) <==> HasInnerI128(ts)
  {
    Surrounded([LParen], ts, [RParen]);
  }

  lemma ContainsChar(whole: string, part: string, c: char)
    requires Contains(whole, part) && c in part
    ensures c in whole
  {
    if !(part <= whole) { ContainsChar(whole[1..], part, c); }
  }

  /** The names the generator itself writes. */
  lemma OwnNamesAreSilent(name: string)
    requires name == "len" || name == "u64" || name == "u128"
      || name == "wrapping_add" || name == "wrapping_sub" || name == "wrapping_mul"
    ensures !IsI128Token(Id(name))
  {
    hide Contains;
    assert '1' !in name || '_' !in name;
    if Contains(name, "_i128") {
      ContainsChar(name, "_i128", '1');
      ContainsChar(name, "_i128", '_');
    }
  }

  lemma One(t: Token)
    ensures HasInnerI128([t]) <==> IsI128Token(t)
  {
    assert [t][0] == t;
  }

  /** The test on the emitted text answers a question about the source. */
  lemma {:induction false} InnerTest(e: Expr, v: Vars)
    ensures HasInnerI128(Text(e, v)) <==> MentionsI128(e, v)
    decreases e, 1
  {
    hide HasInnerI128, ParenthesizeAsCast, Normalises, Contains, HasFloat, FormOf, MachineKind;
    match e
    case Ident(_) | IntLit(_) | BoolLit(_) | FloatLit(_) => One(Text(e, v)[0]);
    case Field(b, f) =>
      InnerTest(b, v);
      FieldInner(Text(b, v), f);
    case Length(r) =>
      InnerTest(r, v);
      LengthInner(Text(r, v));
    case Unary(uop, inner) =>
      InnerTest(inner, v);
      UnaryInner(uop, Text(inner, v));
    case Old(inner) =>
      if v.renameResult { One(Text(e, v)[0]); } else { InnerTest(inner, v); }
    case Cast(inner, ty) =>
      InnerTest(inner, v);
      CastInner(Text(inner, v), MapTypeToken(ty));
    case If(c, t, f) =>
      InnerTest(c, v);
      InnerTest(t, v);
      InnerTest(f, v);
      IfInner(c, t, f, v);
    case Let(x, value, body) =>
      var v' := Bind(x, value, v);
      InnerTest(value, v');
      InnerTest(body, v');
      LetInner(x, Text(value, v'), Text(body, v'));
    case Binary(op, l, r) =>
      InnerTest(l, v);
      InnerTest(r, v);
      BinaryInner(op, l, r, v);
  }

  lemma FieldInner(ts: seq<Token>, f: string)
    ensures HasInnerI128(ts + [Dot, Id(f)]) <==> HasInnerI128(ts) || Contains(f, "_i128")
  {
    hide HasInnerI128, Contains;
    InnerConcat(ts, [Dot, Id(f)]);
    InnerConcat([Dot], [Id(f)]);
    assert [Dot] + [Id(f)] == [Dot, Id(f)];
    One(Dot);
    One(Id(f));
  }

  lemma LengthInner(ts: seq<Token>)
    ensures HasInnerI128(LengthText(ts)) <==> HasInnerI128(ts)
  {
    hide HasInnerI128, Contains;
    OwnNamesAreSilent("len");
    OwnNamesAreSilent("u64");
    Surrounded([], ts, [Dot, Id("len"), LParen, RParen, As, Id("u64")]);
    assert [] + ts == ts;
  }

  lemma UnaryInner(uop: UnaryOp, ts: seq<Token>)
    ensures HasInnerI128(UnaryText(uop, ts)) <==> HasInnerI128(ts)
  {
    hide HasInnerI128, Contains;
    Surrounded([LParen, if uop.Neg? then Op(Sub) else Bang], ts, [RParen]);
  }

  lemma CastInner(ts: seq<Token>, ty: string)
    ensures HasInnerI128(AsText(ts, ty)) <==> HasInnerI128(ts) || Contains(ty, "_i128")
  {
    hide HasInnerI128;
    Between([LParen], ts, [As], [Id(ty)], [RParen]);
    assert AsText(ts, ty) == [LParen] + ts + [As] + [Id(ty)] + [RParen];
    One(Id(ty));
  }

  lemma LetInner(x: string, vs: seq<Token>, bs: seq<Token>)
    ensures HasInnerI128(LetText(x, vs, bs)) <==> Contains(x, "_i128") || HasInnerI128(vs) || HasInnerI128(bs)
  {
    hide HasInnerI128;
    var front := [LBrace, LetKw, Id(x)];
    var back := [Assign] + vs + [Semi] + bs + [RBrace];
    assert LetText(x, vs, bs) == front + back;
    InnerConcat(front, back);
    Between([Assign], vs, [Semi], bs, [RBrace]);
    InnerConcat([LBrace, LetKw], [Id(x)]);
    assert front == [LBrace, LetKw] + [Id(x)];
    One(Id(x));
    Surrounded([LBrace, LetKw], [], []);
    NoTokens();
  }

  lemma NoTokens()
    ensures !HasInnerI128([]) && !HasInnerI128([LBrace, LetKw])
  {
  }

  lemma WidenInner(ts: seq<Token>)
    ensures HasInnerI128(WidenText(ts))
  {
    assert WidenText(ts)[0] == Widen;
  }

  lemma IfInner(c: Expr, t: Expr, f: Expr, v: Vars)
    ensures HasInnerI128(Text(If(c, t, f), v))
        <==> HasInnerI128(Text(c, v)) || HasInnerI128(Text(t, v)) || HasInnerI128(Text(f, v))
  {
    hide HasInnerI128, BranchText, IfText, IsNumeric, HasFloat;
    var ts, fs := Text(t, v), Text(f, v);
    var n := Normalises(t, f, ts, fs, v.floats);
    BranchInner(ts, n);
    BranchInner(fs, n);
    IfTextInner(Text(c, v), BranchText(ts, n), BranchText(fs, n));
  }

  lemma BranchInner(ts: seq<Token>, n: bool)
    requires ts != []
    ensures HasInnerI128(BranchText(ts, n)) <==> n || HasInnerI128(ts)
  {
    hide HasInnerI128;
    WidenInner(ts);
  }

  lemma IfTextInner(cs: seq<Token>, ts: seq<Token>, fs: seq<Token>)
    ensures HasInnerI128(IfText(cs, ts, fs)) <==> HasInnerI128(cs) || HasInnerI128(ts) || HasInnerI128(fs)
  {
    hide HasInnerI128;
    var branches := [LBrace] + ts + [RBrace, ElseKw, LBrace] + fs + [RBrace];
    assert IfText(cs, ts, fs) == [IfKw] + cs + [] + branches;
    InnerConcat([IfKw] + cs + [], branches);
    Between([LBrace], ts, [RBrace, ElseKw, LBrace], fs, [RBrace]);
    Surrounded([IfKw], cs, []);
  }

  lemma BinaryInner(op: BinOp, l: Expr, r: Expr, v: Vars)
    requires HasInnerI128(Text(l, v)) <==> MentionsI128(l, v)
    requires HasInnerI128(Text(r, v)) <==> MentionsI128(r, v)
    ensures HasInnerI128(Text(Binary(op, l, r), v)) <==> MentionsI128(Binary(op, l, r), v)
  {
    hide HasInnerI128, FormOf, WidenText, ParenthesizeAsCast, Contains, Swaps, IsBareLiteral, AsText, BinaryText, ImpliesText, WrapText;
    var ls, rs := Text(l, v), Text(r, v);
    match FormOf(op, l, r, v)
    case ImpliesForm => ImpliesInner(ls, rs);
    case PlainForm => PairInner(op, ls, rs);
    case U128Form =>
      OwnNamesAreSilent("u128");
      CastInner(ls, "u128");
      CastInner(rs, "u128");
      PairInner(op, AsText(ls, "u128"), AsText(rs, "u128"));
    case WidenForm =>
      WidenInner(ls);
      PairInner(op, WidenText(ls), WidenText(rs));
    case WrapForm(kind) =>
      if Swaps(op, l, r) { WrapInner(op, r, l, kind, v); } else { WrapInner(op, l, r, kind, v); }
  }

  lemma PairInner(op: BinOp, ls: seq<Token>, rs: seq<Token>)
    ensures HasInnerI128(BinaryText(op, ls, rs)) <==> HasInnerI128(ls) || HasInnerI128(rs)
  {
    hide HasInnerI128, Contains;
    Between([LParen], ls, [Op(op)], rs, [RParen]);
  }

  lemma ImpliesInner(ls: seq<Token>, rs: seq<Token>)
    ensures HasInnerI128(ImpliesText(ls, rs)) <==> HasInnerI128(ls) || HasInnerI128(rs)
  {
    hide HasInnerI128, Contains;
    Between([LParen, Bang], ls, [Op(Or)], rs, [RParen]);
  }

  lemma MethodInner(op: BinOp, rs: seq<Token>, args: seq<Token>)
    requires op.CanWrap()
    ensures HasInnerI128(WrapText(op, rs, args)) <==> HasInnerI128(rs) || HasInnerI128(args)
  {
    hide HasInnerI128, Contains;
    var dot := [Dot, Id(WrapMethodName(op)), LParen];
    OwnNamesAreSilent(WrapMethodName(op));
    assert WrapText(op, rs, args) == [] + rs + dot + args + [RParen];
    Between([], rs, dot, args, [RParen]);
  }

  lemma WrapInner(op: BinOp, recv: Expr, arg: Expr, kind: Kind, v: Vars)
    requires op.CanWrap()
    ensures HasInnerI128(WrapText(op, ReceiverText(recv, kind, v), ParenthesizeAsCast(Text(arg, v))))
        <==> (!IsBareLiteral(recv) && HasInnerI128(Text(recv, v))) || HasInnerI128(Text(arg, v))
  {
    hide HasInnerI128, Text, ParenthesizeAsCast, WrapText, Contains, LiteralReceiver;
    MethodInner(op, ReceiverText(recv, kind, v), ParenthesizeAsCast(Text(arg, v)));
    ParenthesizeIsSilent(Text(arg, v));
    if IsBareLiteral(recv) {
      LiteralReceiverSilent(recv, kind);
      ParenthesizeIsSilent(LiteralReceiver(recv, kind));
    } else {
      ParenthesizeIsSilent(Text(recv, v));
    }
  }

  lemma LiteralReceiverSilent(e: Expr, kind: Kind)
    requires IsBareLiteral(e)
    ensures !HasInnerI128(LiteralReceiver(e, kind))
  {
  }

  // ----- Arithmetic branches -----

  /** Names, literals, negations and arithmetic. */
  predicate Arithmetic(e: Expr) {
    match e
    case Ident(_) | IntLit(_) => true
    case Unary(uop, inner) => uop.Neg? && Arithmetic(inner)
    case Binary(op, l, r) => op.IsArithmetic() && Arithmetic(l) && Arithmetic(r)
    case _ => false
  }

  /** Names are Int or Nat variables, not `i128` ones, and are not spelled `.._i128..`. */
  predicate DeclaredNames(e: Expr, v: Vars, env: TyEnv) {
    match e
    case Ident(x) =>
      var name := RustName(x, v.renameResult);
      name in env && Is64(env[name]) && !Contains(name, "_i128")
    case Unary(_, inner) => DeclaredNames(inner, v, env)
    case Binary(_, l, r) => DeclaredNames(l, v, env) && DeclaredNames(r, v, env)
    case _ => true
  }

  /** On arithmetic the text test says exactly whether the emitted code is `i128`. */
  lemma {:induction false} InnerTestIsRight(e: Expr, v: Vars, env: TyEnv)
    requires Arithmetic(e) && DeclaredNames(e, v, env) && v.floats == {} && Width(e, v, env).Some?
    ensures Width(e, v, env).value.IsInteger()
    ensures HasInnerI128(Text(e, v)) <==> Width(e, v, env) == Some(I128)
  {
    hide HasInnerI128, Text, Contains, HasFloat, HasU128Literal, MachineKind, IsNumeric, FormOf;
    InnerTest(e, v);
    match e
    case Ident(_) | IntLit(_) =>
    case Unary(_, inner) =>
      InnerTestIsRight(inner, v, env);
      InnerTest(inner, v);
    case Binary(op, l, r) =>
      InnerTestIsRight(l, v, env);
      InnerTestIsRight(r, v, env);
      InnerTest(l, v);
      InnerTest(r, v);
      WidthForm(op, l, r, v, env);
  }

  /**
   * An `if` with arithmetic branches compiles exactly when its condition is Boolean and,
   * unless a branch is `i128`, the branches agree on a type. It then has that type, and
   * widening one branch changes no value.
   */
  lemma ArithmeticBranchesAgree(c: Expr, t: Expr, f: Expr, v: Vars, env: TyEnv)
    requires v.floats == {} && Width(t, v, env).Some? && Width(f, v, env).Some?
    requires Arithmetic(t) && DeclaredNames(t, v, env) && Arithmetic(f) && DeclaredNames(f, v, env)
    ensures var wt, wf := Width(t, v, env).value, Width(f, v, env).value;
      var joined := if wt.I128? || wf.I128? then Some(I128) else Join(wt, wf);
      Width(If(c, t, f), v, env) == if Width(c, v, env) == Some(Bool) then joined else None
  {
    hide HasInnerI128, Text, HasU128Literal, MachineKind;
    InnerTestIsRight(t, v, env);
    InnerTestIsRight(f, v, env);
    NoFloats(t, v, env);
    NoFloats(f, v, env);
    WidthShape(t, v, env);
    WidthShape(f, v, env);
  }
}
