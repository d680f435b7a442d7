/**
 * What Rust's grammar makes of the emitted text. `Chain` and `Operand` say how a piece
 * of text is read whatever follows it; the lemmas about them follow the shapes of text
 * the folder writes.
 */
module Reading {
  import opened Ast
  import opened RustSyntax
  import opened Emitter

  /** `ts` is read as the postfix-level expression `t`, whatever but `(` comes next. */
  ghost predicate Chain(ts: seq<Token>, t: Tree) {
    forall rest | !Starts(rest, LParen) :: ParseUnary(ts + rest) == PostfixLoop(t, rest)
  }

  predicate FollowsChain(rest: seq<Token>) {
    !Starts(rest, Dot) && !Starts(rest, As) && !Starts(rest, LParen)
  }

  /** What may come after an operand: anything but `.`, `as`, and the `<` of `as T <`. */
  predicate Follows(rest: seq<Token>) {
    FollowsChain(rest) && !Starts(rest, Op(Lt))
  }

  /** `ts` is read as the cast-level expression `t`. */
  ghost predicate Operand(ts: seq<Token>, t: Tree) {
    forall rest | Follows(rest) :: ParseCast(ts + rest) == Got(t, rest)
  }

  /** `ts` ends in an `as` cast that no parenthesis encloses. */
  ghost predicate OpenAs(ts: seq<Token>, t: Tree) {
    t.RAs? && |ts| > 2 && ts[|ts| - 2..] == [As, Id(t.ty)] && Chain(ts[..|ts| - 2], t.arg)
  }

  ghost predicate Atom(ts: seq<Token>, t: Tree) {
    ts != [] && ts[0] != Op(Sub) && ts[0] != Bang && forall rest :: ParsePrimary(ts + rest) == Got(t, rest)
  }

  predicate IsCloser(t: Token) { t == RParen || t == RBrace || t == LBrace || t == Semi }

  // ----- Composing texts -----

  lemma AtomIsChain(ts: seq<Token>, t: Tree)
    requires Atom(ts, t)
    ensures Chain(ts, t)
  {
    forall rest ensures ParseUnary(ts + rest) == PostfixLoop(t, rest) {
      assert (ts + rest)[0] == ts[0];
      assert ParsePrimary(ts + rest) == Got(t, rest);
    }
  }

  lemma ChainIsOperand(ts: seq<Token>, t: Tree)
    requires Chain(ts, t)
    ensures Operand(ts, t)
    ensures forall rest | FollowsChain(rest) :: ParseCast(ts + rest) == Got(t, rest)
  {
    forall rest | FollowsChain(rest) ensures ParseCast(ts + rest) == Got(t, rest) {
      assert ParseUnary(ts + rest) == PostfixLoop(t, rest);
    }
  }

  lemma OpenAsIsOperand(ts: seq<Token>, t: Tree)
    requires OpenAs(ts, t)
    ensures Operand(ts, t)
  {
    var front := ts[..|ts| - 2];
    forall rest | Follows(rest) ensures ParseCast(ts + rest) == Got(t, rest) {
      var tail := [As, Id(t.ty)] + rest;
      assert ts + rest == front + tail;
      assert ParseUnary(front + tail) == PostfixLoop(t.arg, tail);
      assert tail[2..] == rest;
      assert CastLoop(t, rest) == Got(t, rest);
    }
  }

  lemma ChainThenAs(ts: seq<Token>, t: Tree, ty: string)
    requires Chain(ts, t)
    ensures OpenAs(ts + [As, Id(ty)], RAs(t, ty))
  {
    assert (ts + [As, Id(ty)])[..|ts|] == ts;
  }

  lemma Closes(ts: seq<Token>, t: Tree, close: Token, rest: seq<Token>)
    requires Operand(ts, t) && IsCloser(close)
    ensures ParseClosed(ts + ([close] + rest), close) == Got(t, rest)
  {
    var tail := [close] + rest;
    assert Follows(tail);
    assert ParseCast(ts + tail) == Got(t, tail);
    assert BinaryLoop(1, t, tail) == Got(t, tail);
    assert ParseExpr(ts + tail) == Got(t, tail);
    assert tail[1..] == rest;
  }

  /** `lhs op rhs close`, where `lhs` may be any text read up to `op`. */
  lemma ClosesBinary(ls: seq<Token>, l: Tree, op: BinOp, rs: seq<Token>, r: Tree, rest: seq<Token>)
    requires ParseCast(ls + ([Op(op)] + (rs + ([RParen] + rest)))) == Got(l, [Op(op)] + (rs + ([RParen] + rest)))
    requires Operand(rs, r)
    ensures ParseClosed(ls + ([Op(op)] + (rs + ([RParen] + rest))), RParen) == Got(RBin(op, l, r), rest)
  {
    var close := [RParen] + rest;
    var afterOp := rs + close;
    var tail := [Op(op)] + afterOp;
    var p := Precedence(op) + 1;
    assert tail[1..] == afterOp;
    assert Follows(close);
    assert ParseCast(afterOp) == Got(r, close);
    assert BinaryLoop(p, r, close) == Got(r, close);
    assert ParseBinary(p, afterOp) == Got(r, close);
    assert BinaryLoop(1, RBin(op, l, r), close) == Got(RBin(op, l, r), close);
    assert BinaryLoop(1, l, tail) == Got(RBin(op, l, r), close);
    assert ParseExpr(ls + tail) == Got(RBin(op, l, r), close);
    assert close[1..] == rest;
  }

  lemma ClosedIsPrimary(inside: seq<Token>, t: Tree, rest: seq<Token>)
    requires ParseClosed(inside + ([RParen] + rest), RParen) == Got(t, rest)
    ensures ParsePrimary([LParen] + inside + [RParen] + rest) == Got(t, rest)
  {
    var all := [LParen] + (inside + ([RParen] + rest));
    assert [LParen] + inside + [RParen] + rest == all;
    assert all[1..] == inside + ([RParen] + rest);
  }

  lemma ReadParenthesized(ts: seq<Token>, t: Tree)
    requires Operand(ts, t)
    ensures Atom([LParen] + ts + [RParen], t)
  {
    forall rest ensures ParsePrimary([LParen] + ts + [RParen] + rest) == Got(t, rest) {
      Closes(ts, t, RParen, rest);
      ClosedIsPrimary(ts, t, rest);
    }
  }

  lemma ReadWiden(ts: seq<Token>, t: Tree)
    requires Operand(ts, t)
    ensures Atom(WidenText(ts), RWiden(t))
  {
    hide ParsePrimary, ParseClosed, Operand;
    forall rest ensures ParsePrimary(WidenText(ts) + rest) == Got(RWiden(t), rest) {
      var all := WidenText(ts) + rest;
      assert all == [Widen, LParen] + (ts + ([RParen] + rest));
      assert all[2..] == ts + ([RParen] + rest);
      Closes(ts, t, RParen, rest);
      WidenIsPrimary(all, t, rest);
    }
  }

  lemma WidenIsPrimary(ts: seq<Token>, t: Tree, rest: seq<Token>)
    requires |ts| >= 2 && ts[0] == Widen && ts[1] == LParen && ParseClosed(ts[2..], RParen) == Got(t, rest)
    ensures ParsePrimary(ts) == Got(RWiden(t), rest)
  {
    hide ParseClosed, ParseIf, ParseLetBlock;
    assert Starts(ts[1..], LParen);
  }

  lemma ReadBinary(op: BinOp, ls: seq<Token>, l: Tree, rs: seq<Token>, r: Tree)
    requires Operand(ls, l) && Operand(rs, r)
    requires op.Lt? ==> Chain(ls, l)
    ensures Atom(BinaryText(op, ls, rs), RBin(op, l, r))
  {
    forall rest ensures ParsePrimary(BinaryText(op, ls, rs) + rest) == Got(RBin(op, l, r), rest) {
      BinaryIsPrimary(op, ls, l, rs, r, rest);
    }
  }

  lemma ReadLeft(ls: seq<Token>, l: Tree, tail: seq<Token>)
    requires Operand(ls, l) && tail != [] && tail[0].Op?
    requires tail[0].op.Lt? ==> Chain(ls, l)
    ensures ParseCast(ls + tail) == Got(l, tail)
  {
    hide ParseCast;
    if tail[0].op.Lt? { ChainIsOperand(ls, l); } else { assert Follows(tail); }
  }

  lemma BinaryIsPrimary(op: BinOp, ls: seq<Token>, l: Tree, rs: seq<Token>, r: Tree, rest: seq<Token>)
    requires Operand(ls, l) && Operand(rs, r)
    requires op.Lt? ==> Chain(ls, l)
    ensures ParsePrimary(BinaryText(op, ls, rs) + rest) == Got(RBin(op, l, r), rest)
  {
    hide ParsePrimary, ParseClosed, ParseCast, Operand;
    var inside := ls + [Op(op)] + rs;
    var tail := [Op(op)] + (rs + ([RParen] + rest));
    assert inside + ([RParen] + rest) == ls + tail;
    assert tail[0] == Op(op);
    ReadLeft(ls, l, tail);
    ClosesBinary(ls, l, op, rs, r, rest);
    ClosedIsPrimary(inside, RBin(op, l, r), rest);
    assert BinaryText(op, ls, rs) == [LParen] + inside + [RParen];
  }

  lemma ReadAs(ts: seq<Token>, t: Tree, ty: string)
    requires Operand(ts, t)
    requires Chain(ts, t) || OpenAs(ts, t)
    ensures Atom(AsText(ts, ty), RAs(t, ty))
  {
    var inside := ts + [As, Id(ty)];
    if Chain(ts, t) {
      ChainThenAs(ts, t, ty);
      OpenAsIsOperand(inside, RAs(t, ty));
    } else {
      OpenAsThenAs(ts, t, ty);
    }
    ReadParenthesized(inside, RAs(t, ty));
    assert AsText(ts, ty) == [LParen] + inside + [RParen];
  }

  lemma OpenAsThenAs(ts: seq<Token>, t: Tree, ty: string)
    requires OpenAs(ts, t)
    ensures Operand(ts + [As, Id(ty)], RAs(t, ty))
  {
    hide ParseUnary, PostfixLoop;
    var front := ts[..|ts| - 2];
    forall rest | Follows(rest) ensures ParseCast(ts + [As, Id(ty)] + rest) == Got(RAs(t, ty), rest) {
      var tail := [As, Id(ty)] + rest;
      var tail' := [As, Id(t.ty)] + tail;
      assert ts + [As, Id(ty)] + rest == front + tail';
      assert tail'[2..] == tail && tail[2..] == rest;
      TwoCasts(t.arg, t.ty, ty, tail', tail, rest);
      assert ParseUnary(front + tail') == PostfixLoop(t.arg, tail');
      PostfixStops(t.arg, tail');
    }
  }

  lemma PostfixStops(t: Tree, rest: seq<Token>)
    requires !Starts(rest, Dot)
    ensures PostfixLoop(t, rest) == Got(t, rest)
  {
  }

  lemma TwoCasts(e: Tree, ty1: string, ty2: string, ts: seq<Token>, ts1: seq<Token>, ts2: seq<Token>)
    requires |ts| >= 2 && ts[0] == As && ts[1] == Id(ty1) && ts[2..] == ts1
    requires |ts1| >= 2 && ts1[0] == As && ts1[1] == Id(ty2) && ts1[2..] == ts2 && Follows(ts2)
    ensures CastLoop(e, ts) == Got(RAs(RAs(e, ty1), ty2), ts2)
  {
    assert CastLoop(RAs(RAs(e, ty1), ty2), ts2) == Got(RAs(RAs(e, ty1), ty2), ts2);
    assert CastLoop(RAs(e, ty1), ts1) == Got(RAs(RAs(e, ty1), ty2), ts2);
  }

  function PrefixTree(uop: UnaryOp, t: Tree): Tree {
    if uop.Neg? then RNeg(t) else RNot(t)
  }

  /** A prefix operator binds tighter than an open `as`. */
  function Prefixed(uop: UnaryOp, t: Tree, open: bool): Tree {
    if open && t.RAs? then RAs(PrefixTree(uop, t.arg), t.ty) else PrefixTree(uop, t)
  }

  lemma ReadPrefix(uop: UnaryOp, ts: seq<Token>, t: Tree, open: bool, rest: seq<Token>)
    requires if open then OpenAs(ts, t) else Chain(ts, t)
    requires Follows(rest)
    ensures ParseCast([if uop.Neg? then Op(Sub) else Bang] + ts + rest) == Got(Prefixed(uop, t, open), rest)
  {
    hide ParseCast, ParseUnary, PostfixLoop;
    var sign := if uop.Neg? then Op(Sub) else Bang;
    if open {
      var front, tail := ts[..|ts| - 2], [As, Id(t.ty)] + rest;
      assert [sign] + ts + rest == [sign] + (front + tail);
      assert ParseUnary(front + tail) == PostfixLoop(t.arg, tail);
      assert tail[2..] == rest;
      PrefixThenAs(uop, t.arg, front + tail, tail, t.ty);
    } else {
      assert [sign] + ts + rest == [sign] + (ts + rest);
      assert ParseUnary(ts + rest) == PostfixLoop(t, rest);
      PrefixThenRest(uop, t, ts + rest, rest);
    }
  }

  lemma PrefixThenRest(uop: UnaryOp, t: Tree, ts: seq<Token>, rest: seq<Token>)
    requires ParseUnary(ts) == PostfixLoop(t, rest) && FollowsChain(rest)
    ensures ParseCast([if uop.Neg? then Op(Sub) else Bang] + ts) == Got(PrefixTree(uop, t), rest)
  {
    var all := [if uop.Neg? then Op(Sub) else Bang] + ts;
    assert all[1..] == ts;
    assert ParseUnary(all) == Got(PrefixTree(uop, t), rest);
  }

  lemma PrefixThenAs(uop: UnaryOp, t: Tree, ts: seq<Token>, tail: seq<Token>, ty: string)
    requires ParseUnary(ts) == PostfixLoop(t, tail)
    requires |tail| >= 2 && tail[0] == As && tail[1] == Id(ty) && Follows(tail[2..])
    ensures ParseCast([if uop.Neg? then Op(Sub) else Bang] + ts) == Got(RAs(PrefixTree(uop, t), ty), tail[2..])
  {
    var all := [if uop.Neg? then Op(Sub) else Bang] + ts;
    assert all[1..] == ts;
    assert ParseUnary(all) == Got(PrefixTree(uop, t), tail);
    var t' := RAs(PrefixTree(uop, t), ty);
    assert CastLoop(t', tail[2..]) == Got(t', tail[2..]);
  }

  lemma ReadUnary(uop: UnaryOp, ts: seq<Token>, t: Tree, open: bool)
    requires if open then OpenAs(ts, t) else Chain(ts, t)
    ensures Atom(UnaryText(uop, ts), Prefixed(uop, t, open))
  {
    var inside := [if uop.Neg? then Op(Sub) else Bang] + ts;
    forall rest | Follows(rest) ensures ParseCast(inside + rest) == Got(Prefixed(uop, t, open), rest) {
      ReadPrefix(uop, ts, t, open, rest);
    }
    ReadParenthesized(inside, Prefixed(uop, t, open));
    assert UnaryText(uop, ts) == [LParen] + inside + [RParen];
  }

  lemma ReadImplies(ls: seq<Token>, l: Tree, open: bool, rs: seq<Token>, r: Tree)
    requires if open then OpenAs(ls, l) else Chain(ls, l)
    requires Operand(rs, r)
    ensures Atom(ImpliesText(ls, rs), RBin(Or, Prefixed(Not, l, open), r))
  {
    var inside := [Bang] + ls + [Op(Or)] + rs;
    var t := RBin(Or, Prefixed(Not, l, open), r);
    assert ImpliesText(ls, rs) == [LParen] + inside + [RParen];
    forall rest ensures ParsePrimary(ImpliesText(ls, rs) + rest) == Got(t, rest) {
      var tail := [Op(Or)] + (rs + ([RParen] + rest));
      assert inside + ([RParen] + rest) == ([Bang] + ls) + tail;
      ReadPrefix(Not, ls, l, open, tail);
      ClosesBinary([Bang] + ls, Prefixed(Not, l, open), Or, rs, r, rest);
      ClosedIsPrimary(inside, t, rest);
    }
  }

  lemma ReadField(ts: seq<Token>, t: Tree, field: string)
    requires Chain(ts, t)
    ensures Chain(ts + [Dot, Id(field)], RField(t, field))
  {
    var all := ts + [Dot, Id(field)];
    forall rest | !Starts(rest, LParen) ensures ParseUnary(all + rest) == PostfixLoop(RField(t, field), rest) {
      var tail := [Dot, Id(field)] + rest;
      assert all + rest == ts + tail;
      assert tail[2..] == rest;
      assert ParseUnary(ts + tail) == PostfixLoop(t, tail);
    }
  }

  lemma ReadLength(ts: seq<Token>, t: Tree)
    requires Chain(ts, t)
    ensures OpenAs(LengthText(ts), RAs(RMethod0(t, "len"), "u64"))
  {
    var call := ts + [Dot, Id("len"), LParen, RParen];
    var t' := RMethod0(t, "len");
    hide ParseUnary, PostfixLoop;
    forall rest | !Starts(rest, LParen) ensures ParseUnary(call + rest) == PostfixLoop(t', rest) {
      var tail := [Dot, Id("len"), LParen, RParen] + rest;
      assert call + rest == ts + tail;
      assert tail[4..] == rest;
      EmptyCall(t, "len", tail);
      assert ParseUnary(ts + tail) == PostfixLoop(t, tail);
    }
    assert LengthText(ts) == call + [As, Id("u64")];
    ChainThenAs(call, t', "u64");
  }

  lemma EmptyCall(r: Tree, m: string, ts: seq<Token>)
    requires |ts| >= 4 && ts[0] == Dot && ts[1] == Id(m) && ts[2] == LParen && ts[3] == RParen
    ensures PostfixLoop(r, ts) == PostfixLoop(RMethod0(r, m), ts[4..])
  {
    assert Starts(ts[2..], LParen) && Starts(ts[3..], RParen);
  }

  lemma ReadWrap(op: BinOp, recv: seq<Token>, r: Tree, arg: seq<Token>, a: Tree)
    requires op.CanWrap() && Chain(recv, r) && Operand(arg, a) && arg != [] && arg[0] != RParen
    ensures Chain(WrapText(op, recv, arg), RMethod1(r, WrapMethodName(op), a))
  {
    hide ParseUnary, PostfixLoop, Operand, WrapText;
    forall rest | !Starts(rest, LParen)
      ensures ParseUnary(WrapText(op, recv, arg) + rest) == PostfixLoop(RMethod1(r, WrapMethodName(op), a), rest)
    {
      WrapIsChain(op, recv, r, arg, a, rest);
    }
  }

  lemma WrapIsChain(op: BinOp, recv: seq<Token>, r: Tree, arg: seq<Token>, a: Tree, rest: seq<Token>)
    requires op.CanWrap() && Chain(recv, r) && Operand(arg, a) && arg != [] && arg[0] != RParen
    ensures ParseUnary(WrapText(op, recv, arg) + rest) == PostfixLoop(RMethod1(r, WrapMethodName(op), a), rest)
  {
    hide ParseUnary, PostfixLoop, ParseClosed, Operand, WrapMethodName;
    var m := WrapMethodName(op);
    var afterParen := arg + ([RParen] + rest);
    var tail := [Dot, Id(m), LParen] + afterParen;
    assert WrapText(op, recv, arg) + rest == recv + tail;
    assert tail[3..] == afterParen && tail[3] == arg[0];
    Closes(arg, a, RParen, rest);
    MethodCall(r, m, a, tail, rest);
    assert ParseUnary(recv + tail) == PostfixLoop(r, tail);
  }

  lemma MethodCall(r: Tree, m: string, a: Tree, ts: seq<Token>, rest: seq<Token>)
    requires |ts| >= 4 && ts[0] == Dot && ts[1] == Id(m) && ts[2] == LParen && ts[3] != RParen
    requires ParseClosed(ts[3..], RParen) == Got(a, rest)
    ensures PostfixLoop(r, ts) == PostfixLoop(RMethod1(r, m, a), rest)
  {
    assert Starts(ts[2..], LParen) && !Starts(ts[3..], RParen);
  }

  lemma ReadIf(cs: seq<Token>, c: Tree, ts: seq<Token>, t: Tree, fs: seq<Token>, f: Tree)
    requires Operand(cs, c) && Operand(ts, t) && Operand(fs, f)
    ensures Atom(IfText(cs, ts, fs), RIf(c, t, f))
  {
    forall rest ensures ParsePrimary(IfText(cs, ts, fs) + rest) == Got(RIf(c, t, f), rest) {
      IfIsPrimary(cs, c, ts, t, fs, f, rest);
    }
  }

  lemma IfIsPrimary(cs: seq<Token>, c: Tree, ts: seq<Token>, t: Tree, fs: seq<Token>, f: Tree, rest: seq<Token>)
    requires Operand(cs, c) && Operand(ts, t) && Operand(fs, f)
    ensures ParsePrimary(IfText(cs, ts, fs) + rest) == Got(RIf(c, t, f), rest)
  {
    hide ParsePrimary, ParseIf, ParseClosed, Operand;
    var ts3 := fs + ([RBrace] + rest);
    var ts2 := [ElseKw, LBrace] + ts3;
    var ts1 := ts + ([RBrace] + ts2);
    var ts0 := cs + ([LBrace] + ts1);
    assert IfText(cs, ts, fs) + rest == [IfKw] + ts0;
    Closes(cs, c, LBrace, ts1);
    Closes(ts, t, RBrace, ts2);
    Closes(fs, f, RBrace, rest);
    assert ts2[2..] == ts3;
    IfElse(ts0, c, ts1, t, ts2, f, rest);
  }

  lemma IfElse(ts0: seq<Token>, c: Tree, ts1: seq<Token>, t: Tree, ts2: seq<Token>, f: Tree, rest: seq<Token>)
    requires ParseClosed(ts0, LBrace) == Got(c, ts1)
    requires ParseClosed(ts1, RBrace) == Got(t, ts2)
    requires |ts2| >= 2 && ts2[0] == ElseKw && ts2[1] == LBrace
    requires ParseClosed(ts2[2..], RBrace) == Got(f, rest)
    ensures ParsePrimary([IfKw] + ts0) == Got(RIf(c, t, f), rest)
  {
    assert ([IfKw] + ts0)[1..] == ts0;
    assert ParseIf(ts0) == Got(RIf(c, t, f), rest);
  }

  lemma ReadLet(x: string, vs: seq<Token>, value: Tree, bs: seq<Token>, body: Tree)
    requires Operand(vs, value) && Operand(bs, body)
    ensures Atom(LetText(x, vs, bs), RLet(x, value, body))
  {
    forall rest ensures ParsePrimary(LetText(x, vs, bs) + rest) == Got(RLet(x, value, body), rest) {
      LetBlockIsPrimary(x, vs, value, bs, body, rest);
    }
  }

  lemma LetBlockIsPrimary(x: string, vs: seq<Token>, value: Tree, bs: seq<Token>, body: Tree, rest: seq<Token>)
    requires Operand(vs, value) && Operand(bs, body)
    ensures ParsePrimary(LetText(x, vs, bs) + rest) == Got(RLet(x, value, body), rest)
  {
    hide ParsePrimary, ParseLetBlock, ParseClosed, Operand;
    var ts2 := bs + ([RBrace] + rest);
    var ts1 := vs + ([Semi] + ts2);
    var ts0 := [LetKw, Id(x), Assign] + ts1;
    assert LetText(x, vs, bs) + rest == [LBrace] + ts0;
    Closes(vs, value, Semi, ts2);
    Closes(bs, body, RBrace, rest);
    assert ts0[3..] == ts1;
    LetBlock(ts0, x, value, ts2, body, rest);
  }

  lemma LetBlock(ts0: seq<Token>, x: string, value: Tree, ts2: seq<Token>, body: Tree, rest: seq<Token>)
    requires |ts0| >= 3 && ts0[..3] == [LetKw, Id(x), Assign]
    requires ParseClosed(ts0[3..], Semi) == Got(value, ts2)
    requires ParseClosed(ts2, RBrace) == Got(body, rest)
    ensures ParsePrimary([LBrace] + ts0) == Got(RLet(x, value, body), rest)
  {
    assert ts0[0] == ts0[..3][0] && ts0[1] == ts0[..3][1] && ts0[2] == ts0[..3][2];
    assert ([LBrace] + ts0)[1..] == ts0;
    assert ParseLetBlock(ts0) == Got(RLet(x, value, body), rest);
  }

  // ----- What is read back -----

  /** `e` is written as an `as` cast without parentheses. */
  predicate OpenCast(e: Expr, v: Vars) {
    e.Length? || (e.Old? && !v.renameResult && OpenCast(e.inner, v))
  }

  /**
   * No field or length is taken of a length, and no length stands left of a `<` that is
   * not widened: those texts Rust rejects.
   */
  predicate Readable(e: Expr, v: Vars) {
    match e
    case Ident(_) | IntLit(_) | BoolLit(_) | FloatLit(_) => true
    case Field(b, _) => !OpenCast(b, v) && Readable(b, v)
    case Length(r) => !OpenCast(r, v) && Readable(r, v)
    case Unary(_, inner) => Readable(inner, v)
    case Old(inner) => v.renameResult || Readable(inner, v)
    case Cast(inner, _) => Readable(inner, v)
    case If(c, t, f) => Readable(c, v) && Readable(t, v) && Readable(f, v)
    case Let(x, value, body) => Readable(value, Bind(x, value, v)) && Readable(body, Bind(x, value, v))
    case Binary(op, l, r) =>
      && Readable(l, v) && Readable(r, v)
      && (op.Lt? && FormOf(op, l, r, v).PlainForm? ==> !OpenCast(l, v))
  }

  /** The tree Rust reads: `Tree`, except that a prefix operator moves inside an open cast. */
  function Read(e: Expr, v: Vars): Tree
    decreases e, 1
  {
    match e
    case Ident(x) => RVar(RustName(x, v.renameResult))
    case IntLit(n) => RNum(n, LitSuffix(n))
    case BoolLit(b) => RTruth(b)
    case FloatLit(d) => RFloat(d)
    case Field(b, f) => RField(Read(b, v), f)
    case Length(r) => RAs(RMethod0(Read(r, v), "len"), "u64")
    case Unary(uop, inner) => Prefixed(uop, Read(inner, v), OpenCast(inner, v))
    case Old(inner) => if v.renameResult then RVar(OLD_VAR_PREFIX + OldVarName(inner)) else Read(inner, v)
    case Cast(inner, ty) => RAs(Read(inner, v), MapTypeToken(ty))
    case If(c, t, f) =>
      var n := Normalises(t, f, Text(t, v), Text(f, v), v.floats);
      RIf(Read(c, v), ReadBranch(t, n, v), ReadBranch(f, n, v))
    case Let(x, value, body) => RLet(x, Read(value, Bind(x, value, v)), Read(body, Bind(x, value, v)))
    case Binary(op, l, r) =>
      match FormOf(op, l, r, v)
      case ImpliesForm => RBin(Or, Prefixed(Not, Read(l, v), OpenCast(l, v)), Read(r, v))
      case U128Form => RBin(op, RAs(Read(l, v), "u128"), RAs(Read(r, v), "u128"))
      case WidenForm => RBin(op, RWiden(Read(l, v)), RWiden(Read(r, v)))
      case PlainForm => RBin(op, Read(l, v), Read(r, v))
      case WrapForm(kind) =>
        if Swaps(op, l, r) then RMethod1(ReadReceiver(r, kind, v), WrapMethodName(op), Read(l, v))
        else RMethod1(ReadReceiver(l, kind, v), WrapMethodName(op), Read(r, v))
  }

  function ReadBranch(e: Expr, normalise: bool, v: Vars): Tree
    decreases e, 2
  {
    if normalise && !HasInnerI128(Text(e, v)) then RWiden(Read(e, v)) else Read(e, v)
  }

  function ReadReceiver(e: Expr, kind: Kind, v: Vars): Tree
    decreases e, 2
  {
    if IsBareLiteral(e) then ReceiverTree(e, kind, v) else Read(e, v)
  }

  ghost predicate ReadsAs(ts: seq<Token>, t: Tree, open: bool) {
    && ts != [] && ts[0] != RParen
    && Operand(ts, t)
    && (if open then OpenAs(ts, t) else Chain(ts, t))
  }

  lemma AtomReads(ts: seq<Token>, t: Tree)
    requires Atom(ts, t) && ts[0] != RParen
    ensures ReadsAs(ts, t, false)
  {
    AtomIsChain(ts, t);
    ChainIsOperand(ts, t);
  }

  lemma TokenReads(ts: seq<Token>, t: Tree)
    requires |ts| == 1
    requires match ts[0]
             case Id(x) => t == RVar(x)
             case Num(n, suffix) => t == RNum(n, suffix)
             case Truth(b) => t == RTruth(b)
             case Float(d) => t == RFloat(d)
             case _ => false
    ensures ReadsAs(ts, t, false)
  {
    forall rest ensures ParsePrimary(ts + rest) == Got(t, rest) {
      assert (ts + rest)[1..] == rest;
    }
    AtomReads(ts, t);
  }

  lemma ParenthesizedReads(ts: seq<Token>, t: Tree, open: bool)
    requires ReadsAs(ts, t, open)
    ensures ReadsAs(ParenthesizeAsCast(ts), t, false)
  {
    if open {
      assert ts[|ts| - 2..][0] == As && ts[|ts| - 2..][1] == Id(t.ty);
      assert As in ts;
    }
    if ParenthesizeAsCast(ts) != ts {
      ReadParenthesized(ts, t);
      AtomReads(ParenthesizeAsCast(ts), t);
    }
  }

  lemma LiteralReceiverReads(e: Expr, kind: Kind, v: Vars)
    requires IsBareLiteral(e)
    ensures ReadsAs(ReceiverText(e, kind, v), ReceiverTree(e, kind, v), false)
  {
    if e.IntLit? {
      TokenReads(LiteralReceiver(e, kind), ReceiverTree(e, kind, v));
    } else {
      var num := RNum(e.operand.n, Some(KindType(kind)));
      TokenReads([Num(e.operand.n, Some(KindType(kind)))], num);
      ReadUnary(Neg, [Num(e.operand.n, Some(KindType(kind)))], num, false);
      assert UnaryText(Neg, [Num(e.operand.n, Some(KindType(kind)))]) == LiteralReceiver(e, kind);
      AtomReads(LiteralReceiver(e, kind), ReceiverTree(e, kind, v));
    }
    ParenthesizedReads(LiteralReceiver(e, kind), ReceiverTree(e, kind, v), false);
  }

  /** The parser reads the text of every readable expression as `Read` says. */
  lemma {:induction false} TextReads(e: Expr, v: Vars)
    requires Readable(e, v)
    ensures ReadsAs(Text(e, v), Read(e, v), OpenCast(e, v))
    decreases e, 1
  {
    hide Operand, Chain, OpenAs, Atom, FormOf, Normalises;
    match e
    case Ident(_) | IntLit(_) | BoolLit(_) | FloatLit(_) => TokenReads(Text(e, v), Read(e, v));
    case Old(inner) =>
      if v.renameResult { TokenReads(Text(e, v), Read(e, v)); } else { TextReads(inner, v); }
    case Field(b, f) =>
      TextReads(b, v);
      ReadField(Text(b, v), Read(b, v), f);
      ChainIsOperand(Text(e, v), Read(e, v));
    case Length(r) =>
      TextReads(r, v);
      ReadLength(Text(r, v), Read(r, v));
      OpenAsIsOperand(Text(e, v), Read(e, v));
    case Unary(uop, inner) =>
      TextReads(inner, v);
      ReadUnary(uop, Text(inner, v), Read(inner, v), OpenCast(inner, v));
      AtomReads(Text(e, v), Read(e, v));
    case Cast(inner, ty) =>
      TextReads(inner, v);
      ReadAs(Text(inner, v), Read(inner, v), MapTypeToken(ty));
      AtomReads(Text(e, v), Read(e, v));
    case If(c, t, f) =>
      var n := Normalises(t, f, Text(t, v), Text(f, v), v.floats);
      TextReads(c, v);
      TextReads(t, v);
      TextReads(f, v);
      BranchReads(t, n, v);
      BranchReads(f, n, v);
      ReadIf(Text(c, v), Read(c, v), BranchText(Text(t, v), n), ReadBranch(t, n, v),
             BranchText(Text(f, v), n), ReadBranch(f, n, v));
      AtomReads(Text(e, v), Read(e, v));
    case Let(x, value, body) =>
      var v' := Bind(x, value, v);
      TextReads(value, v');
      TextReads(body, v');
      ReadLet(x, Text(value, v'), Read(value, v'), Text(body, v'), Read(body, v'));
      AtomReads(Text(e, v), Read(e, v));
    case Binary(op, l, r) =>
      BinaryReads(op, l, r, v);
  }

  lemma BranchReads(e: Expr, n: bool, v: Vars)
    requires ReadsAs(Text(e, v), Read(e, v), OpenCast(e, v))
    ensures Operand(BranchText(Text(e, v), n), ReadBranch(e, n, v))
  {
    if n && !HasInnerI128(Text(e, v)) {
      ReadWiden(Text(e, v), Read(e, v));
      AtomReads(WidenText(Text(e, v)), RWiden(Read(e, v)));
    }
  }

  lemma {:induction false} BinaryReads(op: BinOp, l: Expr, r: Expr, v: Vars)
    requires Readable(Binary(op, l, r), v)
    ensures ReadsAs(Text(Binary(op, l, r), v), Read(Binary(op, l, r), v), false)
    decreases Binary(op, l, r), 0
  {
    hide ReadsAs, Text, Read, FormOf;
    TextReads(l, v);
    TextReads(r, v);
    FormReads(op, l, r, v);
  }

  lemma FormReads(op: BinOp, l: Expr, r: Expr, v: Vars)
    requires Readable(l, v) && Readable(r, v)
    requires ReadsAs(Text(l, v), Read(l, v), OpenCast(l, v)) && ReadsAs(Text(r, v), Read(r, v), OpenCast(r, v))
    requires op.Lt? && FormOf(op, l, r, v).PlainForm? ==> !OpenCast(l, v)
    ensures ReadsAs(Text(Binary(op, l, r), v), Read(Binary(op, l, r), v), false)
  {
    hide Text, Read, FormOf, OpenCast, Readable, Operand, Chain, OpenAs, Swaps, ReadReceiver, ReceiverText, ParenthesizeAsCast;
    var e := Binary(op, l, r);
    TextShape(op, l, r, v);
    ReadShape(op, l, r, v);
    match FormOf(op, l, r, v)
    case ImpliesForm =>
      ReadImplies(Text(l, v), Read(l, v), OpenCast(l, v), Text(r, v), Read(r, v));
      AtomReads(Text(e, v), Read(e, v));
    case U128Form =>
      WidthCastReads(l, v);
      WidthCastReads(r, v);
      ReadBinary(op, AsText(Text(l, v), "u128"), RAs(Read(l, v), "u128"), AsText(Text(r, v), "u128"), RAs(Read(r, v), "u128"));
      AtomReads(Text(e, v), Read(e, v));
    case WidenForm =>
      WidenReads(l, v);
      WidenReads(r, v);
      ReadBinary(op, WidenText(Text(l, v)), RWiden(Read(l, v)), WidenText(Text(r, v)), RWiden(Read(r, v)));
      AtomReads(Text(e, v), Read(e, v));
    case PlainForm =>
      ReadBinary(op, Text(l, v), Read(l, v), Text(r, v), Read(r, v));
      AtomReads(Text(e, v), Read(e, v));
    case WrapForm(kind) =>
      if Swaps(op, l, r) { WrapReads(op, r, l, kind, v); } else { WrapReads(op, l, r, kind, v); }
  }

  /** One step of `Read` for a binary operator. */
  lemma ReadShape(op: BinOp, l: Expr, r: Expr, v: Vars)
    ensures var lt, rt := Read(l, v), Read(r, v);
      Read(Binary(op, l, r), v) ==
      match FormOf(op, l, r, v)
      case ImpliesForm => RBin(Or, Prefixed(Not, lt, OpenCast(l, v)), rt)
      case U128Form => RBin(op, RAs(lt, "u128"), RAs(rt, "u128"))
      case WidenForm => RBin(op, RWiden(lt), RWiden(rt))
      case PlainForm => RBin(op, lt, rt)
      case WrapForm(kind) =>
        if Swaps(op, l, r) then RMethod1(ReadReceiver(r, kind, v), WrapMethodName(op), lt)
        else RMethod1(ReadReceiver(l, kind, v), WrapMethodName(op), rt)
  {
    hide FormOf, Swaps, ReadReceiver, Prefixed, OpenCast;
  }

  lemma WidenReads(e: Expr, v: Vars)
    requires ReadsAs(Text(e, v), Read(e, v), OpenCast(e, v))
    ensures ReadsAs(WidenText(Text(e, v)), RWiden(Read(e, v)), false)
  {
    ReadWiden(Text(e, v), Read(e, v));
    AtomReads(WidenText(Text(e, v)), RWiden(Read(e, v)));
  }

  lemma WidthCastReads(e: Expr, v: Vars)
    requires ReadsAs(Text(e, v), Read(e, v), OpenCast(e, v))
    ensures ReadsAs(AsText(Text(e, v), "u128"), RAs(Read(e, v), "u128"), false)
  {
    ReadAs(Text(e, v), Read(e, v), "u128");
    AtomReads(AsText(Text(e, v), "u128"), RAs(Read(e, v), "u128"));
  }

  lemma WrapReads(op: BinOp, recv: Expr, arg: Expr, kind: Kind, v: Vars)
    requires op.CanWrap()
    requires ReadsAs(Text(recv, v), Read(recv, v), OpenCast(recv, v))
    requires ReadsAs(Text(arg, v), Read(arg, v), OpenCast(arg, v))
    ensures ReadsAs(WrapText(op, ReceiverText(recv, kind, v), ParenthesizeAsCast(Text(arg, v))),
                    RMethod1(ReadReceiver(recv, kind, v), WrapMethodName(op), Read(arg, v)), false)
  {
    if IsBareLiteral(recv) {
      LiteralReceiverReads(recv, kind, v);
    } else {
      ParenthesizedReads(Text(recv, v), Read(recv, v), OpenCast(recv, v));
    }
    ParenthesizedReads(Text(arg, v), Read(arg, v), OpenCast(arg, v));
    var rs, as' := ReceiverText(recv, kind, v), ParenthesizeAsCast(Text(arg, v));
    ReadWrap(op, rs, ReadReceiver(recv, kind, v), as', Read(arg, v));
    ChainIsOperand(WrapText(op, rs, as'), RMethod1(ReadReceiver(recv, kind, v), WrapMethodName(op), Read(arg, v)));
    assert WrapText(op, rs, as')[0] == rs[0];
  }

  // ----- Printing and parsing agree -----

  /** No unary operator and no implication is applied to a text that ends in an open cast. */
  predicate NoOpenPrefix(e: Expr, v: Vars) {
    match e
    case Ident(_) | IntLit(_) | BoolLit(_) | FloatLit(_) => true
    case Field(b, _) => NoOpenPrefix(b, v)
    case Length(r) => NoOpenPrefix(r, v)
    case Unary(_, inner) => !OpenCast(inner, v) && NoOpenPrefix(inner, v)
    case Old(inner) => v.renameResult || NoOpenPrefix(inner, v)
    case Cast(inner, _) => NoOpenPrefix(inner, v)
    case If(c, t, f) => NoOpenPrefix(c, v) && NoOpenPrefix(t, v) && NoOpenPrefix(f, v)
    case Let(x, value, body) => NoOpenPrefix(value, Bind(x, value, v)) && NoOpenPrefix(body, Bind(x, value, v))
    case Binary(op, l, r) => NoOpenPrefix(l, v) && NoOpenPrefix(r, v) && (op.Implies? ==> !OpenCast(l, v))
  }

  lemma OpenCastIsAs(e: Expr, v: Vars)
    requires OpenCast(e, v)
    ensures Read(e, v).RAs? && Intended(e, v).RAs?
  {
  }

  lemma {:induction false} ReadIsTree(e: Expr, v: Vars)
    ensures Read(e, v) == Intended(e, v) <==> NoOpenPrefix(e, v)
  {
    hide Text, Normalises, HasInnerI128, SharedKind, HasFloat, HasU128Literal, IsNumeric, Swaps, MapTypeToken, LitSuffix;
    match e
    case Ident(_) | IntLit(_) | BoolLit(_) | FloatLit(_) =>
    case Field(b, _) => ReadIsTree(b, v);
    case Length(r) => ReadIsTree(r, v);
    case Unary(_, inner) =>
      ReadIsTree(inner, v);
      if OpenCast(inner, v) { OpenCastIsAs(inner, v); }
    case Old(inner) => if !v.renameResult { ReadIsTree(inner, v); }
    case Cast(inner, _) => ReadIsTree(inner, v);
    case If(c, t, f) =>
      ReadIsTree(c, v);
      ReadIsTree(t, v);
      ReadIsTree(f, v);
    case Let(x, value, body) =>
      ReadIsTree(value, Bind(x, value, v));
      ReadIsTree(body, Bind(x, value, v));
    case Binary(op, l, r) =>
      ReadIsTree(l, v);
      ReadIsTree(r, v);
      BinaryReadIsTree(op, l, r, v);
  }

  lemma BinaryReadIsTree(op: BinOp, l: Expr, r: Expr, v: Vars)
    requires Read(l, v) == Intended(l, v) <==> NoOpenPrefix(l, v)
    requires Read(r, v) == Intended(r, v) <==> NoOpenPrefix(r, v)
    ensures Read(Binary(op, l, r), v) == Intended(Binary(op, l, r), v) <==> NoOpenPrefix(Binary(op, l, r), v)
  {
    hide Text, FormOf, Swaps, WrapMethodName, ReadReceiver, ReceiverTree, OpenCast;
    match FormOf(op, l, r, v)
    case ImpliesForm => ImpliesReadIsTree(op, l, r, v);
    case WrapForm(kind) =>
      WrapIsNoImplies(op, l, r, v);
      ReceiverReadIsTree(l, kind, v);
      ReceiverReadIsTree(r, kind, v);
    case _ => WrapIsNoImplies(op, l, r, v);
  }

  lemma WrapIsNoImplies(op: BinOp, l: Expr, r: Expr, v: Vars)
    ensures op.Implies? <==> FormOf(op, l, r, v).ImpliesForm?
  {
  }

  lemma ImpliesReadIsTree(op: BinOp, l: Expr, r: Expr, v: Vars)
    requires Read(l, v) == Intended(l, v) <==> NoOpenPrefix(l, v)
    requires Read(r, v) == Intended(r, v) <==> NoOpenPrefix(r, v)
    requires FormOf(op, l, r, v).ImpliesForm?
    ensures Read(Binary(op, l, r), v) == Intended(Binary(op, l, r), v) <==> NoOpenPrefix(Binary(op, l, r), v)
  {
    hide Text, FormOf;
    WrapIsNoImplies(op, l, r, v);
    if OpenCast(l, v) { OpenCastIsAs(l, v); }
  }

  lemma ReceiverReadIsTree(e: Expr, kind: Kind, v: Vars)
    requires Read(e, v) == Intended(e, v) <==> NoOpenPrefix(e, v)
    ensures ReadReceiver(e, kind, v) == ReceiverTree(e, kind, v) <==> NoOpenPrefix(e, v)
  {
    hide Text;
    if IsBareLiteral(e) { BareLiteralReads(e, v); }
  }

  lemma BareLiteralReads(e: Expr, v: Vars)
    requires IsBareLiteral(e)
    ensures NoOpenPrefix(e, v)
  {
  }

  // ----- Texts that Rust rejects -----

  /** The parse fails, or stops before a dot. */
  predicate NoRead(p: Parsed) {
    p.Fail? || Starts(p.rest, Dot)
  }

  /** The parse fails, or stops before `as T .`. */
  predicate Jammed(p: Parsed) {
    p.Fail? || (|p.rest| >= 3 && p.rest[0] == As && p.rest[1].Id? && p.rest[2] == Dot)
  }

  /** Whatever follows `ts`, it is not read to its end: a member is taken of an open cast. */
  ghost predicate Jams(ts: seq<Token>) {
    forall rest :: Jammed(ParseUnary(ts + rest))
  }

  /** Whatever follows `ts`, it is not an expression. */
  ghost predicate Dead(ts: seq<Token>) {
    ts != [] && ts[0] != Op(Sub) && ts[0] != Bang && forall rest :: ParsePrimary(ts + rest) == Fail
  }

  lemma DeadJams(ts: seq<Token>)
    requires Dead(ts)
    ensures Jams(ts)
  {
    forall rest ensures Jammed(ParseUnary(ts + rest)) {
      assert (ts + rest)[0] == ts[0];
      assert ParsePrimary(ts + rest) == Fail;
    }
  }

  lemma JamsThen(ts: seq<Token>, more: seq<Token>)
    requires Jams(ts)
    ensures Jams(ts + more)
  {
    forall rest ensures Jammed(ParseUnary(ts + more + rest)) {
      assert ts + more + rest == ts + (more + rest);
      assert Jammed(ParseUnary(ts + (more + rest)));
    }
  }

  lemma JammedCast(ts: seq<Token>)
    requires Jammed(ParseUnary(ts))
    ensures NoRead(ParseCast(ts))
  {
    hide ParseUnary;
    if ParseUnary(ts).Got? {
      var e, rest := ParseUnary(ts).tree, ParseUnary(ts).rest;
      assert rest[2..][0] == Dot;
      assert CastLoop(RAs(e, rest[1].name), rest[2..]) == Got(RAs(e, rest[1].name), rest[2..]);
    }
  }

  lemma NoReadExpr(ts: seq<Token>, close: Token)
    requires NoRead(ParseCast(ts)) && close != Dot
    ensures forall min :: NoRead(ParseBinary(min, ts))
    ensures NoRead(ParseExpr(ts)) && ParseClosed(ts, close) == Fail
  {
    hide ParseCast;
    forall min ensures NoRead(ParseBinary(min, ts)) {}
  }

  lemma JamsClosed(ts: seq<Token>, rest: seq<Token>, close: Token)
    requires Jams(ts) && close != Dot
    ensures ParseClosed(ts + rest, close) == Fail && NoRead(ParseExpr(ts + rest))
    ensures forall min :: NoRead(ParseBinary(min, ts + rest))
  {
    hide ParseUnary, ParseCast, ParseClosed, ParseExpr, ParseBinary;
    assert Jammed(ParseUnary(ts + rest));
    JammedCast(ts + rest);
    NoReadExpr(ts + rest, close);
  }

  lemma ParenthesizedDead(inside: seq<Token>)
    requires forall rest :: ParseClosed(inside + ([RParen] + rest), RParen) == Fail
    ensures Dead([LParen] + inside + [RParen])
  {
    hide ParseClosed;
    forall rest ensures ParsePrimary([LParen] + inside + [RParen] + rest) == Fail {
      var all := [LParen] + (inside + ([RParen] + rest));
      assert [LParen] + inside + [RParen] + rest == all && all[1..] == inside + ([RParen] + rest);
      assert ParseClosed(inside + ([RParen] + rest), RParen) == Fail;
      ParenthesisFails(all);
    }
  }

  lemma ParenthesisFails(ts: seq<Token>)
    requires ts != [] && ts[0] == LParen && ParseClosed(ts[1..], RParen) == Fail
    ensures ParsePrimary(ts) == Fail
  {
    hide ParseClosed, ParseIf, ParseLetBlock;
  }

  lemma WidenDead(ts: seq<Token>)
    requires Jams(ts)
    ensures Dead(WidenText(ts))
  {
    hide ParseClosed;
    forall rest ensures ParsePrimary(WidenText(ts) + rest) == Fail {
      var all := WidenText(ts) + rest;
      assert all == [Widen, LParen] + (ts + ([RParen] + rest));
      assert all[2..] == ts + ([RParen] + rest);
      JamsClosed(ts, [RParen] + rest, RParen);
      WidenFails(all);
    }
  }

  lemma WidenFails(ts: seq<Token>)
    requires |ts| >= 2 && ts[0] == Widen && ts[1] == LParen && ParseClosed(ts[2..], RParen) == Fail
    ensures ParsePrimary(ts) == Fail
  {
    hide ParseClosed, ParseIf, ParseLetBlock;
    assert Starts(ts[1..], LParen);
  }

  lemma AsDead(ts: seq<Token>, ty: string)
    requires Jams(ts)
    ensures Dead(AsText(ts, ty))
  {
    var inside := ts + [As, Id(ty)];
    forall rest ensures ParseClosed(inside + ([RParen] + rest), RParen) == Fail {
      assert inside + ([RParen] + rest) == ts + ([As, Id(ty), RParen] + rest);
      JamsClosed(ts, [As, Id(ty), RParen] + rest, RParen);
    }
    ParenthesizedDead(inside);
    assert AsText(ts, ty) == [LParen] + inside + [RParen];
  }

  lemma UnaryJams(sign: Token, ts: seq<Token>)
    requires (sign == Op(Sub) || sign == Bang) && Jams(ts)
    ensures Jams([sign] + ts)
  {
    forall rest ensures Jammed(ParseUnary([sign] + ts + rest)) {
      var all := [sign] + ts + rest;
      assert all[1..] == ts + rest;
      assert Jammed(ParseUnary(ts + rest));
    }
  }

  lemma UnaryDead(uop: UnaryOp, ts: seq<Token>)
    requires Jams(ts)
    ensures Dead(UnaryText(uop, ts))
  {
    hide ParseClosed;
    var sign := if uop.Neg? then Op(Sub) else Bang;
    UnaryJams(sign, ts);
    forall rest ensures ParseClosed([sign] + ts + ([RParen] + rest), RParen) == Fail {
      JamsClosed([sign] + ts, [RParen] + rest, RParen);
    }
    ParenthesizedDead([sign] + ts);
    assert UnaryText(uop, ts) == [LParen] + ([sign] + ts) + [RParen];
  }

  /** A binary operator after a left side that is not read. */
  lemma LeftDead(ls: seq<Token>, op: BinOp, rs: seq<Token>)
    requires Jams(ls)
    ensures Dead([LParen] + (ls + [Op(op)] + rs) + [RParen])
  {
    hide ParseClosed;
    var inside := ls + [Op(op)] + rs;
    forall rest ensures ParseClosed(inside + ([RParen] + rest), RParen) == Fail {
      assert inside + ([RParen] + rest) == ls + ([Op(op)] + rs + ([RParen] + rest));
      JamsClosed(ls, [Op(op)] + rs + ([RParen] + rest), RParen);
    }
    ParenthesizedDead(inside);
  }

  /** A left side that is read, but not its right side. */
  lemma RightFails(ls: seq<Token>, l: Tree, op: BinOp, right: seq<Token>)
    requires ParseCast(ls + ([Op(op)] + right)) == Got(l, [Op(op)] + right)
    requires forall min :: NoRead(ParseBinary(min, right))
    ensures ParseClosed(ls + ([Op(op)] + right), RParen) == Fail
  {
    hide ParseCast;
    var tail := [Op(op)] + right;
    assert tail[1..] == right;
    var p := ParseBinary(Precedence(op) + 1, right);
    assert NoRead(p);
    LoopStops(op, l, right);
    assert ParseBinary(1, ls + tail) == BinaryLoop(1, l, tail);
    assert NoRead(ParseExpr(ls + tail));
  }

  lemma LoopStops(op: BinOp, l: Tree, right: seq<Token>)
    requires NoRead(ParseBinary(Precedence(op) + 1, right))
    ensures NoRead(BinaryLoop(1, l, [Op(op)] + right))
  {
    var tail := [Op(op)] + right;
    assert tail[1..] == right;
    var p := ParseBinary(Precedence(op) + 1, right);
    if p.Got? { assert BinaryLoop(1, RBin(op, l, p.tree), p.rest) == Got(RBin(op, l, p.tree), p.rest); }
  }

  lemma RightDead(ls: seq<Token>, l: Tree, op: BinOp, rs: seq<Token>)
    requires Operand(ls, l) && Jams(rs) && (op.Lt? ==> Chain(ls, l))
    ensures Dead([LParen] + (ls + [Op(op)] + rs) + [RParen])
  {
    hide ParseCast, ParseClosed, ParseBinary, Operand;
    var inside := ls + [Op(op)] + rs;
    forall rest ensures ParseClosed(inside + ([RParen] + rest), RParen) == Fail {
      var right := rs + ([RParen] + rest);
      assert inside + ([RParen] + rest) == ls + ([Op(op)] + right);
      JamsClosed(rs, [RParen] + rest, RParen);
      ReadLeft(ls, l, [Op(op)] + right);
      RightFails(ls, l, op, right);
    }
    ParenthesizedDead(inside);
  }

  /** `as T <` is taken for the start of generic arguments. */
  lemma OpenLessDead(ls: seq<Token>, l: Tree, rs: seq<Token>)
    requires OpenAs(ls, l)
    ensures Dead(BinaryText(Lt, ls, rs))
  {
    hide ParseUnary, ParseClosed;
    var inside := ls + [Op(Lt)] + rs;
    var front := ls[..|ls| - 2];
    forall rest ensures ParseClosed(inside + ([RParen] + rest), RParen) == Fail {
      var tail := [As, Id(l.ty), Op(Lt)] + (rs + ([RParen] + rest));
      assert inside + ([RParen] + rest) == front + tail;
      assert ParseUnary(front + tail) == PostfixLoop(l.arg, tail);
      PostfixStops(l.arg, tail);
      assert tail[2..][0] == Op(Lt);
      LessFails(l.arg, l.ty, tail);
      assert ParseCast(front + tail) == Fail;
      NoReadExpr(front + tail, RParen);
    }
    ParenthesizedDead(inside);
    assert BinaryText(Lt, ls, rs) == [LParen] + inside + [RParen];
  }

  lemma LessFails(e: Tree, ty: string, ts: seq<Token>)
    requires |ts| >= 3 && ts[0] == As && ts[1] == Id(ty) && ts[2] == Op(Lt)
    ensures CastLoop(e, ts) == Fail
  {
    assert Starts(ts[2..], Op(Lt));
  }

  lemma ImpliesLeftDead(ls: seq<Token>, rs: seq<Token>)
    requires Jams(ls)
    ensures Dead(ImpliesText(ls, rs))
  {
    UnaryJams(Bang, ls);
    LeftDead([Bang] + ls, Or, rs);
    assert ImpliesText(ls, rs) == [LParen] + ([Bang] + ls + [Op(Or)] + rs) + [RParen];
  }

  lemma ImpliesRightDead(ls: seq<Token>, l: Tree, open: bool, rs: seq<Token>)
    requires if open then OpenAs(ls, l) else Chain(ls, l)
    requires Jams(rs)
    ensures Dead(ImpliesText(ls, rs))
  {
    hide ParseCast, ParseClosed, ParseBinary;
    var front := [Bang] + ls;
    var inside := front + [Op(Or)] + rs;
    forall rest ensures ParseClosed(inside + ([RParen] + rest), RParen) == Fail {
      var right := rs + ([RParen] + rest);
      assert inside + ([RParen] + rest) == front + ([Op(Or)] + right);
      JamsClosed(rs, [RParen] + rest, RParen);
      ReadPrefix(Not, ls, l, open, [Op(Or)] + right);
      RightFails(front, Prefixed(Not, l, open), Or, right);
    }
    ParenthesizedDead(inside);
    assert ImpliesText(ls, rs) == [LParen] + inside + [RParen];
  }

  lemma ParenthesizeJams(ts: seq<Token>)
    requires ts != [] && Jams(ts)
    ensures Jams(ParenthesizeAsCast(ts))
  {
    if ParenthesizeAsCast(ts) != ts {
      forall rest ensures ParseClosed(ts + ([RParen] + rest), RParen) == Fail { JamsClosed(ts, [RParen] + rest, RParen); }
      ParenthesizedDead(ts);
      DeadJams([LParen] + ts + [RParen]);
    }
  }

  /** A method whose argument is not read. */
  lemma ArgumentJams(recv: seq<Token>, r: Tree, m: string, arg: seq<Token>)
    requires Chain(recv, r) && Jams(arg) && arg != [] && arg[0] != RParen
    ensures Jams(recv + [Dot, Id(m), LParen] + arg + [RParen])
  {
    hide ParseUnary, PostfixLoop, ParseClosed, ParseExpr;
    forall rest ensures Jammed(ParseUnary(recv + [Dot, Id(m), LParen] + arg + [RParen] + rest)) {
      var afterParen := arg + ([RParen] + rest);
      var tail := [Dot, Id(m), LParen] + afterParen;
      assert recv + [Dot, Id(m), LParen] + arg + [RParen] + rest == recv + tail;
      assert tail[3..] == afterParen && tail[3] == arg[0];
      JamsClosed(arg, [RParen] + rest, RParen);
      ArgumentFails(r, m, tail);
      assert ParseUnary(recv + tail) == PostfixLoop(r, tail);
    }
  }

  lemma ArgumentFails(r: Tree, m: string, ts: seq<Token>)
    requires |ts| >= 4 && ts[0] == Dot && ts[1] == Id(m) && ts[2] == LParen && ts[3] != RParen
    requires NoRead(ParseExpr(ts[3..]))
    ensures PostfixLoop(r, ts) == Fail
  {
    assert Starts(ts[2..], LParen) && !Starts(ts[3..], RParen);
  }

  lemma IfDead(cs: seq<Token>, c: Tree, ts: seq<Token>, t: Tree, fs: seq<Token>)
    requires Jams(cs) || (Operand(cs, c) && Jams(ts)) || (Operand(cs, c) && Operand(ts, t) && Jams(fs))
    ensures Dead(IfText(cs, ts, fs))
  {
    hide ParsePrimary, ParseClosed, Operand, Jams;
    forall rest ensures ParsePrimary(IfText(cs, ts, fs) + rest) == Fail {
      var ts3 := fs + ([RBrace] + rest);
      var ts2 := [ElseKw, LBrace] + ts3;
      var ts1 := ts + ([RBrace] + ts2);
      var ts0 := cs + ([LBrace] + ts1);
      assert IfText(cs, ts, fs) + rest == [IfKw] + ts0;
      assert ts2[2..] == ts3;
      if Jams(cs) {
        JamsClosed(cs, [LBrace] + ts1, LBrace);
      } else {
        Closes(cs, c, LBrace, ts1);
        if Jams(ts) {
          JamsClosed(ts, [RBrace] + ts2, RBrace);
        } else {
          Closes(ts, t, RBrace, ts2);
          JamsClosed(fs, [RBrace] + rest, RBrace);
        }
      }
      IfFails(ts0);
    }
  }

  lemma IfFails(ts0: seq<Token>)
    requires var p := ParseClosed(ts0, LBrace);
      p.Fail? || (var q := ParseClosed(p.rest, RBrace);
        q.Fail? || |q.rest| < 2 || ParseClosed(q.rest[2..], RBrace).Fail?)
    ensures ParsePrimary([IfKw] + ts0) == Fail
  {
    hide ParseClosed, ParseLetBlock;
    assert ([IfKw] + ts0)[1..] == ts0;
    assert ParseIf(ts0) == Fail;
  }

  lemma LetDead(x: string, vs: seq<Token>, value: Tree, bs: seq<Token>)
    requires Jams(vs) || (Operand(vs, value) && Jams(bs))
    ensures Dead(LetText(x, vs, bs))
  {
    hide ParsePrimary, ParseClosed, Operand, Jams;
    forall rest ensures ParsePrimary(LetText(x, vs, bs) + rest) == Fail {
      var ts2 := bs + ([RBrace] + rest);
      var ts1 := vs + ([Semi] + ts2);
      var ts0 := [LetKw, Id(x), Assign] + ts1;
      assert LetText(x, vs, bs) + rest == [LBrace] + ts0;
      assert ts0[3..] == ts1;
      if Jams(vs) {
        JamsClosed(vs, [Semi] + ts2, Semi);
      } else {
        Closes(vs, value, Semi, ts2);
        JamsClosed(bs, [RBrace] + rest, RBrace);
      }
      LetFails(ts0);
    }
  }

  lemma LetFails(ts0: seq<Token>)
    requires |ts0| >= 3
    requires var p := ParseClosed(ts0[3..], Semi); p.Fail? || ParseClosed(p.rest, RBrace).Fail?
    ensures ParsePrimary([LBrace] + ts0) == Fail
  {
    hide ParseClosed, ParseIf;
    assert ([LBrace] + ts0)[1..] == ts0;
    assert ParseLetBlock(ts0) == Fail;
  }

  /** A field or a length of an open cast: the cast ends before the dot. */
  lemma MemberOfCastJams(ts: seq<Token>, t: Tree, member: seq<Token>)
    requires OpenAs(ts, t) && member != [] && member[0] == Dot
    ensures Jams(ts + member)
  {
    hide ParseUnary;
    var front := ts[..|ts| - 2];
    forall rest ensures Jammed(ParseUnary(ts + member + rest)) {
      var tail := [As, Id(t.ty)] + (member + rest);
      assert ts + member + rest == front + tail;
      assert ParseUnary(front + tail) == PostfixLoop(t.arg, tail);
      PostfixStops(t.arg, tail);
      assert tail[2] == Dot;
    }
  }

  /** No emitted text starts with a closing parenthesis. */
  lemma {:induction false} TextStart(e: Expr, v: Vars)
    ensures Text(e, v)[0] != RParen && ParenthesizeAsCast(Text(e, v))[0] != RParen
    decreases e, 1
  {
    hide FormOf, Normalises;
    match e
    case Field(b, _) => TextStart(b, v);
    case Length(r) => TextStart(r, v);
    case Old(inner) => if !v.renameResult { TextStart(inner, v); }
    case Binary(op, l, r) =>
      TextStart(l, v);
      TextStart(r, v);
      BinaryStart(op, l, r, v);
    case _ =>
  }

  lemma BinaryStart(op: BinOp, l: Expr, r: Expr, v: Vars)
    requires ParenthesizeAsCast(Text(l, v))[0] != RParen && ParenthesizeAsCast(Text(r, v))[0] != RParen
    ensures Text(Binary(op, l, r), v)[0] != RParen && ParenthesizeAsCast(Text(Binary(op, l, r), v))[0] != RParen
  {
    hide FormOf, Swaps, Text, ParenthesizeAsCast, ReceiverText, WidenText, AsText, BinaryText, ImpliesText, WrapText;
    TextShape(op, l, r, v);
    var ls, rs := Text(l, v), Text(r, v);
    match FormOf(op, l, r, v) {
      case ImpliesForm => FormStart(op, ls, rs);
      case U128Form => FormStart(op, AsText(ls, "u128"), AsText(rs, "u128"));
      case WidenForm => FormStart(op, WidenText(ls), WidenText(rs));
      case PlainForm => FormStart(op, ls, rs);
      case WrapForm(kind) =>
        ReceiverStart(l, kind, v);
        ReceiverStart(r, kind, v);
        CallStart(op, ReceiverText(l, kind, v), ParenthesizeAsCast(rs));
        CallStart(op, ReceiverText(r, kind, v), ParenthesizeAsCast(ls));
    }
    ParenthesizedStart(Text(Binary(op, l, r), v));
  }

  lemma FormStart(op: BinOp, ls: seq<Token>, rs: seq<Token>)
    ensures BinaryText(op, ls, rs)[0] == LParen && ImpliesText(ls, rs)[0] == LParen
  {
  }

  lemma CallStart(op: BinOp, recv: seq<Token>, arg: seq<Token>)
    requires op.CanWrap() && recv != []
    ensures WrapText(op, recv, arg)[0] == recv[0]
  {
  }

  lemma ParenthesizedStart(ts: seq<Token>)
    requires ts != []
    ensures ParenthesizeAsCast(ts)[0] == LParen || ParenthesizeAsCast(ts)[0] == ts[0]
  {
  }

  lemma ReceiverStart(e: Expr, kind: Kind, v: Vars)
    requires ParenthesizeAsCast(Text(e, v))[0] != RParen
    ensures ReceiverText(e, kind, v)[0] != RParen
  {
    hide Text, ParenthesizeAsCast;
    if IsBareLiteral(e) { ParenthesizedStart(LiteralReceiver(e, kind)); }
  }

  /** The text of an expression that is not readable is not read to its end, whatever follows. */
  lemma {:induction false} TextJams(e: Expr, v: Vars)
    requires !Readable(e, v)
    ensures Jams(Text(e, v))
    decreases e, 1
  {
    hide Jams, Dead, Text, Read, Operand, Chain, OpenAs;
    TextOf(e, v);
    match e
    case Old(inner) => TextJams(inner, v);
    case Field(b, f) => MemberJams(b, [Dot, Id(f)], v);
    case Length(r) =>
      MemberJams(r, [Dot, Id("len"), LParen, RParen, As, Id("u64")], v);
    case Unary(uop, inner) =>
      TextJams(inner, v);
      UnaryDead(uop, Text(inner, v));
      DeadJams(Text(e, v));
    case Cast(inner, ty) =>
      TextJams(inner, v);
      AsDead(Text(inner, v), MapTypeToken(ty));
      DeadJams(Text(e, v));
    case If(c, t, f) => IfJams(c, t, f, v);
    case Let(x, value, body) => LetJams(x, value, body, v);
    case Binary(op, l, r) => BinaryJams(op, l, r, v);
  }

  /** One step of `Text`, for the cases that have operands. */
  lemma TextOf(e: Expr, v: Vars)
    ensures e.Field? ==> Text(e, v) == Text(e.base, v) + [Dot, Id(e.field)]
    ensures e.Length? ==> Text(e, v) == Text(e.receiver, v) + [Dot, Id("len"), LParen, RParen, As, Id("u64")]
    ensures e.Unary? ==> Text(e, v) == UnaryText(e.uop, Text(e.operand, v))
    ensures e.Cast? ==> Text(e, v) == AsText(Text(e.operand, v), MapTypeToken(e.ty))
    ensures e.Old? && !v.renameResult ==> Text(e, v) == Text(e.inner, v)
  {
  }

  lemma {:induction false} MemberJams(b: Expr, member: seq<Token>, v: Vars)
    requires (OpenCast(b, v) || !Readable(b, v)) && member != [] && member[0] == Dot
    ensures Jams(Text(b, v) + member)
    decreases b, 2
  {
    if !Readable(b, v) {
      TextJams(b, v);
      JamsThen(Text(b, v), member);
    } else {
      TextReads(b, v);
      MemberOfCastJams(Text(b, v), Read(b, v), member);
    }
  }

  lemma {:induction false} IfJams(c: Expr, t: Expr, f: Expr, v: Vars)
    requires !Readable(If(c, t, f), v)
    ensures Jams(Text(If(c, t, f), v))
    decreases If(c, t, f), 0
  {
    hide Jams, Dead, Operand, Chain, OpenAs, Read;
    var n := Normalises(t, f, Text(t, v), Text(f, v), v.floats);
    if Readable(c, v) { TextReads(c, v); } else { TextJams(c, v); }
    if Readable(t, v) {
      TextReads(t, v);
      BranchReads(t, n, v);
    } else {
      TextJams(t, v);
      BranchJams(t, n, v);
    }
    if !Readable(f, v) {
      TextJams(f, v);
      BranchJams(f, n, v);
    }
    IfDead(Text(c, v), Read(c, v), BranchText(Text(t, v), n), ReadBranch(t, n, v), BranchText(Text(f, v), n));
    DeadJams(Text(If(c, t, f), v));
  }

  lemma BranchJams(e: Expr, n: bool, v: Vars)
    requires Jams(Text(e, v))
    ensures Jams(BranchText(Text(e, v), n))
  {
    hide Jams, Dead;
    WidenDead(Text(e, v));
    DeadJams(WidenText(Text(e, v)));
  }

  lemma {:induction false} LetJams(x: string, value: Expr, body: Expr, v: Vars)
    requires !Readable(Let(x, value, body), v)
    ensures Jams(Text(Let(x, value, body), v))
    decreases Let(x, value, body), 0
  {
    hide Jams, Dead, Operand, Chain, OpenAs, Read;
    var v' := Bind(x, value, v);
    if Readable(value, v') { TextReads(value, v'); } else { TextJams(value, v'); }
    if !Readable(body, v') { TextJams(body, v'); }
    LetDead(x, Text(value, v'), Read(value, v'), Text(body, v'));
    DeadJams(Text(Let(x, value, body), v));
  }

  lemma {:induction false} BinaryJams(op: BinOp, l: Expr, r: Expr, v: Vars)
    requires !Readable(Binary(op, l, r), v)
    ensures Jams(Text(Binary(op, l, r), v))
    decreases Binary(op, l, r), 0
  {
    hide Jams, Dead, Operand, Chain, OpenAs, Read, FormOf, Text, ReceiverText, ParenthesizeAsCast, Swaps;
    if Readable(l, v) { TextReads(l, v); } else { TextJams(l, v); }
    if Readable(r, v) { TextReads(r, v); } else { TextJams(r, v); }
    match FormOf(op, l, r, v) {
      case ImpliesForm => ImpliesJams(l, r, v);
      case U128Form => CastPairJams(op, l, r, v);
      case WidenForm => WidenPairJams(op, l, r, v);
      case PlainForm => PlainJams(op, l, r, v);
      case WrapForm(kind) =>
        if Swaps(op, l, r) { WrapJams(op, r, l, kind, v); } else { WrapJams(op, l, r, kind, v); }
    }
    FormIsDead(op, l, r, v);
  }

  /** What is known of an operand: it is read, or it is not. */
  ghost predicate Known(e: Expr, v: Vars) {
    if Readable(e, v) then ReadsAs(Text(e, v), Read(e, v), OpenCast(e, v)) else Jams(Text(e, v))
  }

  /** The text of the operator's form is no expression, or stops before its end. */
  ghost predicate FormJams(op: BinOp, l: Expr, r: Expr, v: Vars) {
    var ls, rs := Text(l, v), Text(r, v);
    match FormOf(op, l, r, v)
    case ImpliesForm => Dead(ImpliesText(ls, rs))
    case U128Form => Dead(BinaryText(op, AsText(ls, "u128"), AsText(rs, "u128")))
    case WidenForm => Dead(BinaryText(op, WidenText(ls), WidenText(rs)))
    case PlainForm => Dead(BinaryText(op, ls, rs))
    case WrapForm(kind) =>
      if Swaps(op, l, r) then Jams(WrapText(op, ReceiverText(r, kind, v), ParenthesizeAsCast(ls)))
      else Jams(WrapText(op, ReceiverText(l, kind, v), ParenthesizeAsCast(rs)))
  }

  lemma FormIsDead(op: BinOp, l: Expr, r: Expr, v: Vars)
    requires FormJams(op, l, r, v)
    ensures Jams(Text(Binary(op, l, r), v))
  {
    hide Jams, Dead, FormOf, Swaps, Text;
    TextShape(op, l, r, v);
    if !FormOf(op, l, r, v).WrapForm? { DeadJams(Text(Binary(op, l, r), v)); }
  }

  lemma ImpliesJams(l: Expr, r: Expr, v: Vars)
    requires Known(l, v) && Known(r, v) && (!Readable(l, v) || !Readable(r, v))
    ensures Dead(ImpliesText(Text(l, v), Text(r, v)))
  {
    hide Jams, Dead, Operand, Chain, OpenAs, Read, Text, Readable;
    if !Readable(l, v) { ImpliesLeftDead(Text(l, v), Text(r, v)); }
    else { ImpliesRightDead(Text(l, v), Read(l, v), OpenCast(l, v), Text(r, v)); }
  }

  lemma CastPairJams(op: BinOp, l: Expr, r: Expr, v: Vars)
    requires Known(l, v) && Known(r, v) && (!Readable(l, v) || !Readable(r, v))
    ensures Dead(BinaryText(op, AsText(Text(l, v), "u128"), AsText(Text(r, v), "u128")))
  {
    hide Jams, Dead, Operand, Chain, OpenAs, Read, Text, Readable;
    var ls, rs := AsText(Text(l, v), "u128"), AsText(Text(r, v), "u128");
    if !Readable(l, v) {
      AsDead(Text(l, v), "u128");
      DeadJams(ls);
    } else {
      WidthCastReads(l, v);
      AsDead(Text(r, v), "u128");
      DeadJams(rs);
    }
    PairDead(op, ls, RAs(Read(l, v), "u128"), rs);
  }

  lemma WidenPairJams(op: BinOp, l: Expr, r: Expr, v: Vars)
    requires Known(l, v) && Known(r, v) && (!Readable(l, v) || !Readable(r, v))
    ensures Dead(BinaryText(op, WidenText(Text(l, v)), WidenText(Text(r, v))))
  {
    hide Jams, Dead, Operand, Chain, OpenAs, Read, Text, Readable;
    var ls, rs := WidenText(Text(l, v)), WidenText(Text(r, v));
    if !Readable(l, v) {
      WidenDead(Text(l, v));
      DeadJams(ls);
    } else {
      WidenReads(l, v);
      WidenDead(Text(r, v));
      DeadJams(rs);
    }
    PairDead(op, ls, RWiden(Read(l, v)), rs);
  }

  lemma PairDead(op: BinOp, ls: seq<Token>, l: Tree, rs: seq<Token>)
    requires Jams(ls) || (Operand(ls, l) && Jams(rs) && (op.Lt? ==> Chain(ls, l)))
    ensures Dead(BinaryText(op, ls, rs))
  {
    hide Jams, Dead, Operand, Chain;
    if Jams(ls) { LeftDead(ls, op, rs); } else { RightDead(ls, l, op, rs); }
    assert BinaryText(op, ls, rs) == [LParen] + (ls + [Op(op)] + rs) + [RParen];
  }

  lemma PlainJams(op: BinOp, l: Expr, r: Expr, v: Vars)
    requires Known(l, v) && Known(r, v)
    requires !Readable(l, v) || !Readable(r, v) || (op.Lt? && OpenCast(l, v))
    ensures Dead(BinaryText(op, Text(l, v), Text(r, v)))
  {
    hide Jams, Dead, Operand, Chain, OpenAs, Read, Text, Readable;
    if Readable(l, v) && op.Lt? && OpenCast(l, v) {
      OpenLessDead(Text(l, v), Read(l, v), Text(r, v));
    } else {
      PairDead(op, Text(l, v), Read(l, v), Text(r, v));
    }
  }

  lemma WrapJams(op: BinOp, recv: Expr, arg: Expr, kind: Kind, v: Vars)
    requires op.CanWrap() && Known(recv, v) && Known(arg, v) && (!Readable(recv, v) || !Readable(arg, v))
    ensures Jams(WrapText(op, ReceiverText(recv, kind, v), ParenthesizeAsCast(Text(arg, v))))
  {
    hide Jams, Dead, Operand, Chain, OpenAs, Read, Text, WrapText;
    var rs, as' := ReceiverText(recv, kind, v), ParenthesizeAsCast(Text(arg, v));
    WrapTextIs(op, rs, as');
    if !Readable(recv, v) {
      ParenthesizeJams(Text(recv, v));
      JamsThen(rs, [Dot, Id(WrapMethodName(op)), LParen] + as' + [RParen]);
      assert rs + ([Dot, Id(WrapMethodName(op)), LParen] + as' + [RParen])
          == rs + [Dot, Id(WrapMethodName(op)), LParen] + as' + [RParen];
    } else {
      ReceiverIsClosed(recv, kind, v);
      ParenthesizeJams(Text(arg, v));
      TextStart(arg, v);
      ArgumentJams(rs, ReadReceiver(recv, kind, v), WrapMethodName(op), as');
    }
  }

  lemma WrapTextIs(op: BinOp, recv: seq<Token>, arg: seq<Token>)
    requires op.CanWrap()
    ensures WrapText(op, recv, arg) == recv + [Dot, Id(WrapMethodName(op)), LParen] + arg + [RParen]
  {
  }

  // ----- The exact result -----

  /**
   * The emitted text parses completely exactly when the expression is readable, and to the
   * intended expression exactly when, besides, no prefix operator stands in front of an
   * open `as` cast.
   */
  lemma TextParses(e: Expr, v: Vars)
    ensures Readable(e, v) ==> ParseExpr(Text(e, v)) == Got(Read(e, v), [])
    ensures (exists t :: ParseExpr(Text(e, v)) == Got(t, [])) <==> Readable(e, v)
    ensures ParseExpr(Text(e, v)) == Got(Intended(e, v), []) <==> Readable(e, v) && NoOpenPrefix(e, v)
  {
    hide ParseExpr, Text, Read, Intended, Readable, NoOpenPrefix;
    if Readable(e, v) {
      ReadableParses(e, v);
      ReadIsTree(e, v);
    } else {
      TextJams(e, v);
      JamsClosed(Text(e, v), [], RParen);
      assert Text(e, v) + [] == Text(e, v);
    }
  }

  lemma ReadableParses(e: Expr, v: Vars)
    requires Readable(e, v)
    ensures ParseExpr(Text(e, v)) == Got(Read(e, v), [])
  {
    hide Text, Read, Readable, ParseCast;
    TextReads(e, v);
    assert Text(e, v) + [] == Text(e, v);
    assert ParseCast(Text(e, v) + []) == Got(Read(e, v), []);
    assert BinaryLoop(1, Read(e, v), []) == Got(Read(e, v), []);
  }

  /** A `wrapping_*` receiver is never an open cast, so the method binds to the value. */
  lemma ReceiverIsClosed(e: Expr, kind: Kind, v: Vars)
    requires Readable(e, v)
    ensures Chain(ReceiverText(e, kind, v), ReadReceiver(e, kind, v))
  {
    if IsBareLiteral(e) {
      LiteralReceiverReads(e, kind, v);
    } else {
      TextReads(e, v);
      ParenthesizedReads(Text(e, v), Read(e, v), OpenCast(e, v));
    }
  }
}
