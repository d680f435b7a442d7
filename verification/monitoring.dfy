/**
 * The textual test that decides whether a generated assertion is executed or left as a
 * comment: a dotted word whose later parts are not all known method names. It takes
 * `a.wrapping_add` for a field access.
 */
module Monitoring {
  import opened Ast
  import opened RustSyntax
  import opened Emitter
  import opened Snapshots

  const KNOWN_METHODS: set<string> := {
    "iter", "all", "any", "map", "filter", "len", "is_empty", "clone", "count", "sum", "collect", "flat_map",
    "zip", "enumerate", "take", "skip", "find", "fold", "for_each", "min", "max", "contains", "position",
    "into_iter", "as_ref", "as_mut", "unwrap", "unwrap_or", "expect", "ok", "err", "is_some", "is_none",
    "is_ok", "is_err"}

  // ----- The test -----

  /** Tokens spelled with letters, digits and underscores, which glue to a neighbouring dot. */
  predicate IsWord(t: Token) { t.Id? || t.Num? || t.Truth? || t.Float? }

  /** First part of the dotted word that ends where `ts` ends. */
  function WordHead(ts: seq<Token>): Option<Token> {
    if ts == [] || !IsWord(ts[|ts| - 1]) then None
    else if |ts| >= 2 && ts[|ts| - 2] == Dot then WordHead(ts[..|ts| - 2])
    else Some(ts[|ts| - 1])
  }

  predicate StartsName(t: Option<Token>) {
    t.Some? && t.value.Id? && t.value.name != [] &&
    ('a' <= t.value.name[0] <= 'z' || 'A' <= t.value.name[0] <= 'Z' || t.value.name[0] == '_')
  }

  predicate UnknownPart(ts: seq<Token>, i: nat) {
    i < |ts| && ts[i].Id? && ts[i].name !in KNOWN_METHODS
  }

  /** The dot at `i` continues a name with something that is not a known method. */
  predicate FlaggedDot(ts: seq<Token>, i: nat) {
    i < |ts| && ts[i] == Dot && UnknownPart(ts, i + 1) && StartsName(WordHead(ts[..i]))
  }

  predicate ResultDot(ts: seq<Token>, i: nat) {
    i + 1 < |ts| && ts[i] == Id(RESULT_VAR) && ts[i + 1] == Dot
  }

  /** The text before the first `__assura_result.` starts with a word that is no known method. */
  predicate LeadingWord(ts: seq<Token>) {
    && ts != [] && !ResultDot(ts, 0)
    && (match ts[0]
        case Id(x) => x !in KNOWN_METHODS
        case Num(_, _) | Truth(_) | Float(_) | IfKw | Widen | LetKw | As | ElseKw => true
        case _ => false)
  }

  predicate HasDeepFieldAccess(ts: seq<Token>) {
    || (exists i :: 0 <= i < |ts| && FlaggedDot(ts, i))
    || ((exists i :: 0 <= i < |ts| && ResultDot(ts, i))
        && (LeadingWord(ts) || exists i :: 0 <= i < |ts| && ResultDot(ts, i) && UnknownPart(ts, i + 2)))
  }

  // ----- What it means on the source -----

  predicate Flagged(ts: seq<Token>) { exists i :: 0 <= i < |ts| && FlaggedDot(ts, i) }

  predicate DotsResult(ts: seq<Token>) { exists i :: 0 <= i < |ts| && ResultDot(ts, i) }

  /** No fields; `old` is a snapshot variable. */
  predicate FieldFree(e: Expr) {
    match e
    case Ident(_) | IntLit(_) | BoolLit(_) | FloatLit(_) | Old(_) => true
    case Field(_, _) => false
    case Length(r) => FieldFree(r)
    case Unary(_, inner) => FieldFree(inner)
    case Cast(inner, _) => FieldFree(inner)
    case Binary(_, l, r) => FieldFree(l) && FieldFree(r)
    case If(c, t, f) => FieldFree(c) && FieldFree(t) && FieldFree(f)
    case Let(_, value, body) => FieldFree(value) && FieldFree(body)
  }

  /** A variable whose emitted name begins with a letter or an underscore, or a snapshot. */
  predicate NamedOperand(e: Expr, v: Vars) {
    e.Old? || (e.Ident? && StartsName(Some(Id(RustName(e.name, v.renameResult)))))
  }

  /** Somewhere in `e` a wrapping operation is emitted with a name as its receiver. */
  predicate NamedReceiver(e: Expr, v: Vars) {
    match e
    case Ident(_) | IntLit(_) | BoolLit(_) | FloatLit(_) | Old(_) => false
    case Field(b, _) => NamedReceiver(b, v)
    case Length(r) => NamedReceiver(r, v)
    case Unary(_, inner) => NamedReceiver(inner, v)
    case Cast(inner, _) => NamedReceiver(inner, v)
    case If(c, t, f) => NamedReceiver(c, v) || NamedReceiver(t, v) || NamedReceiver(f, v)
    case Let(x, value, body) => NamedReceiver(value, Bind(x, value, v)) || NamedReceiver(body, Bind(x, value, v))
    case Binary(op, l, r) =>
      || NamedReceiver(l, v) || NamedReceiver(r, v)
      || (FormOf(op, l, r, v).WrapForm? && NamedOperand(if Swaps(op, l, r) then r else l, v))
  }

  /** Somewhere in `e` a length of the result is taken, or it receives a wrapping operation. */
  predicate DotsTheResult(e: Expr, v: Vars) {
    match e
    case Ident(_) | IntLit(_) | BoolLit(_) | FloatLit(_) | Old(_) => false
    case Field(b, _) => DotsTheResult(b, v)
    case Length(r) => DotsTheResult(r, v) || EmitsResult(r, v)
    case Unary(_, inner) => DotsTheResult(inner, v)
    case Cast(inner, _) => DotsTheResult(inner, v)
    case If(c, t, f) => DotsTheResult(c, v) || DotsTheResult(t, v) || DotsTheResult(f, v)
    case Let(x, value, body) => DotsTheResult(value, Bind(x, value, v)) || DotsTheResult(body, Bind(x, value, v))
    case Binary(op, l, r) =>
      || DotsTheResult(l, v) || DotsTheResult(r, v)
      || (FormOf(op, l, r, v).WrapForm? && EmitsResult(if Swaps(op, l, r) then r else l, v))
  }

  predicate EmitsResult(e: Expr, v: Vars) {
    e.Ident? && RustName(e.name, v.renameResult) == RESULT_VAR
  }

  // ----- Texts never meet at a dot, except around a method -----

  predicate Clean(ts: seq<Token>) {
    ts != [] && ts[0] != Dot && ts[|ts| - 1] != Dot
  }

  predicate Dotless(ts: seq<Token>) {
    Dot !in ts
  }

  lemma {:induction false} HeadAfter(a: seq<Token>, c: seq<Token>)
    requires c != [] && c[0] != Dot && (a != [] ==> a[|a| - 1] != Dot)
    ensures WordHead(a + c) == WordHead(c)
    decreases |c|
  {
    var t := a + c;
    assert t[|t| - 1] == c[|c| - 1];
    if |c| >= 2 && c[|c| - 2] == Dot {
      assert t[|t| - 2] == Dot;
      assert t[..|t| - 2] == a + c[..|c| - 2];
      HeadAfter(a, c[..|c| - 2]);
    } else if |c| >= 2 {
      assert t[|t| - 2] == c[|c| - 2];
    } else if a != [] {
      assert t[|t| - 2] == a[|a| - 1];
    }
  }

  lemma FlagConcat(a: seq<Token>, b: seq<Token>)
    requires b != [] ==> b[0] != Dot
    requires a != [] ==> a[|a| - 1] != Dot
    ensures Flagged(a + b) <==> Flagged(a) || Flagged(b)
    ensures DotsResult(a + b) <==> DotsResult(a) || DotsResult(b)
  {
    var t := a + b;
    forall i | 0 <= i < |a| ensures FlaggedDot(t, i) == FlaggedDot(a, i) && ResultDot(t, i) == ResultDot(a, i) {
      assert t[..i] == a[..i];
      if a[i] == Dot { assert i + 1 < |a|; }
    }
    forall i | 0 <= i < |b| ensures FlaggedDot(t, |a| + i) == FlaggedDot(b, i) && ResultDot(t, |a| + i) == ResultDot(b, i) {
      assert t[..|a| + i] == a + b[..i];
      if i > 0 { HeadAfter(a, b[..i]); }
    }
    if Flagged(a) { var i :| 0 <= i < |a| && FlaggedDot(a, i); assert FlaggedDot(t, i); }
    if Flagged(b) { var i :| 0 <= i < |b| && FlaggedDot(b, i); assert FlaggedDot(t, |a| + i); }
    if Flagged(t) {
      var i :| 0 <= i < |t| && FlaggedDot(t, i);
      if i < |a| { assert FlaggedDot(a, i); } else { assert FlaggedDot(b, i - |a|); }
    }
    if DotsResult(a) { var i :| 0 <= i < |a| && ResultDot(a, i); assert ResultDot(t, i); }
    if DotsResult(b) { var i :| 0 <= i < |b| && ResultDot(b, i); assert ResultDot(t, |a| + i); }
    if DotsResult(t) {
      var i :| 0 <= i < |t| && ResultDot(t, i);
      if i < |a| { assert ResultDot(a, i); } else { assert ResultDot(b, i - |a|); }
    }
  }

  lemma DotlessIsQuiet(ts: seq<Token>)
    requires Dotless(ts)
    ensures !Flagged(ts) && !DotsResult(ts)
  {
  }

  lemma Enclosed(a: seq<Token>, ts: seq<Token>, b: seq<Token>)
    requires Dotless(a) && Dotless(b) && Clean(ts)
    ensures Flagged(a + ts + b) <==> Flagged(ts)
    ensures DotsResult(a + ts + b) <==> DotsResult(ts)
    ensures Clean(a + ts + b)
  {
    hide Flagged, DotsResult;
    FlagConcat(a, ts);
    FlagConcat(a + ts, b);
    DotlessIsQuiet(a);
    DotlessIsQuiet(b);
  }

  lemma EnclosedPair(a: seq<Token>, ts: seq<Token>, b: seq<Token>, us: seq<Token>, c: seq<Token>)
    requires Dotless(a) && Dotless(b) && Dotless(c) && Clean(ts) && Clean(us)
    ensures Flagged(a + ts + b + us + c) <==> Flagged(ts) || Flagged(us)
    ensures DotsResult(a + ts + b + us + c) <==> DotsResult(ts) || DotsResult(us)
    ensures Clean(a + ts + b + us + c)
  {
    hide Flagged, DotsResult;
    Enclosed(a, ts, b);
    FlagConcat(a + ts + b, us);
    FlagConcat(a + ts + b + us, c);
    DotlessIsQuiet(c);
  }

  function MethodOpen(m: string): seq<Token> { [Dot, Id(m), LParen] }

  /** Appending `.m(` flags the word it continues, unless `m` is a known method. */
  lemma MethodTailFlags(ts: seq<Token>, m: string)
    requires Clean(ts)
    ensures Clean(ts + MethodOpen(m))
    ensures Flagged(ts + MethodOpen(m)) <==> Flagged(ts) || (m !in KNOWN_METHODS && StartsName(WordHead(ts)))
  {
    hide WordHead, StartsName, KNOWN_METHODS;
    var t := ts + MethodOpen(m);
    assert t[|ts|] == Dot && t[|ts| + 1] == Id(m) && t[|ts| + 2] == LParen && t[..|ts|] == ts;
    assert FlaggedDot(t, |ts|) <==> m !in KNOWN_METHODS && StartsName(WordHead(ts));
    forall i | 0 <= i < |ts| ensures FlaggedDot(t, i) == FlaggedDot(ts, i) {
      assert t[..i] == ts[..i];
    }
    if Flagged(ts) { var i :| 0 <= i < |ts| && FlaggedDot(ts, i); assert FlaggedDot(t, i); }
    if Flagged(t) {
      var i :| 0 <= i < |t| && FlaggedDot(t, i);
      if i < |ts| { assert FlaggedDot(ts, i); }
    }
  }

  lemma MethodTailResult(ts: seq<Token>, m: string)
    requires Clean(ts)
    ensures DotsResult(ts + MethodOpen(m)) <==> DotsResult(ts) || ts[|ts| - 1] == Id(RESULT_VAR)
  {
    var t := ts + MethodOpen(m);
    assert t[|ts|] == Dot && t[|ts| + 1] == Id(m) && t[|ts| + 2] == LParen && t[|ts| - 1] == ts[|ts| - 1];
    assert ResultDot(t, |ts| - 1) <==> ts[|ts| - 1] == Id(RESULT_VAR);
    forall i | 0 <= i < |ts| - 1 ensures ResultDot(t, i) == ResultDot(ts, i) {}
    if DotsResult(ts) { var i :| 0 <= i < |ts| && ResultDot(ts, i); assert ResultDot(t, i); }
    if DotsResult(t) {
      var i :| 0 <= i < |t| && ResultDot(t, i);
      if i < |ts| - 1 { assert ResultDot(ts, i); }
    }
  }

  lemma KnownLen()
    ensures "len" in KNOWN_METHODS
    ensures "wrapping_add" !in KNOWN_METHODS && "wrapping_sub" !in KNOWN_METHODS && "wrapping_mul" !in KNOWN_METHODS
  {
    assert |"wrapping_add"| == |"wrapping_sub"| == |"wrapping_mul"| == 12;
  }

  lemma LengthQuiet(ts: seq<Token>)
    requires Clean(ts)
    ensures Flagged(LengthText(ts)) <==> Flagged(ts)
    ensures DotsResult(LengthText(ts)) <==> DotsResult(ts) || ts[|ts| - 1] == Id(RESULT_VAR)
    ensures Clean(LengthText(ts))
  {
    hide Flagged, DotsResult, WordHead, StartsName;
    KnownLen();
    MethodTailFlags(ts, "len");
    MethodTailResult(ts, "len");
    var head, tail := ts + MethodOpen("len"), [RParen, As, Id("u64")];
    assert LengthText(ts) == head + tail;
    FlagConcat(head, tail);
    DotlessIsQuiet(tail);
  }

  lemma WrapQuiet(op: BinOp, recv: seq<Token>, arg: seq<Token>)
    requires op.CanWrap() && Clean(recv) && Clean(arg)
    ensures Flagged(WrapText(op, recv, arg)) <==> Flagged(recv) || StartsName(WordHead(recv)) || Flagged(arg)
    ensures DotsResult(WrapText(op, recv, arg)) <==> DotsResult(recv) || recv[|recv| - 1] == Id(RESULT_VAR) || DotsResult(arg)
    ensures Clean(WrapText(op, recv, arg))
  {
    hide *;
    var m := WrapMethodName(op);
    WrapMethodsUnknown(op);
    MethodTailFlags(recv, m);
    MethodTailResult(recv, m);
    var head := recv + MethodOpen(m);
    CallQuiet(head, arg);
    WrapTextIsCall(op, recv, arg);
  }

  lemma WrapTextIsCall(op: BinOp, recv: seq<Token>, arg: seq<Token>)
    requires op.CanWrap()
    ensures WrapText(op, recv, arg) == recv + MethodOpen(WrapMethodName(op)) + arg + [RParen]
  {
  }

  lemma WrapMethodsUnknown(op: BinOp)
    requires op.CanWrap()
    ensures WrapMethodName(op) !in KNOWN_METHODS
  {
    KnownLen();
  }

  lemma CallQuiet(head: seq<Token>, arg: seq<Token>)
    requires Clean(head) && Clean(arg)
    ensures Flagged(head + arg + [RParen]) <==> Flagged(head) || Flagged(arg)
    ensures DotsResult(head + arg + [RParen]) <==> DotsResult(head) || DotsResult(arg)
    ensures Clean(head + arg + [RParen])
  {
    hide Flagged, DotsResult;
    FlagConcat(head, arg);
    FlagConcat(head + arg, [RParen]);
    DotlessIsQuiet([RParen]);
  }

  /** How the text of an operand ends. */
  lemma TextEnd(e: Expr, v: Vars)
    requires v.renameResult && FieldFree(e)
    ensures var ts := Text(e, v); var last := ts[|ts| - 1];
      && (last == Id(RESULT_VAR) <==> EmitsResult(e, v))
      && (e.Length? ==> As in ts && last == Id("u64"))
      && (e.Old? ==> last == Id(OLD_VAR_PREFIX + OldVarName(e.inner)))
      && (IsWord(last) ==> |ts| == 1 || e.Length?)
      && ((e.Ident? || e.Old?) ==> |ts| == 1)
      && (|ts| == 1 && !e.Ident? && !e.Old? ==> !last.Id?)
  {
    hide Text, FormOf, OldVarName, RustName;
    match e
    case Ident(_) | IntLit(_) | BoolLit(_) | FloatLit(_) | Old(_) => LeafEnd(e, v);
    case Length(receiver) => LengthEnd(receiver, v);
    case Binary(op, l, r) => BinaryEnd(op, l, r, v);
    case Unary(_, _) | Cast(_, _) | If(_, _, _) | Let(_, _, _) => ClosedEnd(e, v);
    case Field(_, _) =>
  }

  lemma LeafEnd(e: Expr, v: Vars)
    requires v.renameResult && (e.Ident? || e.IntLit? || e.BoolLit? || e.FloatLit? || e.Old?)
    ensures |Text(e, v)| == 1 && (Text(e, v)[0] == Id(RESULT_VAR) <==> EmitsResult(e, v))
    ensures !e.Ident? && !e.Old? ==> !Text(e, v)[0].Id?
    ensures e.Old? ==> Text(e, v)[0] == Id(OLD_VAR_PREFIX + OldVarName(e.inner))
  {
    if e.Old? {
      var x := OLD_VAR_PREFIX + OldVarName(e.inner);
      assert x[9] == 'o' && RESULT_VAR[9] == 'r';
    }
  }

  lemma ClosedEnd(e: Expr, v: Vars)
    requires e.Unary? || e.Cast? || e.If? || e.Let?
    ensures var ts := Text(e, v); ts[|ts| - 1] == if e.If? || e.Let? then RBrace else RParen
  {
    hide Normalises, BranchText, MapTypeToken;
  }

  lemma LengthEnd(r: Expr, v: Vars)
    ensures var us := Text(Length(r), v);
      |us| > 1 && As in us && us[|us| - 1] == Id("u64") && Id("u64") != Id(RESULT_VAR)
  {
    var us := LengthText(Text(r, v));
    assert us[|us| - 2] == As;
    assert "u64"[0] == 'u' && RESULT_VAR[0] == '_';
  }

  lemma BinaryEnd(op: BinOp, l: Expr, r: Expr, v: Vars)
    ensures var ts := Text(Binary(op, l, r), v); ts[|ts| - 1] == RParen
  {
    hide FormOf, ParenthesizeAsCast, WidenText, AsText, ReceiverText, Swaps, WrapText, ImpliesText, BinaryText, Text;
    TextShape(op, l, r, v);
    match FormOf(op, l, r, v)
    case ImpliesForm => EndsClosed(op, Text(l, v), Text(r, v));
    case U128Form => EndsClosed(op, AsText(Text(l, v), "u128"), AsText(Text(r, v), "u128"));
    case WidenForm => EndsClosed(op, WidenText(Text(l, v)), WidenText(Text(r, v)));
    case PlainForm => EndsClosed(op, Text(l, v), Text(r, v));
    case WrapForm(kind) =>
      EndsClosed(op, ReceiverText(l, kind, v), ParenthesizeAsCast(Text(r, v)));
      EndsClosed(op, ReceiverText(r, kind, v), ParenthesizeAsCast(Text(l, v)));
  }

  lemma EndsClosed(op: BinOp, ls: seq<Token>, rs: seq<Token>)
    ensures var ts := BinaryText(op, ls, rs); ts[|ts| - 1] == RParen
    ensures var ts := ImpliesText(ls, rs); ts[|ts| - 1] == RParen
    ensures op.CanWrap() ==> var ts := WrapText(op, ls, rs); ts[|ts| - 1] == RParen
  {
  }

  /** A receiver continues a name exactly when it is a variable or a snapshot. */
  lemma ReceiverHead(e: Expr, kind: Kind, v: Vars)
    requires v.renameResult && FieldFree(e) && Clean(Text(e, v))
    ensures var rs := ReceiverText(e, kind, v);
      && Clean(rs)
      && (StartsName(WordHead(rs)) <==> NamedOperand(e, v))
      && (rs[|rs| - 1] == Id(RESULT_VAR) <==> EmitsResult(e, v))
      && (IsBareLiteral(e) ==> !Flagged(rs) && !DotsResult(rs))
  {
    hide Flagged, DotsResult, WordHead, StartsName, Text, OldVarName, LiteralReceiver;
    if IsBareLiteral(e) {
      NotNamed(e, v);
      LiteralReceiverHead(e, kind, v);
    } else if e.Old? || e.Ident? {
      NameHead(e, v);
    } else {
      NotNamed(e, v);
      TextEnd(e, v);
      ClosedHead(Text(e, v));
    }
  }

  lemma NotNamed(e: Expr, v: Vars)
    requires !e.Old? && !e.Ident?
    ensures !NamedOperand(e, v) && !EmitsResult(e, v)
  {
  }

  lemma LiteralReceiverHead(e: Expr, kind: Kind, v: Vars)
    requires IsBareLiteral(e)
    ensures var rs := ReceiverText(e, kind, v);
      Clean(rs) && !StartsName(WordHead(rs)) && rs[|rs| - 1] != Id(RESULT_VAR) && !Flagged(rs) && !DotsResult(rs)
  {
    DotlessIsQuiet(ReceiverText(e, kind, v));
  }

  lemma NameHead(e: Expr, v: Vars)
    requires v.renameResult && (e.Ident? || e.Old?)
    ensures var ts := Text(e, v);
      |ts| == 1 && ts[0].Id? && ParenthesizeAsCast(ts) == ts
      && (StartsName(WordHead(ts)) <==> NamedOperand(e, v))
      && (ts[0] == Id(RESULT_VAR) <==> EmitsResult(e, v))
  {
    var ts := Text(e, v);
    assert WordHead(ts) == Some(ts[0]);
    if e.Old? {
      var x := OLD_VAR_PREFIX + OldVarName(e.inner);
      assert x[0] == '_' && x[9] == 'o' && RESULT_VAR[9] == 'r';
    }
  }

  /** A text that does not end in a name, or ends in an open cast, continues no name. */
  lemma ClosedHead(ts: seq<Token>)
    requires Clean(ts) && (IsWord(ts[|ts| - 1]) ==> (|ts| == 1 && !ts[0].Id?) || (ts[|ts| - 1].Id? && As in ts))
    ensures var rs := ParenthesizeAsCast(ts);
      Clean(rs) && !StartsName(WordHead(rs)) && rs[|rs| - 1] != Id(RESULT_VAR)
  {
  }

  lemma ParenthesizedQuiet(ts: seq<Token>)
    requires Clean(ts)
    ensures Clean(ParenthesizeAsCast(ts))
    ensures Flagged(ParenthesizeAsCast(ts)) <==> Flagged(ts)
    ensures DotsResult(ParenthesizeAsCast(ts)) <==> DotsResult(ts)
  {
    hide Flagged, DotsResult;
    Enclosed([LParen], ts, [RParen]);
  }

  /** The text is flagged exactly when a name receives a wrapping operation. */
  lemma {:induction false} FlaggedIffNamedReceiver(e: Expr, v: Vars)
    requires v.renameResult && FieldFree(e)
    ensures Clean(Text(e, v))
    ensures Flagged(Text(e, v)) <==> NamedReceiver(e, v)
    ensures DotsResult(Text(e, v)) <==> DotsTheResult(e, v)
    decreases e
  {
    hide Flagged, DotsResult, FormOf, Normalises, HasInnerI128, Clean, Swaps;
    match e
    case Ident(_) | IntLit(_) | BoolLit(_) | FloatLit(_) | Old(_) => LeafQuiet(e, v);
    case Length(r) =>
      FlaggedIffNamedReceiver(r, v);
      LengthQuiet(Text(r, v));
      TextEnd(r, v);
    case Unary(uop, inner) =>
      FlaggedIffNamedReceiver(inner, v);
      Enclosed([LParen, if uop.Neg? then Op(Sub) else Bang], Text(inner, v), [RParen]);
    case Cast(inner, ty) =>
      FlaggedIffNamedReceiver(inner, v);
      Enclosed([LParen], Text(inner, v), [As, Id(MapTypeToken(ty)), RParen]);
    case If(c, t, f) =>
      FlaggedIffNamedReceiver(c, v);
      FlaggedIffNamedReceiver(t, v);
      FlaggedIffNamedReceiver(f, v);
      IfQuiet(c, t, f, v);
    case Let(x, value, body) =>
      var v' := Bind(x, value, v);
      FlaggedIffNamedReceiver(value, v');
      FlaggedIffNamedReceiver(body, v');
      EnclosedPair([LBrace, LetKw, Id(x), Assign], Text(value, v'), [Semi], Text(body, v'), [RBrace]);
    case Binary(op, l, r) =>
      FlaggedIffNamedReceiver(l, v);
      FlaggedIffNamedReceiver(r, v);
      BinaryQuiet(op, l, r, v);
  }

  lemma LeafQuiet(e: Expr, v: Vars)
    requires v.renameResult && (e.Ident? || e.IntLit? || e.BoolLit? || e.FloatLit? || e.Old?)
    ensures Clean(Text(e, v)) && !Flagged(Text(e, v)) && !DotsResult(Text(e, v))
  {
    DotlessIsQuiet(Text(e, v));
  }

  lemma IfQuiet(c: Expr, t: Expr, f: Expr, v: Vars)
    requires Clean(Text(c, v)) && Clean(Text(t, v)) && Clean(Text(f, v))
    ensures Clean(Text(If(c, t, f), v))
    ensures Flagged(Text(If(c, t, f), v)) <==> Flagged(Text(c, v)) || Flagged(Text(t, v)) || Flagged(Text(f, v))
    ensures DotsResult(Text(If(c, t, f), v)) <==> DotsResult(Text(c, v)) || DotsResult(Text(t, v)) || DotsResult(Text(f, v))
  {
    hide Flagged, DotsResult, Normalises, HasInnerI128, Text, Clean, BranchText, IfText;
    var n := Normalises(t, f, Text(t, v), Text(f, v), v.floats);
    IfShape(c, t, f, v);
    BranchQuiet(Text(t, v), n);
    BranchQuiet(Text(f, v), n);
    IfTextQuiet(Text(c, v), BranchText(Text(t, v), n), BranchText(Text(f, v), n));
  }

  lemma BranchQuiet(ts: seq<Token>, n: bool)
    requires Clean(ts)
    ensures Clean(BranchText(ts, n))
    ensures Flagged(BranchText(ts, n)) <==> Flagged(ts)
    ensures DotsResult(BranchText(ts, n)) <==> DotsResult(ts)
  {
    hide Flagged, DotsResult, HasInnerI128;
    Enclosed([Widen, LParen], ts, [RParen]);
  }

  lemma IfTextQuiet(cs: seq<Token>, ts: seq<Token>, fs: seq<Token>)
    requires Clean(cs) && Clean(ts) && Clean(fs)
    ensures Clean(IfText(cs, ts, fs))
    ensures Flagged(IfText(cs, ts, fs)) <==> Flagged(cs) || Flagged(ts) || Flagged(fs)
    ensures DotsResult(IfText(cs, ts, fs)) <==> DotsResult(cs) || DotsResult(ts) || DotsResult(fs)
  {
    hide Flagged, DotsResult;
    var branches := [LBrace] + ts + [RBrace, ElseKw, LBrace] + fs + [RBrace];
    EnclosedPair([LBrace], ts, [RBrace, ElseKw, LBrace], fs, [RBrace]);
    Enclosed([IfKw], cs, []);
    FlagConcat([IfKw] + cs + [], branches);
    assert IfText(cs, ts, fs) == [IfKw] + cs + [] + branches;
  }

  lemma BinaryQuiet(op: BinOp, l: Expr, r: Expr, v: Vars)
    requires v.renameResult && FieldFree(l) && FieldFree(r) && Clean(Text(l, v)) && Clean(Text(r, v))
    requires Flagged(Text(l, v)) <==> NamedReceiver(l, v)
    requires Flagged(Text(r, v)) <==> NamedReceiver(r, v)
    requires DotsResult(Text(l, v)) <==> DotsTheResult(l, v)
    requires DotsResult(Text(r, v)) <==> DotsTheResult(r, v)
    ensures Clean(Text(Binary(op, l, r), v))
    ensures Flagged(Text(Binary(op, l, r), v)) <==> NamedReceiver(Binary(op, l, r), v)
    ensures DotsResult(Text(Binary(op, l, r), v)) <==> DotsTheResult(Binary(op, l, r), v)
  {
    hide Flagged, DotsResult, FormOf, Clean, Swaps, ReceiverText, ParenthesizeAsCast, WrapText, EmitsResult, NamedOperand,
         Text, NamedReceiver, DotsTheResult, FieldFree;
    var ls, rs := Text(l, v), Text(r, v);
    TextShape(op, l, r, v);
    BinaryStep(op, l, r, v);
    match FormOf(op, l, r, v)
    case ImpliesForm => EnclosedPair([LParen, Bang], ls, [Op(Or)], rs, [RParen]);
    case PlainForm => EnclosedPair([LParen], ls, [Op(op)], rs, [RParen]);
    case U128Form =>
      Enclosed([LParen], ls, [As, Id("u128"), RParen]);
      Enclosed([LParen], rs, [As, Id("u128"), RParen]);
      EnclosedPair([LParen], AsText(ls, "u128"), [Op(op)], AsText(rs, "u128"), [RParen]);
    case WidenForm =>
      Enclosed([Widen, LParen], ls, [RParen]);
      Enclosed([Widen, LParen], rs, [RParen]);
      EnclosedPair([LParen], WidenText(ls), [Op(op)], WidenText(rs), [RParen]);
    case WrapForm(kind) =>
      if Swaps(op, l, r) { MethodQuiet(op, r, l, kind, v); } else { MethodQuiet(op, l, r, kind, v); }
  }

  /** One step of `NamedReceiver` and of `DotsTheResult`. */
  lemma BinaryStep(op: BinOp, l: Expr, r: Expr, v: Vars)
    ensures NamedReceiver(Binary(op, l, r), v) ==
      (NamedReceiver(l, v) || NamedReceiver(r, v)
       || (FormOf(op, l, r, v).WrapForm? && NamedOperand(if Swaps(op, l, r) then r else l, v)))
    ensures DotsTheResult(Binary(op, l, r), v) ==
      (DotsTheResult(l, v) || DotsTheResult(r, v)
       || (FormOf(op, l, r, v).WrapForm? && EmitsResult(if Swaps(op, l, r) then r else l, v)))
  {
    hide FormOf, Swaps, NamedOperand, EmitsResult;
  }

  lemma MethodQuiet(op: BinOp, recv: Expr, arg: Expr, kind: Kind, v: Vars)
    requires op.CanWrap() && v.renameResult && FieldFree(recv) && FieldFree(arg)
    requires Clean(Text(recv, v)) && Clean(Text(arg, v))
    requires Flagged(Text(recv, v)) <==> NamedReceiver(recv, v)
    requires DotsResult(Text(recv, v)) <==> DotsTheResult(recv, v)
    ensures var ts := WrapText(op, ReceiverText(recv, kind, v), ParenthesizeAsCast(Text(arg, v)));
      && Clean(ts)
      && (Flagged(ts) <==> NamedReceiver(recv, v) || NamedOperand(recv, v) || Flagged(Text(arg, v)))
      && (DotsResult(ts) <==> DotsTheResult(recv, v) || EmitsResult(recv, v) || DotsResult(Text(arg, v)))
  {
    hide Flagged, DotsResult, Clean, WordHead, Text, ParenthesizeAsCast, WrapText, StartsName;
    ReceiverHead(recv, kind, v);
    ParenthesizedQuiet(Text(arg, v));
    ParenthesizedQuiet(Text(recv, v));
    WrapQuiet(op, ReceiverText(recv, kind, v), ParenthesizeAsCast(Text(arg, v)));
    if IsBareLiteral(recv) {
      assert !NamedReceiver(recv, v) && !DotsTheResult(recv, v);
    }
  }

  // ----- Members of the result -----

  /** Every dot is followed by the name of a method. */
  predicate MethodDots(ts: seq<Token>) {
    forall i | 0 <= i < |ts| && ts[i] == Dot :: i + 1 < |ts| && ts[i + 1].Id? && ts[i + 1].name != RESULT_VAR
  }

  lemma MethodDotsConcat(a: seq<Token>, b: seq<Token>)
    requires MethodDots(a) && MethodDots(b)
    ensures MethodDots(a + b)
  {
    var t := a + b;
    forall i | 0 <= i < |t| && t[i] == Dot ensures i + 1 < |t| && t[i + 1].Id? && t[i + 1].name != RESULT_VAR {
      if i < |a| { assert a[i] == Dot; } else { assert b[i - |a|] == Dot; }
    }
  }

  lemma MethodDotsAround(a: seq<Token>, ts: seq<Token>, b: seq<Token>)
    requires Dotless(a) && MethodDots(ts) && Dotless(b)
    ensures MethodDots(a + ts + b)
  {
    MethodDotsConcat(a, ts);
    MethodDotsConcat(a + ts, b);
  }

  lemma MethodDotsPair(a: seq<Token>, ts: seq<Token>, b: seq<Token>, us: seq<Token>, c: seq<Token>)
    requires Dotless(a) && MethodDots(ts) && Dotless(b) && MethodDots(us) && Dotless(c)
    ensures MethodDots(a + ts + b + us + c)
  {
    hide MethodDots;
    MethodDotsAround(a, ts, b);
    DotlessHasMethodDots(c);
    MethodDotsConcat(a + ts + b, us);
    MethodDotsConcat(a + ts + b + us, c);
  }

  lemma DotlessHasMethodDots(ts: seq<Token>)
    requires Dotless(ts)
    ensures MethodDots(ts)
  {
  }

  lemma MethodDotsOpen(m: string)
    requires m == "len" || m == "wrapping_add" || m == "wrapping_sub" || m == "wrapping_mul"
    ensures MethodDots(MethodOpen(m))
  {
    assert m[0] != RESULT_VAR[0];
  }

  lemma {:induction false} TextHasMethodDots(e: Expr, v: Vars)
    requires v.renameResult && FieldFree(e)
    ensures MethodDots(Text(e, v))
    decreases e
  {
    hide MethodDots, FormOf, Normalises, HasInnerI128, Swaps, BranchText, MapTypeToken;
    match e
    case Ident(_) | IntLit(_) | BoolLit(_) | FloatLit(_) | Old(_) => DotlessHasMethodDots(Text(e, v));
    case Length(r) =>
      TextHasMethodDots(r, v);
      LengthMethodDots(Text(r, v));
    case Unary(uop, inner) =>
      TextHasMethodDots(inner, v);
      MethodDotsAround([LParen, if uop.Neg? then Op(Sub) else Bang], Text(inner, v), [RParen]);
    case Cast(inner, ty) =>
      TextHasMethodDots(inner, v);
      MethodDotsAround([LParen], Text(inner, v), [As, Id(MapTypeToken(ty)), RParen]);
    case If(c, t, f) =>
      TextHasMethodDots(c, v);
      TextHasMethodDots(t, v);
      TextHasMethodDots(f, v);
      var n := Normalises(t, f, Text(t, v), Text(f, v), v.floats);
      BranchMethodDots(Text(t, v), n);
      BranchMethodDots(Text(f, v), n);
      IfMethodDots(Text(c, v), BranchText(Text(t, v), n), BranchText(Text(f, v), n));
    case Let(x, value, body) =>
      var v' := Bind(x, value, v);
      TextHasMethodDots(value, v');
      TextHasMethodDots(body, v');
      MethodDotsPair([LBrace, LetKw, Id(x), Assign], Text(value, v'), [Semi], Text(body, v'), [RBrace]);
    case Binary(op, l, r) =>
      TextHasMethodDots(l, v);
      TextHasMethodDots(r, v);
      BinaryMethodDots(op, l, r, v);
  }

  lemma LengthMethodDots(ts: seq<Token>)
    requires MethodDots(ts)
    ensures MethodDots(LengthText(ts))
  {
    hide MethodDots;
    MethodDotsOpen("len");
    MethodDotsConcat(ts, MethodOpen("len"));
    MethodDotsAround([], ts + MethodOpen("len"), [RParen, As, Id("u64")]);
    assert LengthText(ts) == [] + (ts + MethodOpen("len")) + [RParen, As, Id("u64")];
  }

  lemma BranchMethodDots(ts: seq<Token>, n: bool)
    requires ts != [] && MethodDots(ts)
    ensures MethodDots(BranchText(ts, n))
  {
    hide MethodDots, HasInnerI128;
    MethodDotsAround([Widen, LParen], ts, [RParen]);
  }

  lemma IfMethodDots(cs: seq<Token>, ts: seq<Token>, fs: seq<Token>)
    requires MethodDots(cs) && MethodDots(ts) && MethodDots(fs)
    ensures MethodDots(IfText(cs, ts, fs))
  {
    hide MethodDots;
    var branches := [LBrace] + ts + [RBrace, ElseKw, LBrace] + fs + [RBrace];
    MethodDotsPair([LBrace], ts, [RBrace, ElseKw, LBrace], fs, [RBrace]);
    MethodDotsAround([IfKw], cs, []);
    MethodDotsConcat([IfKw] + cs + [], branches);
    assert IfText(cs, ts, fs) == [IfKw] + cs + [] + branches;
  }

  lemma BinaryMethodDots(op: BinOp, l: Expr, r: Expr, v: Vars)
    requires v.renameResult && MethodDots(Text(l, v)) && MethodDots(Text(r, v))
    ensures MethodDots(Text(Binary(op, l, r), v))
  {
    hide MethodDots, FormOf, Swaps, Text, ReceiverText, ParenthesizeAsCast;
    var ls, rs := Text(l, v), Text(r, v);
    TextShape(op, l, r, v);
    match FormOf(op, l, r, v)
    case ImpliesForm => MethodDotsPair([LParen, Bang], ls, [Op(Or)], rs, [RParen]);
    case PlainForm => MethodDotsPair([LParen], ls, [Op(op)], rs, [RParen]);
    case U128Form =>
      MethodDotsAround([LParen], ls, [As, Id("u128"), RParen]);
      MethodDotsAround([LParen], rs, [As, Id("u128"), RParen]);
      MethodDotsPair([LParen], AsText(ls, "u128"), [Op(op)], AsText(rs, "u128"), [RParen]);
    case WidenForm =>
      MethodDotsAround([Widen, LParen], ls, [RParen]);
      MethodDotsAround([Widen, LParen], rs, [RParen]);
      MethodDotsPair([LParen], WidenText(ls), [Op(op)], WidenText(rs), [RParen]);
    case WrapForm(kind) =>
      if Swaps(op, l, r) { WrapMethodDots(op, r, l, kind, v); } else { WrapMethodDots(op, l, r, kind, v); }
  }

  lemma WrapMethodDots(op: BinOp, recv: Expr, arg: Expr, kind: Kind, v: Vars)
    requires op.CanWrap() && MethodDots(Text(recv, v)) && MethodDots(Text(arg, v))
    ensures MethodDots(WrapText(op, ReceiverText(recv, kind, v), ParenthesizeAsCast(Text(arg, v))))
  {
    hide MethodDots, Text, ParenthesizeAsCast, LiteralReceiver;
    var m := WrapMethodName(op);
    var recv' := if IsBareLiteral(recv) then LiteralReceiver(recv, kind) else Text(recv, v);
    if IsBareLiteral(recv) { LiteralMethodDots(recv, kind); }
    ParenthesizedMethodDots(recv');
    ParenthesizedMethodDots(Text(arg, v));
    var rs, as' := ReceiverText(recv, kind, v), ParenthesizeAsCast(Text(arg, v));
    MethodDotsOpen(m);
    MethodDotsConcat(rs, MethodOpen(m));
    MethodDotsConcat(rs + MethodOpen(m), as');
    MethodDotsAround([], rs + MethodOpen(m) + as', [RParen]);
    WrapTextIsCall(op, rs, as');
    assert [] + (rs + MethodOpen(m) + as') == rs + MethodOpen(m) + as';
  }

  lemma LiteralMethodDots(e: Expr, kind: Kind)
    requires IsBareLiteral(e)
    ensures MethodDots(LiteralReceiver(e, kind))
  {
  }

  lemma ParenthesizedMethodDots(ts: seq<Token>)
    requires ts != [] && MethodDots(ts)
    ensures MethodDots(ParenthesizeAsCast(ts))
  {
    hide MethodDots;
    MethodDotsAround([LParen], ts, [RParen]);
  }

  /** A member of the result that is no known method is flagged by the first half of the test. */
  lemma UnknownMemberIsFlagged(ts: seq<Token>, i: nat)
    requires MethodDots(ts) && i < |ts| && ResultDot(ts, i) && UnknownPart(ts, i + 2)
    ensures i + 1 < |ts| && FlaggedDot(ts, i + 1)
  {
    var front := ts[..i + 1];
    assert front[|front| - 1] == Id(RESULT_VAR);
    if i > 0 { assert front[|front| - 2] == ts[i - 1] != Dot; }
    assert WordHead(front) == Some(Id(RESULT_VAR));
  }

  /** On texts whose dots all stand before methods, the test has two causes. */
  lemma DeepFieldAccessIs(ts: seq<Token>)
    requires MethodDots(ts)
    ensures HasDeepFieldAccess(ts) <==> Flagged(ts) || (DotsResult(ts) && LeadingWord(ts))
  {
    hide MethodDots, FlaggedDot, ResultDot, UnknownPart, LeadingWord;
    forall i | 0 <= i < |ts| && ResultDot(ts, i) && UnknownPart(ts, i + 2) ensures Flagged(ts) {
      UnknownMemberIsFlagged(ts, i);
      assert FlaggedDot(ts, i + 1);
    }
  }

  /** Neither a length nor a sum: what every Boolean expression is. */
  predicate Clausal(e: Expr) {
    !e.Length? && !(e.Binary? && e.op.CanWrap())
  }

  /** Only an `if` starts with a word when a member of the result is taken in it. */
  lemma StartsWithWord(e: Expr, v: Vars)
    requires v.renameResult && FieldFree(e) && Clausal(e) && DotsTheResult(e, v)
    ensures LeadingWord(Text(e, v)) <==> e.If?
  {
    hide FormOf, Normalises, HasInnerI128, DotsTheResult, BranchText;
    var first := Text(e, v)[0];
    match e
    case If(_, _, _) => assert first == IfKw;
    case Let(_, _, _) => assert first == LBrace;
    case Unary(_, _) | Cast(_, _) => assert first == LParen;
    case Binary(_, _, _) => assert first == LParen;
    case _ => NoMemberTaken(e, v);
  }

  lemma NoMemberTaken(e: Expr, v: Vars)
    requires e.Ident? || e.IntLit? || e.BoolLit? || e.FloatLit? || e.Old?
    ensures !DotsTheResult(e, v)
  {
  }

  /**
   * A clause without fields is left unchecked exactly when a name receives a wrapping
   * operation in it, or when it is an `if` in which a member of the result is taken.
   */
  lemma UncheckedIff(e: Expr, v: Vars)
    requires v.renameResult && FieldFree(e) && Clausal(e)
    ensures HasDeepFieldAccess(Text(e, v)) <==> NamedReceiver(e, v) || (e.If? && DotsTheResult(e, v))
  {
    hide Text, NamedReceiver, DotsTheResult, FlaggedDot, ResultDot, LeadingWord, HasDeepFieldAccess;
    FlaggedIffNamedReceiver(e, v);
    TextHasMethodDots(e, v);
    DeepFieldAccessIs(Text(e, v));
    if DotsTheResult(e, v) { StartsWithWord(e, v); }
  }

  /** Every variable that the lexer reads, and every snapshot, counts as a name. */
  lemma VariablesAreNamed(x: string, inner: Expr, v: Vars)
    requires x != "" && ('a' <= x[0] <= 'z' || 'A' <= x[0] <= 'Z' || x[0] == '_')
    ensures NamedOperand(Ident(x), v) && NamedOperand(Old(inner), v)
  {
    assert RESULT_VAR[0] == '_';
  }

  /** The known methods: those of iterators and collections, those of `Option` and `Result`, and the conversions. */
  predicate IsStandardMethod(m: string) {
    || m == "iter" || m == "into_iter" || m == "all" || m == "any" || m == "map" || m == "filter" || m == "flat_map" || m == "fold"
    || m == "for_each" || m == "find" || m == "position" || m == "count" || m == "sum" || m == "min" || m == "max" || m == "zip"
    || m == "enumerate" || m == "take" || m == "skip" || m == "collect" || m == "len" || m == "is_empty" || m == "contains"
    || m == "is_some" || m == "is_none" || m == "is_ok" || m == "is_err" || m == "ok" || m == "err"
    || m == "unwrap" || m == "unwrap_or" || m == "expect" || m == "clone" || m == "as_ref" || m == "as_mut"
  }

  lemma KnownMethodsAre(m: string)
    ensures m in KNOWN_METHODS <==> IsStandardMethod(m)
  {
  }

  // ----- Field paths, which the test is there for -----

  function Fields(path: Expr): set<string>
    requires IsPath(path)
  {
    if path.Ident? then {} else Fields(path.base) + {path.field}
  }

  /** The path starts with an identifier, and no field is named like the generator's variable. */
  predicate Spelled(path: Expr, v: Vars)
    requires IsPath(path)
  {
    StartsName(Some(Id(RustName(Root(path), v.renameResult)))) && RESULT_VAR !in Fields(path)
  }

  lemma {:induction false} PathText(path: Expr, v: Vars)
    requires IsPath(path) && Spelled(path, v)
    ensures PathTokens(Text(path, v), RustName(Root(path), v.renameResult))
    ensures Flagged(Text(path, v)) <==> exists f :: f in Fields(path) && f !in KNOWN_METHODS
    decreases path
  {
    hide Flagged, StartsName, KNOWN_METHODS, PathTokens;
    if path.Field? {
      PathText(path.base, v);
      MemberTokens(Text(path.base, v), RustName(Root(path), v.renameResult), path.field);
      MemberFlags(Text(path.base, v), path.field);
    } else {
      DotlessIsQuiet(Text(path, v));
      NameTokens(Text(path, v), RustName(Root(path), v.renameResult));
    }
  }

  /** A word that starts with `name`, continued by dots, and never by the result's name. */
  ghost predicate PathTokens(ts: seq<Token>, name: string) {
    && ts != [] && ts[0] == Id(name) && WordHead(ts) == Some(Id(name)) && ts[|ts| - 1].Id?
    && (forall i :: 0 < i < |ts| ==> ts[i] != Id(RESULT_VAR))
    && (|ts| > 1 ==> ts[1] == Dot)
  }

  lemma NameTokens(ts: seq<Token>, name: string)
    requires ts == [Id(name)]
    ensures PathTokens(ts, name)
  {
  }

  lemma MemberTokens(ts: seq<Token>, name: string, f: string)
    requires PathTokens(ts, name) && f != RESULT_VAR
    ensures Clean(ts) && WordHead(ts) == Some(Id(name)) && PathTokens(ts + [Dot, Id(f)], name)
  {
    var us := ts + [Dot, Id(f)];
    assert us[..|us| - 2] == ts;
  }

  lemma MemberFlags(ts: seq<Token>, f: string)
    requires Clean(ts)
    ensures Flagged(ts + [Dot, Id(f)]) <==> Flagged(ts) || (f !in KNOWN_METHODS && StartsName(WordHead(ts)))
  {
    hide WordHead, StartsName, KNOWN_METHODS, Flagged, DotsResult;
    MethodTailFlags(ts, f);
    var t := ts + [Dot, Id(f)];
    assert ts + MethodOpen(f) == t + [LParen] && t[|t| - 1] == Id(f);
    FlagConcat(t, [LParen]);
    DotlessIsQuiet([LParen]);
  }

  /** A clause that is a field path is left unchecked exactly when some field is not named like a standard method. */
  lemma PathIsUncheckedIff(path: Expr, v: Vars)
    requires IsPath(path) && Spelled(path, v)
    ensures HasDeepFieldAccess(Text(path, v)) <==> exists f :: f in Fields(path) && !IsStandardMethod(f)
  {
    hide Text, KNOWN_METHODS, StartsName, IsStandardMethod;
    forall f ensures f in KNOWN_METHODS <==> IsStandardMethod(f) { KnownMethodsAre(f); }
    PathText(path, v);
    var ts := Text(path, v);
    if exists i :: 0 <= i < |ts| && ResultDot(ts, i) {
      assert ResultDot(ts, 0) && !LeadingWord(ts);
      if UnknownPart(ts, 2) {
        assert ts[..1] == [ts[0]] && WordHead(ts[..1]) == Some(ts[0]);
        assert FlaggedDot(ts, 1);
      }
    }
  }

  /** `if p then result.length() > 0 else true`: nothing wraps, and it is left unchecked. */
  lemma GuardedLengthIsUnchecked(p: string, v: Vars)
    requires v.renameResult
    ensures var clause := If(Ident(p), Binary(Gt, Length(Ident("result")), IntLit(0)), BoolLit(true));
      !NamedReceiver(clause, v) && HasDeepFieldAccess(Text(clause, v))
  {
    hide HasDeepFieldAccess, Text;
    var clause := If(Ident(p), Binary(Gt, Length(Ident("result")), IntLit(0)), BoolLit(true));
    assert EmitsResult(Ident("result"), v);
    assert DotsTheResult(clause.thn, v);
    assert !FormOf(Gt, Length(Ident("result")), IntLit(0), v).WrapForm?;
    assert !NamedReceiver(Length(Ident("result")), v) && !NamedReceiver(IntLit(0), v);
    assert !NamedReceiver(clause.thn, v);
    UncheckedIff(clause, v);
  }
}
