/**
 * What the expression folder writes, as a function of the expression and of the names
 * known to be Float, Int (`i64`) and Nat (`u64`).
 */
module Emitter {
  import opened Ast
  import opened Numeric
  import opened RustSyntax

  const RESULT_VAR := "__assura_result"
  const OLD_VAR_PREFIX := "__assura_old_"

  datatype Vars = Vars(floats: set<string>, ints: set<string>, nats: set<string>, renameResult: bool)

  datatype Kind = IntKind | NatKind | LitKind

  function UnifyKind(a: Option<Kind>, b: Option<Kind>): Option<Kind> {
    match (a, b)
    case (Some(IntKind), Some(IntKind)) => Some(IntKind)
    case (Some(IntKind), Some(LitKind)) => Some(IntKind)
    case (Some(LitKind), Some(IntKind)) => Some(IntKind)
    case (Some(NatKind), Some(NatKind)) => Some(NatKind)
    case (Some(NatKind), Some(LitKind)) => Some(NatKind)
    case (Some(LitKind), Some(NatKind)) => Some(NatKind)
    case (Some(LitKind), Some(LitKind)) => Some(LitKind)
    case _ => None
  }

  /** The Rust name of an Assura type token. */
  function MapTypeToken(ty: string): string {
    if ty == "Int" then "i64" else if ty == "Nat" then "u64"
    else if ty == "Float" then "f64" else if ty == "Bool" then "bool"
    else if ty == "Bytes" then "Vec<u8>" else if ty == "Unit" then "()" else if ty == "Never" then "!"
    else if ty == "U8" then "u8" else if ty == "U16" then "u16"
    else if ty == "U32" then "u32" else if ty == "U64" then "u64"
    else if ty == "I8" then "i8" else if ty == "I16" then "i16"
    else if ty == "I32" then "i32" else if ty == "I64" then "i64"
    else if ty == "F32" then "f32" else if ty == "F64" then "f64"
    else if ty == "List" || ty == "Sequence" then "Vec"
    else if ty == "Map" then "std::collections::BTreeMap"
    else if ty == "Set" then "std::collections::BTreeSet"
    else ty
  }

  function MachineKind(e: Expr, v: Vars): Option<Kind> {
    match e
    case Ident(x) => if x in v.nats then Some(NatKind) else if x in v.ints then Some(IntKind) else None
    case IntLit(_) => Some(LitKind)
    case Binary(op, l, r) =>
      if op.CanWrap() then UnifyKind(MachineKind(l, v), MachineKind(r, v)) else None
    case Unary(uop, inner) => if uop.Neg? then MachineKind(inner, v) else None
    case Old(inner) => MachineKind(inner, v)
    case Cast(inner, ty) =>
      if MapTypeToken(ty) == "u64" then Some(NatKind)
      else if MapTypeToken(ty) == "i64" then Some(IntKind)
      else MachineKind(inner, v)
    case If(_, t, f) => UnifyKind(MachineKind(t, v), MachineKind(f, v))
    case Let(_, _, body) => MachineKind(body, v)
    case Length(_) => Some(NatKind)
    case BoolLit(_) | FloatLit(_) | Field(_, _) => None
  }

  /** The kind in which `l op r` wraps, if the two sides agree on Int or Nat. */
  function SharedKind(l: Expr, r: Expr, v: Vars): Option<Kind> {
    var k := UnifyKind(MachineKind(l, v), MachineKind(r, v));
    if k == Some(LitKind) then None else k
  }

  function KindType(k: Kind): Ty {
    if k.NatKind? then U64 else I64
  }

  predicate IsNumeric(e: Expr) {
    match e
    case Ident(_) | IntLit(_) | FloatLit(_) | Field(_, _) | Length(_) => true
    case Binary(op, _, _) => op.IsArithmetic()
    case Unary(uop, _) => uop.Neg?
    case Old(inner) => IsNumeric(inner)
    case Cast(inner, _) => IsNumeric(inner)
    case Let(_, _, body) => IsNumeric(body)
    case If(_, t, _) => IsNumeric(t)
    case BoolLit(_) => false
  }

  /** A float literal or a float variable occurs in `e`. */
  predicate HasFloat(e: Expr, floats: set<string>) {
    match e
    case Ident(x) => x in floats
    case FloatLit(_) => true
    case IntLit(_) | BoolLit(_) => false
    case Field(b, _) => HasFloat(b, floats)
    case Length(r) => HasFloat(r, floats)
    case Binary(_, l, r) => HasFloat(l, floats) || HasFloat(r, floats)
    case Unary(_, inner) => HasFloat(inner, floats)
    case Old(inner) => HasFloat(inner, floats)
    case Cast(inner, _) => HasFloat(inner, floats)
    case If(c, t, f) => HasFloat(c, floats) || HasFloat(t, floats) || HasFloat(f, floats)
    case Let(_, value, body) => HasFloat(value, floats) || HasFloat(body, floats)
  }

  /** A literal above `i128::MAX` that still fits `u128` occurs in `e`. */
  predicate HasU128Literal(e: Expr) {
    match e
    case IntLit(n) => Max(I128) < n <= Max(U128)
    case Ident(_) | BoolLit(_) | FloatLit(_) => false
    case Field(b, _) => HasU128Literal(b)
    case Length(r) => HasU128Literal(r)
    case Binary(_, l, r) => HasU128Literal(l) || HasU128Literal(r)
    case Unary(_, inner) => HasU128Literal(inner)
    case Old(inner) => HasU128Literal(inner)
    case Cast(inner, _) => HasU128Literal(inner)
    case If(c, t, f) => HasU128Literal(c) || HasU128Literal(t) || HasU128Literal(f)
    case Let(_, value, body) => HasU128Literal(value) || HasU128Literal(body)
  }

  /** A literal, or a negated literal: `{integer}` to rustc, so not a method receiver. */
  predicate IsBareLiteral(e: Expr) {
    e.IntLit? || (e.Unary? && e.uop.Neg? && e.operand.IntLit?)
  }

  /** Name of the snapshot taken for `old(e)`, without its prefix. */
  function OldVarName(e: Expr): string {
    match e
    case Ident(x) => x
    case Field(b, f) => OldVarName(b) + "_" + f
    case Length(r) => OldVarName(r) + "_length"
    case IntLit(n) => "lit_" + Decimal(n)
    case FloatLit(d) => "lit_" + d
    case BoolLit(b) => if b then "lit_true" else "lit_false"
    case Binary(op, l, r) => OldVarName(l) + "_" + OpIdent(op) + "_" + OldVarName(r)
    case Unary(uop, inner) => (if uop.Neg? then "neg_" else "not_") + OldVarName(inner)
    case Old(inner) => OldVarName(inner)
    case Cast(inner, _) => OldVarName(inner)
    case If(c, _, _) => "if_" + OldVarName(c)
    case Let(x, _, _) => "let_" + x
  }

  function OpIdent(op: BinOp): string {
    match op
    case Add => "add" case Sub => "sub" case Mul => "mul" case Div => "div" case Mod => "mod"
    case Eq => "eq" case Neq => "neq" case Lt => "lt" case Lte => "lte" case Gt => "gt" case Gte => "gte"
    case And => "and" case Or => "or" case Implies => "implies"
  }

  function Decimal(n: nat): string {
    (if n < 10 then "" else Decimal(n / 10)) + ["0123456789"[n % 10]]
  }

  function RustName(x: string, renameResult: bool): string {
    if renameResult && x == "result" then RESULT_VAR else x
  }

  function LitSuffix(n: nat): Option<Ty> {
    if n > Max(I128) then (if n <= Max(U128) then Some(U128) else None)
    else if n > Max(I64) then Some(I128)
    else if n > Max(I32) then Some(I64)
    else None
  }

  function WrapMethodName(op: BinOp): string
    requires op.CanWrap()
  {
    match op case Add => "wrapping_add" case Sub => "wrapping_sub" case Mul => "wrapping_mul"
  }

  /** The binder's name is added to the set its value's kind names. */
  function Bind(x: string, value: Expr, v: Vars): Vars {
    var k := MachineKind(value, v);
    v.(floats := if HasFloat(value, v.floats) then v.floats + {x} else v.floats,
       ints := if k == Some(IntKind) then v.ints + {x} else v.ints,
       nats := if k == Some(NatKind) then v.nats + {x} else v.nats)
  }

  // ----- The branches of the binary-operator case -----

  datatype BinaryForm = ImpliesForm | U128Form | WrapForm(kind: Kind) | WidenForm | PlainForm

  function FormOf(op: BinOp, l: Expr, r: Expr, v: Vars): (form: BinaryForm)
    ensures form.WrapForm? ==> op.CanWrap() && !form.kind.LitKind?
  {
    if op.Implies? then ImpliesForm
    else if (op.IsComparison() || op.IsArithmetic()) && IsNumeric(l) && IsNumeric(r)
            && !HasFloat(l, v.floats) && !HasFloat(r, v.floats) then
      if HasU128Literal(l) || HasU128Literal(r) then U128Form
      else if op.CanWrap() && SharedKind(l, r, v).Some? then WrapForm(SharedKind(l, r, v).value)
      else WidenForm
    else PlainForm
  }

  /** A literal on the left of a commutative operator is moved to the argument. */
  predicate Swaps(op: BinOp, l: Expr, r: Expr) {
    op.Commutes() && IsBareLiteral(l) && !IsBareLiteral(r)
  }

  // ----- Text tests -----

  predicate HasInnerI128(ts: seq<Token>) {
    exists i :: 0 <= i < |ts| && IsI128Token(ts[i])
  }

  /** Tokens whose spelling contains `i128::from(` or `_i128`. */
  predicate IsI128Token(t: Token) {
    t.Widen? || (t.Num? && t.suffix == Some(I128)) || (t.Id? && Contains(t.name, "_i128"))
  }

  function ParenthesizeAsCast(ts: seq<Token>): (r: seq<Token>)
    requires ts != []
    ensures r != []
  {
    if As in ts && !(ts[0] == LParen && ts[|ts| - 1] == RParen) then [LParen] + ts + [RParen] else ts
  }

  function WidenText(ts: seq<Token>): (r: seq<Token>)
    ensures r != []
  {
    [Widen, LParen] + ts + [RParen]
  }

  /** One branch of an `if`, widened when the other one is `i128` and this one is not. */
  function BranchText(ts: seq<Token>, normalise: bool): (r: seq<Token>)
    requires ts != []
    ensures r != []
  {
    if normalise && !HasInnerI128(ts) then WidenText(ts) else ts
  }

  function BinaryText(op: BinOp, l: seq<Token>, r: seq<Token>): (ts: seq<Token>)
    ensures ts != []
  {
    [LParen] + l + [Op(op)] + r + [RParen]
  }

  function ImpliesText(l: seq<Token>, r: seq<Token>): (ts: seq<Token>)
    ensures ts != []
  {
    [LParen, Bang] + l + [Op(Or)] + r + [RParen]
  }

  function AsText(ts: seq<Token>, ty: string): (r: seq<Token>)
    ensures r != []
  {
    [LParen] + ts + [As, Id(ty), RParen]
  }

  function WrapText(op: BinOp, recv: seq<Token>, arg: seq<Token>): (ts: seq<Token>)
    requires op.CanWrap()
    ensures ts != []
  {
    recv + [Dot, Id(WrapMethodName(op)), LParen] + arg + [RParen]
  }

  function LengthText(ts: seq<Token>): (r: seq<Token>)
    ensures r != []
  {
    ts + [Dot, Id("len"), LParen, RParen, As, Id("u64")]
  }

  function UnaryText(uop: UnaryOp, ts: seq<Token>): (r: seq<Token>)
    ensures r != []
  {
    [LParen, if uop.Neg? then Op(Sub) else Bang] + ts + [RParen]
  }

  function IfText(c: seq<Token>, t: seq<Token>, f: seq<Token>): (ts: seq<Token>)
    ensures ts != []
  {
    [IfKw] + c + [LBrace] + t + [RBrace, ElseKw, LBrace] + f + [RBrace]
  }

  function LetText(x: string, value: seq<Token>, body: seq<Token>): (ts: seq<Token>)
    ensures ts != []
  {
    [LBrace, LetKw, Id(x), Assign] + value + [Semi] + body + [RBrace]
  }

  /** A literal receiver gets the suffix of the wrapping kind. */
  function LiteralReceiver(e: Expr, kind: Kind): (ts: seq<Token>)
    requires IsBareLiteral(e)
    ensures ts != []
  {
    if e.IntLit? then [Num(e.n, Some(KindType(kind)))]
    else [LParen, Op(Sub), Num(e.operand.n, Some(KindType(kind))), RParen]
  }

  predicate Normalises(t: Expr, f: Expr, ts: seq<Token>, fs: seq<Token>, floats: set<string>) {
    && IsNumeric(t) && IsNumeric(f)
    && (HasInnerI128(ts) || HasInnerI128(fs))
    && !HasFloat(t, floats) && !HasFloat(f, floats)
  }

  /**
   * The text written for `e` when every binder is new, so that the sets of names can be
   * passed down instead of being updated and restored.
   */
  function Text(e: Expr, v: Vars): (ts: seq<Token>)
    ensures ts != []
    decreases e, 1
  {
    match e
    case Ident(x) => [Id(RustName(x, v.renameResult))]
    case IntLit(n) => [Num(n, LitSuffix(n))]
    case BoolLit(b) => [Truth(b)]
    case FloatLit(d) => [Float(d)]
    case Field(b, f) => Text(b, v) + [Dot, Id(f)]
    case Length(r) => LengthText(Text(r, v))
    case Unary(uop, inner) => UnaryText(uop, Text(inner, v))
    case Old(inner) => if v.renameResult then [Id(OLD_VAR_PREFIX + OldVarName(inner))] else Text(inner, v)
    case Cast(inner, ty) => AsText(Text(inner, v), MapTypeToken(ty))
    case If(c, t, f) =>
      var ts, fs := Text(t, v), Text(f, v);
      var n := Normalises(t, f, ts, fs, v.floats);
      IfText(Text(c, v), BranchText(ts, n), BranchText(fs, n))
    case Let(x, value, body) =>
      var v' := Bind(x, value, v);
      LetText(x, Text(value, v'), Text(body, v'))
    case Binary(op, l, r) =>
      match FormOf(op, l, r, v)
      case ImpliesForm => ImpliesText(Text(l, v), Text(r, v))
      case U128Form => BinaryText(op, AsText(Text(l, v), "u128"), AsText(Text(r, v), "u128"))
      case WidenForm => BinaryText(op, WidenText(Text(l, v)), WidenText(Text(r, v)))
      case PlainForm => BinaryText(op, Text(l, v), Text(r, v))
      case WrapForm(kind) =>
        if Swaps(op, l, r) then WrapText(op, ReceiverText(r, kind, v), ParenthesizeAsCast(Text(l, v)))
        else WrapText(op, ReceiverText(l, kind, v), ParenthesizeAsCast(Text(r, v)))
  }

  function ReceiverText(e: Expr, kind: Kind, v: Vars): (ts: seq<Token>)
    ensures ts != []
    decreases e, 2
  {
    ParenthesizeAsCast(if IsBareLiteral(e) then LiteralReceiver(e, kind) else Text(e, v))
  }

  /** One step of `Text` for a binary operator. */
  lemma TextShape(op: BinOp, l: Expr, r: Expr, v: Vars)
    ensures var ls, rs := Text(l, v), Text(r, v);
      Text(Binary(op, l, r), v) ==
      match FormOf(op, l, r, v)
      case ImpliesForm => ImpliesText(ls, rs)
      case U128Form => BinaryText(op, AsText(ls, "u128"), AsText(rs, "u128"))
      case WidenForm => BinaryText(op, WidenText(ls), WidenText(rs))
      case PlainForm => BinaryText(op, ls, rs)
      case WrapForm(kind) =>
        if Swaps(op, l, r) then WrapText(op, ReceiverText(r, kind, v), ParenthesizeAsCast(ls))
        else WrapText(op, ReceiverText(l, kind, v), ParenthesizeAsCast(rs))
  {
  }

  lemma IfShape(c: Expr, t: Expr, f: Expr, v: Vars)
    ensures var ts, fs := Text(t, v), Text(f, v);
      var n := Normalises(t, f, ts, fs, v.floats);
      Text(If(c, t, f), v) == IfText(Text(c, v), BranchText(ts, n), BranchText(fs, n))
  {
    hide Normalises, BranchText, IfText;
  }

  // ----- The expression the text stands for -----

  function Intended(e: Expr, v: Vars): Tree
    decreases e, 1
  {
    match e
    case Ident(x) => RVar(RustName(x, v.renameResult))
    case IntLit(n) => RNum(n, LitSuffix(n))
    case BoolLit(b) => RTruth(b)
    case FloatLit(d) => RFloat(d)
    case Field(b, f) => RField(Intended(b, v), f)
    case Length(r) => RAs(RMethod0(Intended(r, v), "len"), "u64")
    case Unary(uop, inner) => if uop.Neg? then RNeg(Intended(inner, v)) else RNot(Intended(inner, v))
    case Old(inner) => if v.renameResult then RVar(OLD_VAR_PREFIX + OldVarName(inner)) else Intended(inner, v)
    case Cast(inner, ty) => RAs(Intended(inner, v), MapTypeToken(ty))
    case If(c, t, f) =>
      var n := Normalises(t, f, Text(t, v), Text(f, v), v.floats);
      RIf(Intended(c, v), BranchTree(t, n, v), BranchTree(f, n, v))
    case Let(x, value, body) =>
      var v' := Bind(x, value, v);
      RLet(x, Intended(value, v'), Intended(body, v'))
    case Binary(op, l, r) =>
      match FormOf(op, l, r, v)
      case ImpliesForm => RBin(Or, RNot(Intended(l, v)), Intended(r, v))
      case U128Form => RBin(op, RAs(Intended(l, v), "u128"), RAs(Intended(r, v), "u128"))
      case WidenForm => RBin(op, RWiden(Intended(l, v)), RWiden(Intended(r, v)))
      case PlainForm => RBin(op, Intended(l, v), Intended(r, v))
      case WrapForm(kind) =>
        if Swaps(op, l, r) then RMethod1(ReceiverTree(r, kind, v), WrapMethodName(op), Intended(l, v))
        else RMethod1(ReceiverTree(l, kind, v), WrapMethodName(op), Intended(r, v))
  }

  function BranchTree(e: Expr, normalise: bool, v: Vars): Tree
    decreases e, 2
  {
    if normalise && !HasInnerI128(Text(e, v)) then RWiden(Intended(e, v)) else Intended(e, v)
  }

  function ReceiverTree(e: Expr, kind: Kind, v: Vars): Tree
    decreases e, 2
  {
    if e.IntLit? then RNum(e.n, Some(KindType(kind)))
    else if IsBareLiteral(e) then RNeg(RNum(e.operand.n, Some(KindType(kind))))
    else Intended(e, v)
  }
}
