/**
 * The expression folder: an object whose three sets of names grow when a `let` is entered
 * and shrink when it is left. `Fold` is what one pass does to any expression and any
 * sets; `FoldIsText` is its meaning when no `let` shadows a name.
 */
module Folder {
  import opened Ast
  import opened RustSyntax
  import opened Emitter

  datatype Folded = Folded(text: seq<Token>, vars: Vars)

  /** Leaving a binder removes its name from the sets it was added to. */
  function Unbind(x: string, value: Expr, atEntry: Vars, v: Vars): Vars {
    var k := MachineKind(value, atEntry);
    v.(floats := if HasFloat(value, atEntry.floats) then v.floats - {x} else v.floats,
       ints := if k == Some(IntKind) then v.ints - {x} else v.ints,
       nats := if k == Some(NatKind) then v.nats - {x} else v.nats)
  }

  /** One pass over `e`, starting from the sets `v`; operands are visited in the folder's order. */
  function Fold(e: Expr, v: Vars): (r: Folded)
    ensures r.text != []
    decreases e, 1
  {
    match e
    case Ident(x) => Folded([Id(RustName(x, v.renameResult))], v)
    case IntLit(n) => Folded([Num(n, LitSuffix(n))], v)
    case BoolLit(b) => Folded([Truth(b)], v)
    case FloatLit(d) => Folded([Float(d)], v)
    case Field(b, f) =>
      var r := Fold(b, v);
      Folded(r.text + [Dot, Id(f)], r.vars)
    case Length(recv) =>
      var r := Fold(recv, v);
      Folded(LengthText(r.text), r.vars)
    case Unary(uop, inner) =>
      var r := Fold(inner, v);
      Folded(UnaryText(uop, r.text), r.vars)
    case Old(inner) => if v.renameResult then Folded([Id(OLD_VAR_PREFIX + OldVarName(inner))], v) else Fold(inner, v)
    case Cast(inner, ty) =>
      var r := Fold(inner, v);
      Folded(AsText(r.text, MapTypeToken(ty)), r.vars)
    case If(c, t, f) =>
      var rt := Fold(t, v);
      var rf := Fold(f, rt.vars);
      var rc := Fold(c, rf.vars);
      var n := Normalises(t, f, rt.text, rf.text, rf.vars.floats);
      Folded(IfText(rc.text, BranchText(rt.text, n), BranchText(rf.text, n)), rc.vars)
    case Let(x, value, body) =>
      var rv := Fold(value, Bind(x, value, v));
      var rb := Fold(body, rv.vars);
      Folded(LetText(x, rv.text, rb.text), Unbind(x, value, v, rb.vars))
    case Binary(op, l, r) =>
      match FormOf(op, l, r, v)
      case WrapForm(kind) =>
        var (recv, arg) := if Swaps(op, l, r) then (r, l) else (l, r);
        var rr := FoldReceiver(recv, kind, v);
        var ra := Fold(arg, rr.vars);
        Folded(WrapText(op, rr.text, ParenthesizeAsCast(ra.text)), ra.vars)
      case form =>
        var rl := Fold(l, v);
        var rr := Fold(r, rl.vars);
        Folded(if form.ImpliesForm? then ImpliesText(rl.text, rr.text)
               else if form.U128Form? then BinaryText(op, AsText(rl.text, "u128"), AsText(rr.text, "u128"))
               else if form.WidenForm? then BinaryText(op, WidenText(rl.text), WidenText(rr.text))
               else BinaryText(op, rl.text, rr.text),
               rr.vars)
  }

  function FoldReceiver(e: Expr, kind: Kind, v: Vars): (r: Folded)
    ensures r.text != []
    decreases e, 2
  {
    if IsBareLiteral(e) then Folded(ParenthesizeAsCast(LiteralReceiver(e, kind)), v)
    else
      var r := Fold(e, v);
      Folded(ParenthesizeAsCast(r.text), r.vars)
  }

  lemma FoldsLet(x: string, value: Expr, body: Expr, v: Vars)
    ensures var rv := Fold(value, Bind(x, value, v));
      var rb := Fold(body, rv.vars);
      Fold(Let(x, value, body), v) == Folded(LetText(x, rv.text, rb.text), Unbind(x, value, v, rb.vars))
  {
    hide Bind, Unbind;
  }

  class RustCodegenFolder {
    var floats: set<string>
    var ints: set<string>
    var nats: set<string>
    const renameResult: bool

    constructor (vars: Vars)
      ensures State() == vars
    {
      floats, ints, nats := vars.floats, vars.ints, vars.nats;
      renameResult := vars.renameResult;
    }

    function State(): Vars
      reads this
    {
      Vars(floats, ints, nats, renameResult)
    }

    method FoldExpr(e: Expr) returns (text: seq<Token>)
      modifies this
      ensures Folded(text, State()) == Fold(e, old(State()))
      decreases e, 3
    {
      match e {
        case Ident(x) => text := [Id(RustName(x, renameResult))];
        case IntLit(n) => text := [Num(n, LitSuffix(n))];
        case BoolLit(b) => text := [Truth(b)];
        case FloatLit(d) => text := [Float(d)];
        case Field(b, f) =>
          text := FoldExpr(b);
          text := text + [Dot, Id(f)];
        case Length(recv) =>
          text := FoldExpr(recv);
          text := LengthText(text);
        case Unary(uop, inner) =>
          text := FoldExpr(inner);
          text := UnaryText(uop, text);
        case Old(inner) =>
          if renameResult {
            text := [Id(OLD_VAR_PREFIX + OldVarName(inner))];
          } else {
            text := FoldExpr(inner);
          }
        case Cast(inner, ty) =>
          text := FoldExpr(inner);
          text := AsText(text, MapTypeToken(ty));
        case If(c, t, f) => text := FoldIf(c, t, f);
        case Let(x, value, body) => text := FoldLet(x, value, body);
        case Binary(op, l, r) => text := FoldBinop(op, l, r);
      }
    }

    method FoldIf(c: Expr, t: Expr, f: Expr) returns (text: seq<Token>)
      modifies this
      ensures Folded(text, State()) == Fold(If(c, t, f), old(State()))
      decreases If(c, t, f), 0
    {
      var ts := FoldExpr(t);
      var fs := FoldExpr(f);
      var n := Normalises(t, f, ts, fs, floats);
      var cs := FoldExpr(c);
      text := IfText(cs, BranchText(ts, n), BranchText(fs, n));
    }

    method FoldLet(x: string, value: Expr, body: Expr) returns (text: seq<Token>)
      modifies this
      ensures Folded(text, State()) == Fold(Let(x, value, body), old(State()))
      decreases Let(x, value, body), 0
    {
      hide Fold, HasFloat, MachineKind;
      FoldsLet(x, value, body, State());
      var bindFloat := HasFloat(value, floats);
      var bindKind := MachineKind(value, State());
      if bindFloat { floats := floats + {x}; }
      if bindKind == Some(IntKind) { ints := ints + {x}; }
      if bindKind == Some(NatKind) { nats := nats + {x}; }
      var vs := FoldExpr(value);
      var bs := FoldExpr(body);
      text := LetText(x, vs, bs);
      if bindFloat { floats := floats - {x}; }
      if bindKind == Some(IntKind) { ints := ints - {x}; }
      if bindKind == Some(NatKind) { nats := nats - {x}; }
    }

    method FoldBinop(op: BinOp, l: Expr, r: Expr) returns (text: seq<Token>)
      modifies this
      ensures Folded(text, State()) == Fold(Binary(op, l, r), old(State()))
      decreases Binary(op, l, r), 0
    {
      var form := FormOf(op, l, r, State());
      if form.WrapForm? {
        var recv, arg := l, r;
        if Swaps(op, l, r) { recv, arg := r, l; }
        var rs := FoldWrappingReceiver(recv, form.kind);
        var args := FoldExpr(arg);
        return WrapText(op, rs, ParenthesizeAsCast(args));
      }
      var ls := FoldExpr(l);
      var rs := FoldExpr(r);
      match form {
        case ImpliesForm => text := ImpliesText(ls, rs);
        case U128Form => text := BinaryText(op, AsText(ls, "u128"), AsText(rs, "u128"));
        case WidenForm => text := BinaryText(op, WidenText(ls), WidenText(rs));
        case PlainForm => text := BinaryText(op, ls, rs);
      }
    }

    method FoldWrappingReceiver(e: Expr, kind: Kind) returns (text: seq<Token>)
      modifies this
      ensures Folded(text, State()) == FoldReceiver(e, kind, old(State()))
      decreases e, 4
    {
      if IsBareLiteral(e) {
        text := LiteralReceiver(e, kind);
      } else {
        text := FoldExpr(e);
      }
      text := ParenthesizeAsCast(text);
    }
  }

  /** The names known from declared types: parameters, then `result` and the output's alias. */
  method NumericVars(inputs: seq<(string, string)>, output: Option<string>, extra: seq<string>, renameResult: bool)
    returns (vars: Vars)
    ensures vars.renameResult == renameResult
    ensures forall x :: x in vars.floats <==> Declared(x, "f32", inputs, output, extra) || Declared(x, "f64", inputs, output, extra)
    ensures forall x :: x in vars.ints <==> Declared(x, "i64", inputs, output, extra)
    ensures forall x :: x in vars.nats <==> Declared(x, "u64", inputs, output, extra)
  {
    vars := Vars({}, {}, {}, renameResult);
    for i := 0 to |inputs|
      invariant vars.renameResult == renameResult
      invariant forall x :: x in vars.floats <==> (x, "f32") in inputs[..i] || (x, "f64") in inputs[..i]
      invariant forall x :: x in vars.ints <==> (x, "i64") in inputs[..i]
      invariant forall x :: x in vars.nats <==> (x, "u64") in inputs[..i]
    {
      var (name, ty) := inputs[i];
      vars := AddTyped(vars, {name}, ty);
      assert inputs[..i + 1] == inputs[..i] + [inputs[i]];
    }
    assert inputs[..|inputs|] == inputs;
    if output.Some? {
      var names := {"result"} + set x | x in extra;
      vars := AddTyped(vars, names, output.value);
    }
  }

  predicate IsFloat(ty: string) { ty == "f64" || ty == "f32" }

  ghost predicate Declared(x: string, ty: string, inputs: seq<(string, string)>, output: Option<string>, extra: seq<string>) {
    (x, ty) in inputs || (output == Some(ty) && (x == "result" || x in extra))
  }

  function AddTyped(v: Vars, names: set<string>, ty: string): Vars {
    if IsFloat(ty) then v.(floats := v.floats + names)
    else if ty == "i64" then v.(ints := v.ints + names)
    else if ty == "u64" then v.(nats := v.nats + names)
    else v
  }

  // ----- Scope discipline -----

  predicate Within(v: Vars, names: set<string>) {
    v.floats <= names && v.ints <= names && v.nats <= names
  }

  /** Every `let` binds a name outside `names` and outside the `let`s around it. */
  predicate NoShadow(e: Expr, names: set<string>) {
    match e
    case Ident(_) | IntLit(_) | BoolLit(_) | FloatLit(_) => true
    case Field(b, _) => NoShadow(b, names)
    case Length(r) => NoShadow(r, names)
    case Unary(_, inner) => NoShadow(inner, names)
    case Old(inner) => NoShadow(inner, names)
    case Cast(inner, _) => NoShadow(inner, names)
    case If(c, t, f) => NoShadow(c, names) && NoShadow(t, names) && NoShadow(f, names)
    case Let(x, value, body) => x !in names && NoShadow(value, names + {x}) && NoShadow(body, names + {x})
    case Binary(_, l, r) => NoShadow(l, names) && NoShadow(r, names)
  }

  /** Without shadowing, a pass writes `Text` and leaves the sets exactly as it found them. */
  lemma {:induction false} FoldIsText(e: Expr, v: Vars, names: set<string>)
    requires NoShadow(e, names) && Within(v, names)
    ensures Fold(e, v) == Folded(Text(e, v), v)
    decreases e, 1
  {
    match e
    case Ident(_) | IntLit(_) | BoolLit(_) | FloatLit(_) =>
    case Field(b, _) => FoldIsText(b, v, names);
    case Length(r) => FoldIsText(r, v, names);
    case Unary(_, inner) => FoldIsText(inner, v, names);
    case Old(inner) => FoldIsText(inner, v, names);
    case Cast(inner, _) => FoldIsText(inner, v, names);
    case If(c, t, f) =>
      FoldIsText(c, v, names);
      FoldIsText(t, v, names);
      FoldIsText(f, v, names);
    case Let(x, value, body) =>
      FoldIsText(value, Bind(x, value, v), names + {x});
      FoldIsText(body, Bind(x, value, v), names + {x});
    case Binary(_, l, r) =>
      FoldIsText(l, v, names);
      FoldIsText(r, v, names);
  }

  /** Inside the body of a `let` the sets are the outer ones plus the binder's own entries. */
  lemma LetBodyScope(x: string, value: Expr, body: Expr, v: Vars, names: set<string>)
    requires NoShadow(Let(x, value, body), names) && Within(v, names)
    ensures Fold(value, Bind(x, value, v)).vars == Bind(x, value, v)
    ensures Unbind(x, value, v, Bind(x, value, v)) == v
  {
    FoldIsText(value, Bind(x, value, v), names + {x});
  }

  /** With or without shadowing, a pass never leaves a new name behind. */
  lemma {:induction false} FoldNeverAdds(e: Expr, v: Vars)
    ensures var v' := Fold(e, v).vars;
      v'.floats <= v.floats && v'.ints <= v.ints && v'.nats <= v.nats && v'.renameResult == v.renameResult
    decreases e, 1
  {
    match e
    case Ident(_) | IntLit(_) | BoolLit(_) | FloatLit(_) =>
    case Field(b, _) => FoldNeverAdds(b, v);
    case Length(r) => FoldNeverAdds(r, v);
    case Unary(_, inner) => FoldNeverAdds(inner, v);
    case Old(inner) => FoldNeverAdds(inner, v);
    case Cast(inner, _) => FoldNeverAdds(inner, v);
    case If(c, t, f) =>
      FoldNeverAdds(t, v);
      FoldNeverAdds(f, Fold(t, v).vars);
      FoldNeverAdds(c, Fold(f, Fold(t, v).vars).vars);
    case Let(x, value, body) =>
      FoldNeverAdds(value, Bind(x, value, v));
      FoldNeverAdds(body, Fold(value, Bind(x, value, v)).vars);
    case Binary(op, l, r) =>
      FoldNeverAdds(l, v);
      FoldNeverAdds(r, v);
      FoldNeverAdds(l, Fold(r, v).vars);
      FoldNeverAdds(r, Fold(l, v).vars);
  }

  /** The binder's name is already in a set that its own value's kind adds it to. */
  predicate Rebinds(x: string, value: Expr, v: Vars) {
    || (HasFloat(value, v.floats) && x in v.floats)
    || (MachineKind(value, v) == Some(IntKind) && x in v.ints)
    || (MachineKind(value, v) == Some(NatKind) && x in v.nats)
  }

  /** A `let` whose parts shadow nothing restores the sets exactly when it rebinds no name. */
  lemma LetRestoresIff(x: string, value: Expr, body: Expr, v: Vars, names: set<string>)
    requires NoShadow(value, names + {x}) && NoShadow(body, names + {x}) && Within(v, names)
    ensures Fold(Let(x, value, body), v).vars == v <==> !Rebinds(x, value, v)
  {
    FoldIsText(value, Bind(x, value, v), names + {x});
    FoldIsText(body, Bind(x, value, v), names + {x});
  }

  /** Whatever its parts do, a rebinding `let` loses the name for everything after it. */
  lemma ShadowingForgets(x: string, value: Expr, body: Expr, v: Vars)
    requires Rebinds(x, value, v)
    ensures Fold(Let(x, value, body), v).vars != v
  {
  }
}
