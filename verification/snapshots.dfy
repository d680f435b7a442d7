/** Pre-state snapshots: which `old` operands are collected, and what their variables hold. */
module Snapshots {
  import opened Ast
  import opened RustSyntax
  import opened Emitter

  /** The variable's name, without its prefix, and the operand it is taken of. */
  datatype Snapshot = Snapshot(name: string, operand: Expr)

  predicate Named(out: seq<Snapshot>, name: string) {
    exists i :: 0 <= i < |out| && out[i].name == name
  }

  function AddOnce(out: seq<Snapshot>, inner: Expr): seq<Snapshot> {
    if Named(out, OldVarName(inner)) then out else out + [Snapshot(OldVarName(inner), inner)]
  }

  /** The list `out` after one walk over `e`. */
  function Collect(e: Expr, out: seq<Snapshot>): seq<Snapshot> {
    match e
    case Ident(_) | IntLit(_) | BoolLit(_) | FloatLit(_) => out
    case Old(inner) => Collect(inner, AddOnce(out, inner))
    case Field(b, _) => Collect(b, out)
    case Length(r) => Collect(r, out)
    case Unary(_, inner) => Collect(inner, out)
    case Cast(inner, _) => Collect(inner, out)
    case Binary(_, l, r) => Collect(r, Collect(l, out))
    case If(c, t, f) => Collect(f, Collect(t, Collect(c, out)))
    case Let(_, value, body) => Collect(body, Collect(value, out))
  }

  class OldCollector {
    var out: seq<Snapshot>

    constructor ()
      ensures out == []
    {
      out := [];
    }

    method Walk(e: Expr)
      modifies this
      ensures out == Collect(e, old(out))
      decreases e
    {
      match e {
        case Ident(_) | IntLit(_) | BoolLit(_) | FloatLit(_) =>
        case Old(inner) =>
          var known := false;
          for i := 0 to |out|
            invariant known <==> exists k :: 0 <= k < i && out[k].name == OldVarName(inner)
            invariant out == old(out)
          {
            known := known || out[i].name == OldVarName(inner);
          }
          if !known { out := out + [Snapshot(OldVarName(inner), inner)]; }
          Walk(inner);
        case Field(b, _) => Walk(b);
        case Length(r) => Walk(r);
        case Unary(_, inner) => Walk(inner);
        case Cast(inner, _) => Walk(inner);
        case Binary(_, l, r) => Walk(l); Walk(r);
        case If(c, t, f) => Walk(c); Walk(t); Walk(f);
        case Let(_, value, body) => Walk(value); Walk(body);
      }
    }
  }

  // ----- Every snapshot variable in the text is bound exactly once -----

  ghost predicate DistinctNames(out: seq<Snapshot>) {
    forall i, j :: 0 <= i < j < |out| ==> out[i].name != out[j].name
  }

  /** A walk keeps what is there, adds no duplicate name, and names each snapshot after its operand. */
  lemma {:induction false} CollectExtends(e: Expr, out: seq<Snapshot>)
    ensures out <= Collect(e, out)
    ensures DistinctNames(out) ==> DistinctNames(Collect(e, out))
    decreases e
  {
    match e
    case Ident(_) | IntLit(_) | BoolLit(_) | FloatLit(_) =>
    case Old(inner) => CollectExtends(inner, AddOnce(out, inner));
    case Field(b, _) => CollectExtends(b, out);
    case Length(r) => CollectExtends(r, out);
    case Unary(_, inner) => CollectExtends(inner, out);
    case Cast(inner, _) => CollectExtends(inner, out);
    case Binary(_, l, r) =>
      CollectExtends(l, out);
      CollectExtends(r, Collect(l, out));
    case If(c, t, f) =>
      CollectExtends(c, out);
      CollectExtends(t, Collect(c, out));
      CollectExtends(f, Collect(t, Collect(c, out)));
    case Let(_, value, body) =>
      CollectExtends(value, out);
      CollectExtends(body, Collect(value, out));
  }

  lemma NamedStays(e: Expr, out: seq<Snapshot>, name: string)
    requires Named(out, name)
    ensures Named(Collect(e, out), name)
  {
    CollectExtends(e, out);
    var i :| 0 <= i < |out| && out[i].name == name;
    assert Collect(e, out)[i].name == name;
  }

  /** Names of the snapshots the emitted text reads. */
  function OldNames(e: Expr): set<string> {
    match e
    case Ident(_) | IntLit(_) | BoolLit(_) | FloatLit(_) => {}
    case Old(inner) => {OldVarName(inner)}
    case Field(b, _) => OldNames(b)
    case Length(r) => OldNames(r)
    case Unary(_, inner) => OldNames(inner)
    case Cast(inner, _) => OldNames(inner)
    case Binary(_, l, r) => OldNames(l) + OldNames(r)
    case If(c, t, f) => OldNames(c) + OldNames(t) + OldNames(f)
    case Let(_, value, body) => OldNames(value) + OldNames(body)
  }

  /** The same with the `old`s inside the operands of others. */
  function AllOldNames(e: Expr): set<string> {
    match e
    case Ident(_) | IntLit(_) | BoolLit(_) | FloatLit(_) => {}
    case Old(inner) => {OldVarName(inner)} + AllOldNames(inner)
    case Field(b, _) => AllOldNames(b)
    case Length(r) => AllOldNames(r)
    case Unary(_, inner) => AllOldNames(inner)
    case Cast(inner, _) => AllOldNames(inner)
    case Binary(_, l, r) => AllOldNames(l) + AllOldNames(r)
    case If(c, t, f) => AllOldNames(c) + AllOldNames(t) + AllOldNames(f)
    case Let(_, value, body) => AllOldNames(value) + AllOldNames(body)
  }

  lemma {:induction false} ReadNamesAreOlds(e: Expr)
    ensures OldNames(e) <= AllOldNames(e)
  {
    match e
    case Ident(_) | IntLit(_) | BoolLit(_) | FloatLit(_) | Old(_) =>
    case Field(b, _) => ReadNamesAreOlds(b);
    case Length(r) => ReadNamesAreOlds(r);
    case Unary(_, inner) => ReadNamesAreOlds(inner);
    case Cast(inner, _) => ReadNamesAreOlds(inner);
    case Binary(_, l, r) =>
      ReadNamesAreOlds(l);
      ReadNamesAreOlds(r);
    case If(c, t, f) =>
      ReadNamesAreOlds(c);
      ReadNamesAreOlds(t);
      ReadNamesAreOlds(f);
    case Let(_, value, body) =>
      ReadNamesAreOlds(value);
      ReadNamesAreOlds(body);
  }

  /** Every `old`, nested ones too, has a snapshot of its name. */
  lemma {:induction false} CollectCovers(e: Expr, out: seq<Snapshot>, name: string)
    requires name in AllOldNames(e)
    ensures Named(Collect(e, out), name)
    decreases e
  {
    match e
    case Old(inner) =>
      if name in AllOldNames(inner) { CollectCovers(inner, AddOnce(out, inner), name); }
      else { CollectCovered(inner, out, name); }
    case Field(b, _) => CollectCovers(b, out, name);
    case Length(r) => CollectCovers(r, out, name);
    case Unary(_, inner) => CollectCovers(inner, out, name);
    case Cast(inner, _) => CollectCovers(inner, out, name);
    case Binary(_, l, r) =>
      if name in AllOldNames(r) { CollectCovers(r, Collect(l, out), name); }
      else { CollectCovers(l, out, name); NamedStays(r, Collect(l, out), name); }
    case If(c, t, f) =>
      var o1, o2 := Collect(c, out), Collect(t, Collect(c, out));
      if name in AllOldNames(f) { CollectCovers(f, o2, name); }
      else if name in AllOldNames(t) { CollectCovers(t, o1, name); NamedStays(f, o2, name); }
      else { CollectCovers(c, out, name); NamedStays(t, o1, name); NamedStays(f, o2, name); }
    case Let(_, value, body) =>
      if name in AllOldNames(body) { CollectCovers(body, Collect(value, out), name); }
      else { CollectCovers(value, out, name); NamedStays(body, Collect(value, out), name); }
    case _ =>
  }

  lemma CollectCovered(inner: Expr, out: seq<Snapshot>, name: string)
    requires name == OldVarName(inner)
    ensures Named(Collect(Old(inner), out), name)
  {
    assert Named(AddOnce(out, inner), name) by {
      if !Named(out, name) { assert AddOnce(out, inner)[|out|].name == name; }
    }
    NamedStays(inner, AddOnce(out, inner), name);
  }

  /** No name of the program itself starts like a snapshot variable. */
  predicate NoReservedNames(e: Expr) {
    match e
    case Ident(x) => Unreserved(x)
    case IntLit(_) | BoolLit(_) | FloatLit(_) | Old(_) => true
    case Field(b, f) => Unreserved(f) && NoReservedNames(b)
    case Length(r) => NoReservedNames(r)
    case Unary(_, inner) => NoReservedNames(inner)
    case Cast(inner, ty) => Unreserved(MapTypeToken(ty)) && NoReservedNames(inner)
    case Binary(_, l, r) => NoReservedNames(l) && NoReservedNames(r)
    case If(c, t, f) => NoReservedNames(c) && NoReservedNames(t) && NoReservedNames(f)
    case Let(x, value, body) => Unreserved(x) && NoReservedNames(value) && NoReservedNames(body)
  }

  predicate Unreserved(x: string) { !(OLD_VAR_PREFIX <= x) }

  /** The tokens that are snapshot variables. */
  predicate Reads(ts: seq<Token>, name: string) {
    Id(OLD_VAR_PREFIX + name) in ts
  }

  lemma OwnNames(name: string)
    ensures var x := OLD_VAR_PREFIX + name;
      x != "len" && x != "u64" && x != "u128" && x != "wrapping_add" && x != "wrapping_sub" && x != "wrapping_mul" && x != RESULT_VAR
    ensures OLD_VAR_PREFIX <= OLD_VAR_PREFIX + name
  {
    var x := OLD_VAR_PREFIX + name;
    assert x[0] == '_' && x[9] == 'o';
    assert RESULT_VAR[9] == 'r';
  }

  /** The emitted text reads a snapshot variable exactly when some `old` operand has its name. */
  lemma {:induction false} TextReadsOldNames(e: Expr, v: Vars, name: string)
    requires v.renameResult && NoReservedNames(e)
    ensures Reads(Text(e, v), name) <==> name in OldNames(e)
    decreases e
  {
    hide FormOf, Normalises, HasInnerI128, MapTypeToken;
    OwnNames(name);
    match e
    case Ident(_) | IntLit(_) | BoolLit(_) | FloatLit(_) =>
    case Old(inner) => SamePrefix(OldVarName(inner), name);
    case Field(b, f) => TextReadsOldNames(b, v, name);
    case Length(r) => TextReadsOldNames(r, v, name);
    case Unary(_, inner) => TextReadsOldNames(inner, v, name);
    case Cast(inner, _) => TextReadsOldNames(inner, v, name);
    case If(c, t, f) =>
      TextReadsOldNames(c, v, name);
      TextReadsOldNames(t, v, name);
      TextReadsOldNames(f, v, name);
    case Let(x, value, body) =>
      TextReadsOldNames(value, Bind(x, value, v), name);
      TextReadsOldNames(body, Bind(x, value, v), name);
    case Binary(op, l, r) =>
      TextReadsOldNames(l, v, name);
      TextReadsOldNames(r, v, name);
      BinaryReadsOldNames(op, l, r, v, name);
  }

  lemma SamePrefix(a: string, b: string)
    ensures OLD_VAR_PREFIX + a == OLD_VAR_PREFIX + b <==> a == b
  {
    assert a == (OLD_VAR_PREFIX + a)[|OLD_VAR_PREFIX|..];
    assert b == (OLD_VAR_PREFIX + b)[|OLD_VAR_PREFIX|..];
  }

  lemma BinaryReadsOldNames(op: BinOp, l: Expr, r: Expr, v: Vars, name: string)
    requires v.renameResult
    requires Reads(Text(l, v), name) <==> name in OldNames(l)
    requires Reads(Text(r, v), name) <==> name in OldNames(r)
    ensures Reads(Text(Binary(op, l, r), v), name) <==> name in OldNames(Binary(op, l, r))
  {
    hide FormOf, Swaps, Text, OLD_VAR_PREFIX, ReceiverText, ParenthesizeAsCast, Reads;
    TextShape(op, l, r, v);
    var ls, rs := Text(l, v), Text(r, v);
    match FormOf(op, l, r, v)
    case WrapForm(kind) =>
      ReceiverReadsOldNames(l, kind, v, name);
      ReceiverReadsOldNames(r, kind, v, name);
      WrapReadsOldNames(op, ReceiverText(r, kind, v), ParenthesizeAsCast(ls), name);
      WrapReadsOldNames(op, ReceiverText(l, kind, v), ParenthesizeAsCast(rs), name);
    case _ => FormsReadOldNames(op, ls, rs, name);
  }

  lemma WrapReadsOldNames(op: BinOp, recv: seq<Token>, arg: seq<Token>, name: string)
    requires op.CanWrap()
    ensures Reads(WrapText(op, recv, arg), name) <==> Reads(recv, name) || Reads(arg, name)
  {
    OwnNames(name);
  }

  lemma FormsReadOldNames(op: BinOp, ls: seq<Token>, rs: seq<Token>, name: string)
    ensures Reads(ImpliesText(ls, rs), name) <==> Reads(ls, name) || Reads(rs, name)
    ensures Reads(BinaryText(op, ls, rs), name) <==> Reads(ls, name) || Reads(rs, name)
    ensures Reads(BinaryText(op, WidenText(ls), WidenText(rs)), name) <==> Reads(ls, name) || Reads(rs, name)
    ensures Reads(BinaryText(op, AsText(ls, "u128"), AsText(rs, "u128")), name) <==> Reads(ls, name) || Reads(rs, name)
  {
    OwnNames(name);
  }

  lemma ReceiverReadsOldNames(e: Expr, kind: Kind, v: Vars, name: string)
    requires Reads(Text(e, v), name) <==> name in OldNames(e)
    ensures Reads(ReceiverText(e, kind, v), name) <==> name in OldNames(e)
    ensures Reads(ParenthesizeAsCast(Text(e, v)), name) <==> name in OldNames(e)
  {
  }

  /** Every snapshot variable the text reads is bound by exactly one collected pair. */
  lemma SnapshotsCoverText(e: Expr, v: Vars, name: string)
    requires v.renameResult && NoReservedNames(e) && Reads(Text(e, v), name)
    ensures exists i :: 0 <= i < |Collect(e, [])| && Collect(e, [])[i].name == name
    ensures forall i, j :: 0 <= i < j < |Collect(e, [])| ==> Collect(e, [])[i].name != Collect(e, [])[j].name
  {
    TextReadsOldNames(e, v, name);
    ReadNamesAreOlds(e);
    CollectCovers(e, [], name);
    CollectExtends(e, []);
  }

  // ----- What the snapshot variables hold -----

  /** Operands are names and field paths. */
  predicate IsPath(e: Expr) {
    e.Ident? || (e.Field? && IsPath(e.base))
  }

  predicate PathsOnly(e: Expr) {
    match e
    case Ident(_) | IntLit(_) | BoolLit(_) | FloatLit(_) => true
    case Old(inner) => IsPath(inner)
    case Field(b, _) => PathsOnly(b)
    case Length(r) => PathsOnly(r)
    case Unary(_, inner) => PathsOnly(inner)
    case Cast(inner, _) => PathsOnly(inner)
    case Binary(_, l, r) => PathsOnly(l) && PathsOnly(r)
    case If(c, t, f) => PathsOnly(c) && PathsOnly(t) && PathsOnly(f)
    case Let(_, value, body) => PathsOnly(value) && PathsOnly(body)
  }

  function Operands(e: Expr): set<Expr> {
    match e
    case Ident(_) | IntLit(_) | BoolLit(_) | FloatLit(_) => {}
    case Old(inner) => {inner}
    case Field(b, _) => Operands(b)
    case Length(r) => Operands(r)
    case Unary(_, inner) => Operands(inner)
    case Cast(inner, _) => Operands(inner)
    case Binary(_, l, r) => Operands(l) + Operands(r)
    case If(c, t, f) => Operands(c) + Operands(t) + Operands(f)
    case Let(_, value, body) => Operands(value) + Operands(body)
  }

  lemma {:induction false} PathHasNoOld(e: Expr, out: seq<Snapshot>)
    requires IsPath(e)
    ensures Collect(e, out) == out
  {
    if e.Field? { PathHasNoOld(e.base, out); }
  }

  ghost predicate Faithful(out: seq<Snapshot>, operands: set<Expr>) {
    forall i :: 0 <= i < |out| ==> out[i].operand in operands && out[i].name == OldVarName(out[i].operand)
  }

  /** Only operands of the clause are collected. */
  lemma {:induction false} CollectIsFaithful(e: Expr, out: seq<Snapshot>, operands: set<Expr>)
    requires PathsOnly(e) && Operands(e) <= operands && Faithful(out, operands)
    ensures Faithful(Collect(e, out), operands)
    decreases e
  {
    match e
    case Ident(_) | IntLit(_) | BoolLit(_) | FloatLit(_) =>
    case Old(inner) => PathHasNoOld(inner, AddOnce(out, inner));
    case Field(b, _) => CollectIsFaithful(b, out, operands);
    case Length(r) => CollectIsFaithful(r, out, operands);
    case Unary(_, inner) => CollectIsFaithful(inner, out, operands);
    case Cast(inner, _) => CollectIsFaithful(inner, out, operands);
    case Binary(_, l, r) =>
      CollectIsFaithful(l, out, operands);
      CollectIsFaithful(r, Collect(l, out), operands);
    case If(c, t, f) =>
      CollectIsFaithful(c, out, operands);
      CollectIsFaithful(t, Collect(c, out), operands);
      CollectIsFaithful(f, Collect(t, Collect(c, out)), operands);
    case Let(_, value, body) =>
      CollectIsFaithful(value, out, operands);
      CollectIsFaithful(body, Collect(value, out), operands);
  }

  lemma {:induction false} OperandNames(e: Expr)
    ensures OldNames(e) == set o | o in Operands(e) :: OldVarName(o)
  {
    match e
    case Ident(_) | IntLit(_) | BoolLit(_) | FloatLit(_) | Old(_) =>
    case Field(b, _) => OperandNames(b);
    case Length(r) => OperandNames(r);
    case Unary(_, inner) => OperandNames(inner);
    case Cast(inner, _) => OperandNames(inner);
    case Binary(_, l, r) =>
      OperandNames(l);
      OperandNames(r);
    case If(c, t, f) =>
      OperandNames(c);
      OperandNames(t);
      OperandNames(f);
    case Let(_, value, body) =>
      OperandNames(value);
      OperandNames(body);
  }

  /** One `let` for each pair of each clause in turn; a later `let` shadows an earlier one. */
  function Prologue(clauses: seq<Expr>): seq<Snapshot> {
    if clauses == [] then [] else Collect(clauses[0], []) + Prologue(clauses[1..])
  }

  function Root(path: Expr): string
    requires IsPath(path)
  {
    if path.Ident? then path.name else Root(path.base)
  }

  /** The path starts at one of the names, so it has a value wherever only they are declared. */
  predicate StartsIn(path: Expr, names: set<string>) {
    IsPath(path) && Root(path) in names
  }

  /** The names a `let` at the start of `check` can read: `result` is emitted under another name. */
  function EntryNames(params: set<string>): set<string> { params - {"result"} }

  /**
   * The variables after running the `let`s, when `entry` gives the value of a path on
   * entry; `None` if one of them does not compile.
   */
  function Bindings(out: seq<Snapshot>, params: set<string>, entry: Expr -> int): Option<map<string, int>> {
    if out == [] then Some(map[])
    else
      var last, front := out[|out| - 1], Bindings(out[..|out| - 1], params, entry);
      if front.Some? && StartsIn(last.operand, EntryNames(params))
      then Some(front.value[last.name := entry(last.operand)]) else None
  }

  /** The `old` operands of `e`; each says whether its root denotes a parameter where it stands. */
  function Olds(e: Expr, scope: set<string>): set<(Expr, bool)> {
    match e
    case Ident(_) | IntLit(_) | BoolLit(_) | FloatLit(_) => {}
    case Old(inner) => {(inner, StartsIn(inner, scope))}
    case Field(b, _) => Olds(b, scope)
    case Length(r) => Olds(r, scope)
    case Unary(_, inner) => Olds(inner, scope)
    case Cast(inner, _) => Olds(inner, scope)
    case Binary(_, l, r) => Olds(l, scope) + Olds(r, scope)
    case If(c, t, f) => Olds(c, scope) + Olds(t, scope) + Olds(f, scope)
    case Let(x, value, body) => Olds(value, scope) + Olds(body, scope - {x})
  }

  function AllOlds(clauses: seq<Expr>, scope: set<string>): set<(Expr, bool)> {
    if clauses == [] then {} else Olds(clauses[0], scope) + AllOlds(clauses[1..], scope)
  }

  /** What `old` of the operand means: its value on entry, if its root has one. */
  function PreValue(old': (Expr, bool), entry: Expr -> int): Option<int> {
    if old'.1 then Some(entry(old'.0)) else None
  }

  function AllOperands(clauses: seq<Expr>): set<Expr> {
    if clauses == [] then {} else Operands(clauses[0]) + AllOperands(clauses[1..])
  }

  /** Two different operands never share a snapshot name. */
  ghost predicate NamesInjective(operands: set<Expr>) {
    forall a, b | a in operands && b in operands && OldVarName(a) == OldVarName(b) :: a == b
  }

  /** The prologue compiles, and each `old(o)` reads the entry value of `o` itself. */
  ghost predicate ReadsOwnValues(clauses: seq<Expr>, params: set<string>, entry: Expr -> int) {
    var m := Bindings(Prologue(clauses), params, entry);
    m.Some? && forall o | o in AllOlds(clauses, EntryNames(params)) ::
      OldVarName(o.0) in m.value && PreValue(o, entry) == Some(m.value[OldVarName(o.0)])
  }

  /** Every operand's root is a parameter: not `result`, and not bound by a `let` around it. */
  ghost predicate OldsAtEntry(clauses: seq<Expr>, params: set<string>) {
    forall o | o in AllOlds(clauses, EntryNames(params)) :: o.1
  }

  lemma {:induction false} OldsAreOperands(e: Expr, scope: set<string>, names: set<string>)
    requires scope <= names
    ensures forall o | o in Operands(e) :: (o, true) in Olds(e, scope) || (o, false) in Olds(e, scope)
    ensures forall o | o in Olds(e, scope) :: o.0 in Operands(e) && (o.1 ==> StartsIn(o.0, names))
  {
    match e
    case Ident(_) | IntLit(_) | BoolLit(_) | FloatLit(_) | Old(_) =>
    case Field(b, _) => OldsAreOperands(b, scope, names);
    case Length(r) => OldsAreOperands(r, scope, names);
    case Unary(_, inner) => OldsAreOperands(inner, scope, names);
    case Cast(inner, _) => OldsAreOperands(inner, scope, names);
    case Binary(_, l, r) =>
      OldsAreOperands(l, scope, names);
      OldsAreOperands(r, scope, names);
    case If(c, t, f) =>
      OldsAreOperands(c, scope, names);
      OldsAreOperands(t, scope, names);
      OldsAreOperands(f, scope, names);
    case Let(x, value, body) =>
      OldsAreOperands(value, scope, names);
      OldsAreOperands(body, scope - {x}, names);
  }

  lemma {:induction false} AllOldsAreOperands(clauses: seq<Expr>, scope: set<string>)
    ensures forall o | o in AllOperands(clauses) :: (o, true) in AllOlds(clauses, scope) || (o, false) in AllOlds(clauses, scope)
    ensures forall o | o in AllOlds(clauses, scope) :: o.0 in AllOperands(clauses) && (o.1 ==> StartsIn(o.0, scope))
  {
    if clauses != [] {
      OldsAreOperands(clauses[0], scope, scope);
      AllOldsAreOperands(clauses[1..], scope);
    }
  }

  lemma {:induction false} PrologueIsFaithful(clauses: seq<Expr>, operands: set<Expr>)
    requires forall i :: 0 <= i < |clauses| ==> PathsOnly(clauses[i])
    requires AllOperands(clauses) <= operands
    ensures Faithful(Prologue(clauses), operands)
    ensures forall o | o in AllOperands(clauses) :: Named(Prologue(clauses), OldVarName(o))
  {
    if clauses != [] {
      var first, rest := Collect(clauses[0], []), Prologue(clauses[1..]);
      CollectIsFaithful(clauses[0], [], operands);
      PrologueIsFaithful(clauses[1..], operands);
      forall o | o in AllOperands(clauses) ensures Named(first + rest, OldVarName(o)) {
        if o in Operands(clauses[0]) {
          OperandNames(clauses[0]);
          ReadNamesAreOlds(clauses[0]);
          CollectCovers(clauses[0], [], OldVarName(o));
          var i :| 0 <= i < |first| && first[i].name == OldVarName(o);
          assert (first + rest)[i].name == OldVarName(o);
        } else {
          var i :| 0 <= i < |rest| && rest[i].name == OldVarName(o);
          assert (first + rest)[|first| + i].name == OldVarName(o);
        }
      }
    }
  }

  lemma {:induction false} PrologueCompiles(out: seq<Snapshot>, params: set<string>, entry: Expr -> int)
    requires forall i :: 0 <= i < |out| ==> StartsIn(out[i].operand, EntryNames(params))
    ensures Bindings(out, params, entry).Some?
  {
    if out != [] {
      var front := out[..|out| - 1];
      assert forall i :: 0 <= i < |front| ==> front[i] == out[i];
      PrologueCompiles(front, params, entry);
    }
  }

  /** A variable holds the entry value of some collected operand of its name. */
  lemma {:induction false} BindingHasSource(out: seq<Snapshot>, params: set<string>, entry: Expr -> int, name: string)
    requires Named(out, name) && Bindings(out, params, entry).Some?
    ensures name in Bindings(out, params, entry).value
    ensures exists i :: 0 <= i < |out| && out[i].name == name && Bindings(out, params, entry).value[name] == entry(out[i].operand)
  {
    var front := out[..|out| - 1];
    if out[|out| - 1].name != name {
      var k :| 0 <= k < |out| && out[k].name == name;
      assert front[k].name == name;
      BindingHasSource(front, params, entry, name);
      var i :| 0 <= i < |front| && front[i].name == name && Bindings(front, params, entry).value[name] == entry(front[i].operand);
      assert out[i] == front[i];
    }
  }

  /**
   * Over all `ensures` clauses of a contract: the snapshots compile and every `old`
   * operand reads its own entry value, in every entry state, exactly when every operand
   * starts at a parameter and no two operands share a snapshot name.
   */
  lemma SnapshotsAreFaithfulIff(clauses: seq<Expr>, params: set<string>)
    requires forall i :: 0 <= i < |clauses| ==> PathsOnly(clauses[i])
    ensures OldsAtEntry(clauses, params) && NamesInjective(AllOperands(clauses))
       <==> forall entry :: ReadsOwnValues(clauses, params, entry)
  {
    if OldsAtEntry(clauses, params) {
      if NamesInjective(AllOperands(clauses)) {
        forall entry ensures ReadsOwnValues(clauses, params, entry) { InjectiveReads(clauses, params, entry); }
      } else {
        var a, b :| a in AllOperands(clauses) && b in AllOperands(clauses) && OldVarName(a) == OldVarName(b) && a != b;
        SharedNameMisreads(clauses, params, a, b);
      }
    } else {
      var entry := (x: Expr) => 0;
      assert !ReadsOwnValues(clauses, params, entry);
    }
  }

  lemma InjectiveReads(clauses: seq<Expr>, params: set<string>, entry: Expr -> int)
    requires forall i :: 0 <= i < |clauses| ==> PathsOnly(clauses[i])
    requires OldsAtEntry(clauses, params) && NamesInjective(AllOperands(clauses))
    ensures ReadsOwnValues(clauses, params, entry)
  {
    hide Bindings, Prologue, AllOlds, AllOperands, PathsOnly;
    var operands, out := AllOperands(clauses), Prologue(clauses);
    PrologueIsFaithful(clauses, operands);
    AllOldsAreOperands(clauses, EntryNames(params));
    PrologueCompiles(out, params, entry);
    forall o | o in AllOlds(clauses, EntryNames(params))
      ensures OldVarName(o.0) in Bindings(out, params, entry).value
        && PreValue(o, entry) == Some(Bindings(out, params, entry).value[OldVarName(o.0)])
    {
      BindingHasSource(out, params, entry, OldVarName(o.0));
    }
  }

  lemma SharedNameMisreads(clauses: seq<Expr>, params: set<string>, a: Expr, b: Expr)
    requires a in AllOperands(clauses) && b in AllOperands(clauses) && OldVarName(a) == OldVarName(b) && a != b
    ensures exists entry :: !ReadsOwnValues(clauses, params, entry)
  {
    AllOldsAreOperands(clauses, EntryNames(params));
    var entry := (x: Expr) => if x == a then 0 else 1;
    assert entry(a) != entry(b);
    assert !ReadsOwnValues(clauses, params, entry);
  }

  lemma FaithfulToNothing(out: seq<Snapshot>)
    ensures out != [] ==> !Faithful(out, {})
  {
    if out != [] { assert out[0].operand !in {}; }
  }

  /** `let y = .. in old(y) == y`: the snapshot of `y` stands where no `y` is declared. */
  lemma LetBoundOldIsRejected(y: string, value: Expr, params: set<string>, entry: Expr -> int)
    requires y !in params && PathsOnly(value) && Operands(value) == {}
    ensures Bindings(Prologue([Let(y, value, Binary(Eq, Old(Ident(y)), Ident(y)))]), params, entry) == None
  {
    var clause := Let(y, value, Binary(Eq, Old(Ident(y)), Ident(y)));
    CollectIsFaithful(value, [], {});
    FaithfulToNothing(Collect(value, []));
    var out := [Snapshot(y, Ident(y))];
    assert AddOnce([], Ident(y)) == out;
    assert Collect(Old(Ident(y)), []) == Collect(Ident(y), out) == out;
    assert Collect(clause.body, []) == Collect(Ident(y), Collect(Old(Ident(y)), [])) == out;
    assert [clause][1..] == [] && Prologue([clause]) == out + [];
    assert out[..0] == [];
  }

  /** The snapshot of an `old` comes before those of the `old`s inside its operand, unless its name is taken. */
  lemma OuterComesFirst(inner: Expr, out: seq<Snapshot>)
    requires !Named(out, OldVarName(inner))
    ensures out + [Snapshot(OldVarName(inner), inner)] <= Collect(Old(inner), out)
  {
    CollectExtends(inner, AddOnce(out, inner));
  }

  /** A path none of whose parts contains an underscore. */
  predicate UnderscoreFree(e: Expr) {
    match e
    case Ident(x) => '_' !in x
    case Field(b, f) => UnderscoreFree(b) && '_' !in f
    case _ => false
  }

  lemma LastUnderscore(p: string, f: string, q: string, g: string)
    requires p + "_" + f == q + "_" + g && '_' !in f && '_' !in g
    ensures p == q && f == g
  {
    var s, t := p + "_" + f, q + "_" + g;
    assert s[|p|] == '_' && t[|q|] == '_';
    assert s[..|p|] == p && t[..|q|] == q && s[|p| + 1..] == f && t[|q| + 1..] == g;
  }

  /** Paths without underscores never share a snapshot name. */
  lemma {:induction false} UnderscoreFreeNames(a: Expr, b: Expr)
    requires UnderscoreFree(a) && UnderscoreFree(b) && OldVarName(a) == OldVarName(b)
    ensures a == b
  {
    hide OldVarName;
    FieldHasUnderscore(a);
    FieldHasUnderscore(b);
    if a.Field? && b.Field? {
      LastUnderscore(OldVarName(a.base), a.field, OldVarName(b.base), b.field);
      UnderscoreFreeNames(a.base, b.base);
    }
  }

  lemma FieldHasUnderscore(a: Expr)
    requires UnderscoreFree(a)
    ensures a.Field? <==> '_' in OldVarName(a)
    ensures match a case Ident(x) => OldVarName(a) == x case _ => OldVarName(a) == OldVarName(a.base) + "_" + a.field
  {
    if a.Field? { assert OldVarName(a)[|OldVarName(a.base)|] == '_'; }
  }

  /** Parameters and field paths without underscores are always read at their own entry value. */
  lemma UnderscoreFreeSnapshots(clauses: seq<Expr>, params: set<string>)
    requires forall i :: 0 <= i < |clauses| ==> PathsOnly(clauses[i])
    requires OldsAtEntry(clauses, params) && forall o | o in AllOperands(clauses) :: UnderscoreFree(o)
    ensures forall entry :: ReadsOwnValues(clauses, params, entry)
  {
    forall a, b | a in AllOperands(clauses) && b in AllOperands(clauses) && OldVarName(a) == OldVarName(b) ensures a == b {
      UnderscoreFreeNames(a, b);
    }
    SnapshotsAreFaithfulIff(clauses, params);
  }

  /** `old(a.b)` and `old(a_b)` in one contract read the same variable. */
  lemma FieldNameCollides(a: string, b: string, params: set<string>)
    ensures OldVarName(Field(Ident(a), b)) == OldVarName(Ident(a + "_" + b))
    ensures var clause := Binary(Eq, Old(Field(Ident(a), b)), Old(Ident(a + "_" + b)));
      exists entry :: !ReadsOwnValues([clause], params, entry)
  {
    var x, y := Field(Ident(a), b), Ident(a + "_" + b);
    var clause := Binary(Eq, Old(x), Old(y));
    assert Operands(clause) == Operands(Old(x)) + Operands(Old(y));
    assert AllOperands([clause]) == Operands(clause) + AllOperands([]);
    assert x in AllOperands([clause]) && y in AllOperands([clause]);
    SharedNameMisreads([clause], params, x, y);
  }
}
