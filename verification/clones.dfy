/** The right-hand sides of snapshot statements: an operand's text and a call of `clone`. */
module Clones {
  import opened Ast
  import opened RustSyntax
  import opened Emitter
  import opened Folder
  import opened Reading
  import opened Snapshots

  const CLONE: seq<Token> := [Dot, Id("clone"), LParen, RParen]

  /** The snapshots are folded without any name's kind. */
  const DEFAULT_VARS := Vars({}, {}, {}, true)

  /** The expression that is cloned, if Rust reads the whole text as a call of `clone`. */
  function Cloned(text: seq<Token>): Option<Tree> {
    match ParseExpr(text)
    case Fail => None
    case Got(t, rest) => if rest == [] && t.RMethod0? && t.name == "clone" then Some(t.recv) else None
  }

  /**
   * Rust reads a clone of the operand's own tree exactly when the operand's text is Rust
   * and no length: `s.len() as u64.clone()` is rejected.
   */
  lemma CloneReadsIff(e: Expr, v: Vars, names: set<string>)
    requires NoShadow(e, names) && Within(v, names)
    ensures Cloned(Fold(e, v).text + CLONE) == if Readable(e, v) && !OpenCast(e, v) then Some(Read(e, v)) else None
  {
    hide Fold, ParseExpr, Text, Read, Readable, OpenCast, NoShadow, Within, CLONE;
    FoldIsText(e, v, names);
    var text := Text(e, v) + CLONE;
    if Readable(e, v) && !OpenCast(e, v) {
      ClosedIsCloned(e, v);
    } else {
      CloneJams(e, v);
      JamsClosed(text, [], RParen);
      assert text + [] == text;
    }
  }

  lemma CloneJams(e: Expr, v: Vars)
    requires !Readable(e, v) || OpenCast(e, v)
    ensures Jams(Text(e, v) + CLONE)
  {
    hide Jams, Readable, OpenCast, Text;
    MemberJams(e, CLONE, v);
  }

  lemma ClosedIsCloned(e: Expr, v: Vars)
    requires Readable(e, v) && !OpenCast(e, v)
    ensures ParseExpr(Text(e, v) + CLONE) == Got(RMethod0(Read(e, v), "clone"), [])
  {
    hide Text, Read, Readable, OpenCast, ParseUnary, PostfixLoop;
    TextReads(e, v);
    var t := RMethod0(Read(e, v), "clone");
    EmptyCall(Read(e, v), "clone", CLONE);
    assert CLONE[4..] == [];
    PostfixStops(t, []);
    assert ParseUnary(Text(e, v) + CLONE) == Got(t, []);
    assert ParseCast(Text(e, v) + CLONE) == Got(t, []);
    assert BinaryLoop(1, t, []) == Got(t, []);
  }

  // ----- Paths -----

  /** The Rust expression for a path: its fields in order, over the variable it starts at. */
  function PathTree(path: Expr): Tree
    requires IsPath(path)
  {
    match path
    case Ident(x) => RVar(if x == "result" then RESULT_VAR else x)
    case Field(base, f) => RField(PathTree(base), f)
  }

  /** The snapshot of every path operand clones that path, with all its fields. */
  lemma PathIsCloned(path: Expr)
    requires IsPath(path)
    ensures Cloned(Fold(path, DEFAULT_VARS).text + CLONE) == Some(PathTree(path))
  {
    hide Fold, Cloned, Read;
    PathIsRead(path);
    CloneReadsIff(path, DEFAULT_VARS, {});
  }

  lemma {:induction false} PathIsRead(path: Expr)
    requires IsPath(path)
    ensures Read(path, DEFAULT_VARS) == PathTree(path) && NoShadow(path, {})
    ensures Readable(path, DEFAULT_VARS) && !OpenCast(path, DEFAULT_VARS)
  {
    if path.Field? { PathIsRead(path.base); }
  }
}
