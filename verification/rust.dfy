/**
 * The fragment of Rust that the generator writes: tokens, expression trees, and a
 * parser that follows Rust's precedence. From tightest to loosest: postfix `.`, unary
 * `-` and `!`, `as`, `* / %`, `+ -`, comparisons, `&&`, `||`.
 */
module RustSyntax {
  import opened Ast
  import opened Numeric

  datatype Token =
    | Id(name: string)
    | Num(n: nat, suffix: Option<Ty>)
    | Float(digits: string)
    | Truth(b: bool)
    | Op(op: BinOp)          // `Op(Sub)` is also the unary minus
    | Widen                  // the path `i128::from`
    | LParen | RParen | LBrace | RBrace
    | Dot | Semi | Assign | Bang
    | As | IfKw | ElseKw | LetKw

  /** A Rust expression with its grouping made explicit. */
  datatype Tree =
    | RVar(name: string)
    | RNum(n: nat, suffix: Option<Ty>)
    | RFloat(digits: string)
    | RTruth(b: bool)
    | RField(base: Tree, field: string)
    | RMethod0(recv: Tree, name: string)
    | RMethod1(recv: Tree, name: string, arg: Tree)
    | RWiden(arg: Tree)
    | RNeg(arg: Tree)
    | RNot(arg: Tree)
    | RAs(arg: Tree, ty: string)
    | RBin(op: BinOp, lhs: Tree, rhs: Tree)
    | RIf(cond: Tree, thn: Tree, els: Tree)
    | RLet(name: string, value: Tree, body: Tree)

  function Precedence(op: BinOp): (p: nat)
    ensures 1 <= p <= 5
  {
    match op
    case Or | Implies => 1
    case And => 2
    case Eq | Neq | Lt | Lte | Gt | Gte => 3
    case Add | Sub => 4
    case Mul | Div | Mod => 5
  }

  datatype Parsed = Fail | Got(tree: Tree, rest: seq<Token>)

  predicate Starts(ts: seq<Token>, t: Token) {
    ts != [] && ts[0] == t
  }

  function ParseExpr(ts: seq<Token>): (r: Parsed)
    ensures r.Got? ==> |r.rest| < |ts|
    decreases |ts|, 6
  {
    ParseBinary(1, ts)
  }

  function ParseBinary(min: nat, ts: seq<Token>): (r: Parsed)
    ensures r.Got? ==> |r.rest| < |ts|
    decreases |ts|, 5
  {
    match ParseCast(ts)
    case Fail => Fail
    case Got(lhs, rest) => BinaryLoop(min, lhs, rest)
  }

  function BinaryLoop(min: nat, lhs: Tree, ts: seq<Token>): (r: Parsed)
    ensures r.Got? ==> |r.rest| <= |ts|
    decreases |ts|, 4
  {
    if ts != [] && ts[0].Op? && Precedence(ts[0].op) >= min then
      var op := ts[0].op;
      match ParseBinary(Precedence(op) + 1, ts[1..])
      case Fail => Fail
      case Got(rhs, rest) =>
        // comparison operators do not chain
        if op.IsComparison() && rest != [] && rest[0].Op? && rest[0].op.IsComparison() then Fail
        else BinaryLoop(min, RBin(op, lhs, rhs), rest)
    else
      Got(lhs, ts)
  }

  function ParseCast(ts: seq<Token>): (r: Parsed)
    ensures r.Got? ==> |r.rest| < |ts|
    decreases |ts|, 3
  {
    match ParseUnary(ts)
    case Fail => Fail
    case Got(e, rest) => CastLoop(e, rest)
  }

  function CastLoop(e: Tree, ts: seq<Token>): (r: Parsed)
    ensures r.Got? ==> |r.rest| <= |ts|
    decreases |ts|
  {
    if |ts| >= 2 && ts[0] == As && ts[1].Id? then
      // `as u64 < x` is read as the start of generic arguments
      if Starts(ts[2..], Op(Lt)) then Fail
      else CastLoop(RAs(e, ts[1].name), ts[2..])
    else
      Got(e, ts)
  }

  function ParseUnary(ts: seq<Token>): (r: Parsed)
    ensures r.Got? ==> |r.rest| < |ts|
    decreases |ts|, 2
  {
    if Starts(ts, Op(Sub)) then
      match ParseUnary(ts[1..])
      case Fail => Fail
      case Got(e, rest) => Got(RNeg(e), rest)
    else if Starts(ts, Bang) then
      match ParseUnary(ts[1..])
      case Fail => Fail
      case Got(e, rest) => Got(RNot(e), rest)
    else
      ParsePostfix(ts)
  }

  function ParsePostfix(ts: seq<Token>): (r: Parsed)
    ensures r.Got? ==> |r.rest| < |ts|
    decreases |ts|, 1
  {
    match ParsePrimary(ts)
    case Fail => Fail
    case Got(e, rest) => PostfixLoop(e, rest)
  }

  function PostfixLoop(e: Tree, ts: seq<Token>): (r: Parsed)
    ensures r.Got? ==> |r.rest| <= |ts|
    decreases |ts|, 0
  {
    if Starts(ts, Dot) then
      if |ts| < 2 || !ts[1].Id? then Fail
      else if Starts(ts[2..], LParen) then
        if Starts(ts[3..], RParen) then PostfixLoop(RMethod0(e, ts[1].name), ts[4..])
        else
          match ParseExpr(ts[3..])
          case Fail => Fail
          case Got(arg, rest) =>
            if Starts(rest, RParen) then PostfixLoop(RMethod1(e, ts[1].name, arg), rest[1..]) else Fail
      else PostfixLoop(RField(e, ts[1].name), ts[2..])
    else
      Got(e, ts)
  }

  function ParsePrimary(ts: seq<Token>): (r: Parsed)
    ensures r.Got? ==> |r.rest| < |ts|
    decreases |ts|, 0
  {
    if ts == [] then Fail else
    match ts[0]
    case Id(x) => Got(RVar(x), ts[1..])
    case Num(n, suffix) => Got(RNum(n, suffix), ts[1..])
    case Float(d) => Got(RFloat(d), ts[1..])
    case Truth(b) => Got(RTruth(b), ts[1..])
    case LParen => ParseClosed(ts[1..], RParen)
    case Widen => if Starts(ts[1..], LParen) then Widened(ParseClosed(ts[2..], RParen)) else Fail
    case IfKw => ParseIf(ts[1..])
    case LBrace => ParseLetBlock(ts[1..])
    case _ => Fail
  }

  function Widened(p: Parsed): Parsed {
    match p
    case Fail => Fail
    case Got(e, rest) => Got(RWiden(e), rest)
  }

  /** An expression followed by the token `close`, which is consumed. */
  function ParseClosed(ts: seq<Token>, close: Token): (r: Parsed)
    ensures r.Got? ==> |r.rest| < |ts|
    decreases |ts|, 7
  {
    match ParseExpr(ts)
    case Fail => Fail
    case Got(e, rest) => if Starts(rest, close) then Got(e, rest[1..]) else Fail
  }

  /** `cond { thn } else { els }` */
  function ParseIf(ts: seq<Token>): (r: Parsed)
    ensures r.Got? ==> |r.rest| < |ts|
    decreases |ts|, 8
  {
    match ParseClosed(ts, LBrace)
    case Fail => Fail
    case Got(cond, ts1) =>
      match ParseClosed(ts1, RBrace)
      case Fail => Fail
      case Got(thn, ts2) =>
        if |ts2| < 2 || ts2[0] != ElseKw || ts2[1] != LBrace then Fail else
        match ParseClosed(ts2[2..], RBrace)
        case Fail => Fail
        case Got(els, ts3) => Got(RIf(cond, thn, els), ts3)
  }

  /** `let x = value; body }` */
  function ParseLetBlock(ts: seq<Token>): (r: Parsed)
    ensures r.Got? ==> |r.rest| < |ts|
    decreases |ts|, 8
  {
    if |ts| < 3 || ts[0] != LetKw || !ts[1].Id? || ts[2] != Assign then Fail else
    match ParseClosed(ts[3..], Semi)
    case Fail => Fail
    case Got(value, ts1) =>
      match ParseClosed(ts1, RBrace)
      case Fail => Fail
      case Got(body, ts2) => Got(RLet(ts[1].name, value, body), ts2)
  }
}
