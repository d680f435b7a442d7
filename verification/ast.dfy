/** The part of the contract language that the code generator compiles, and small shared types. */
module Ast {

  datatype Option<+T> = None | Some(value: T)

  datatype BinOp =
    | Add | Sub | Mul | Div | Mod
    | Eq | Neq | Lt | Lte | Gt | Gte
    | And | Or | Implies
  {
    predicate IsArithmetic() { Add? || Sub? || Mul? || Div? || Mod? }

    predicate IsComparison() { Eq? || Neq? || Lt? || Lte? || Gt? || Gte? }

    /** Operators that have a `wrapping_*` method. */
    predicate CanWrap() { Add? || Sub? || Mul? }

    predicate Commutes() { Add? || Mul? }
  }

  datatype UnaryOp = Neg | Not

  datatype Expr =
    | Ident(name: string)
    | IntLit(n: nat)
    | BoolLit(b: bool)
    | FloatLit(digits: string)
    | Field(base: Expr, field: string)
    | Length(receiver: Expr)
    | Binary(op: BinOp, lhs: Expr, rhs: Expr)
    | Unary(uop: UnaryOp, operand: Expr)
    | Old(inner: Expr)
    | If(cond: Expr, thn: Expr, els: Expr)
    | Cast(operand: Expr, ty: string)
    | Let(name: string, value: Expr, body: Expr)

  datatype ClauseKind = Requires | Ensures | Invariant | OtherKind

  datatype Clause = Clause(kind: ClauseKind, body: Expr)

  /** True when `part` occurs somewhere in `whole`. */
  predicate Contains(whole: string, part: string) {
    part <= whole || (whole != [] && Contains(whole[1..], part))
  }
}
