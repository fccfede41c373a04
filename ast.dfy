/** The syntax tree of `codegen.h`. A `Node` of the arena is a value here: the parser never
    shares a node between two parents and never changes one after building it, so the
    pointers `lhs` and `rhs` become subtrees and the null pointer becomes `Null`. The
    `next` chain of statements is a sequence of `ExprStmt` nodes. */
module Ast {
  import opened Defines

  /** `NodeKind`, with the two kinds the generator also knows, `ND_VAR` and `ND_ASSIGN`. */
  datatype NodeKind = Add | Sub | Mul | Div | Neg | Num | Eq | Ne | Lt | Le | Gt | Ge | ExprStmt | Var | Assign

  /** A node; a field the parser does not set keeps the zero of the cleared arena. */
  datatype Node = Null | Node(kind: NodeKind, lhs: Node, rhs: Node, val: int, name: char)

  /** The kinds the generator turns into one binary instruction. */
  predicate IsBinary(k: NodeKind) {
    match k
    case Add | Sub | Mul | Div | Eq | Ne | Lt | Le | Gt | Ge => true
    case _ => false
  }

  /** The number of arena slots a tree occupies. */
  function Size(n: Node): nat {
    if n.Null? then 0 else 1 + Size(n.lhs) + Size(n.rhs)
  }

  /** The trees the parser builds for an expression it accepts: a number (an `int`), a
      variable, a negation, a binary operation or an assignment, with no null child where
      one is needed and no field set that the parser leaves zero. */
  predicate IsExpr(n: Node) {
    match n
    case Null => false
    case Node(k, l, r, v, c) =>
      match k
      case Num => l.Null? && r.Null? && IsI32(v) && c == '\0'
      case Var => l.Null? && r.Null? && v == 0
      case Neg => IsExpr(l) && r.Null? && v == 0 && c == '\0'
      case ExprStmt => false
      case _ => IsExpr(l) && IsExpr(r) && v == 0 && c == '\0'
  }

  /** An expression statement: an `ND_EXPR` node over an expression. */
  predicate IsStmt(n: Node) {
    n.Node? && n.kind == ExprStmt && IsExpr(n.lhs) && n.rhs.Null? && n.val == 0 && n.name == '\0'
  }
}
