/** A printer for expression trees, independent of the parser: it writes a tree as the
    lexemes the parser reads, with the fewest parentheses the grammar of `codegen.c`
    needs. Each tree has a binding level: 0 for an assignment, 1 for `==` and `!=`, 2 for
    the four comparisons, 3 for `+` and `-`, 4 for `*` and `/`, 5 for a negation and 6 for
    a number or a variable. An operand whose level is below the level its position asks
    for is put in parentheses. The binary levels group to the left, so their right
    operand asks for one level more; `=` groups to the right, so its left operand asks
    for one level more. The printer works on `Tree`, the expressions the parser can
    build, without the null child and the unused fields of an arena `Node`; `ToNode` and
    `FromNode` go between the two. */
module Printer {
  import opened Defines
  import opened Tokens
  import opened Ast
  import opened Grammar

  /** The node kinds of the binary operators. */
  type BinaryKind = k: NodeKind | IsBinary(k) witness Add

  /** An expression as the parser builds it: a number (an `int`), a variable known by its
      first byte, a negation, a binary operation or an assignment. */
  datatype Tree =
    | Number(val: i32)
    | Variable(name: char)
    | Negation(arg: Tree)
    | Operation(kind: BinaryKind, left: Tree, right: Tree)
    | Store(target: Tree, value: Tree)

  /** The arena node of a tree: the parser's leaves, `ND_NEG` over one operand, and a
      binary node over two, with the unused fields zero. */
  function ToNode(t: Tree): Node {
    match t
    case Number(v) => Node(NodeKind.Num, Null, Null, v, '\0')
    case Variable(c) => Node(Var, Null, Null, 0, c)
    case Negation(a) => Unary(Neg, ToNode(a))
    case Operation(k, l, r) => Binary(k, ToNode(l), ToNode(r))
    case Store(l, r) => Binary(Assign, ToNode(l), ToNode(r))
  }

  /** Every tree is an expression node. */
  lemma {:induction false} ToNodeIsExpr(t: Tree)
    ensures IsExpr(ToNode(t))
  {
    match t
    case Number(_) =>
    case Variable(_) =>
    case Negation(a) => ToNodeIsExpr(a);
    case Operation(_, l, r) => ToNodeIsExpr(l); ToNodeIsExpr(r);
    case Store(l, r) => ToNodeIsExpr(l); ToNodeIsExpr(r);
  }

  /** The tree of an expression node: every expression node is the node of a tree. */
  function FromNode(n: Node): (t: Tree)
    requires IsExpr(n)
    ensures ToNode(t) == n
  {
    match n.kind
    case Num => Number(n.val)
    case Var => Variable(n.name)
    case Neg => Negation(FromNode(n.lhs))
    case Assign => Store(FromNode(n.lhs), FromNode(n.rhs))
    case _ => Operation(n.kind, FromNode(n.lhs), FromNode(n.rhs))
  }

  /** The binding level of the nodes of kind `k`. */
  function KindLevel(k: NodeKind): nat {
    match k
    case Assign => 0
    case Eq | Ne => 1
    case Lt | Le | Gt | Ge => 2
    case Add | Sub => 3
    case Mul | Div => 4
    case Neg => 5
    case _ => 6
  }

  function Level(t: Tree): nat {
    match t
    case Number(_) | Variable(_) => 6
    case Negation(_) => 5
    case Operation(k, _, _) => KindLevel(k)
    case Store(_, _) => 0
  }

  /** The level of the rule whose loop looks for the operator `p`; -1 for a punctuator
      no loop looks for. */
  function OpLevel(p: Punct): int {
    match p
    case Assignment => 0
    case EqEq | NotEq => 1
    case Less | LessEq | Greater | GreaterEq => 2
    case Plus | Minus => 3
    case Star | Slash => 4
    case _ => -1
  }

  /** The operator that the parser turns into a node of kind `k`. */
  function OpOf(k: NodeKind): Punct {
    match k
    case Assign => Assignment
    case Eq => EqEq
    case Ne => NotEq
    case Lt => Less
    case Le => LessEq
    case Gt => Greater
    case Ge => GreaterEq
    case Add => Plus
    case Sub => Minus
    case Mul => Star
    case Div => Slash
    case _ => Semicolon
  }

  /** The lexeme of a punctuator. */
  function OpLex(p: Punct): Lexeme {
    Lexeme(Punct, Some(p), 0, Spelling(p)[0])
  }

  /** The `unsigned int` a number token holds for the `int` value `v`. */
  function Unsigned(v: int): int {
    if v < 0 then v + TWO32 else v
  }

  /** The lexeme of a number or a variable: a number token holds the unsigned value
      the lexer reads, a variable is known by its first byte. */
  function Atom(t: Tree): Lexeme
    requires t.Number? || t.Variable?
  {
    if t.Number? then Lexeme(TokenKind.Num, None, Unsigned(t.val), '0')
    else Lexeme(Identifier, None, 0, t.name)
  }

  /** The lexemes of a tree. */
  function Print(t: Tree): (w: seq<Lexeme>)
    ensures |w| >= 1
    decreases t, 0
  {
    match t
    case Number(_) => [Atom(t)]
    case Variable(_) => [Atom(t)]
    case Negation(a) => [OpLex(Minus)] + Wrap(a, 5)
    case Operation(k, l, r) => Wrap(l, KindLevel(k)) + [OpLex(OpOf(k))] + Wrap(r, KindLevel(k) + 1)
    case Store(l, r) => Wrap(l, 1) + [OpLex(Assignment)] + Wrap(r, 0)
  }

  /** The lexemes of `t` in a position that asks for level `l`. */
  function Wrap(t: Tree, l: int): (w: seq<Lexeme>)
    ensures |w| >= 1
    decreases t, 1
  {
    if Level(t) >= l then Print(t) else [OpLex(LParen)] + Print(t) + [OpLex(RParen)]
  }

  /** The loop that takes the operator of a binary kind is the loop of that kind's level. */
  lemma {:induction false} OpLevelOf(k: NodeKind)
    requires IsBinary(k)
    ensures OpLevel(OpOf(k)) == KindLevel(k)
  {
    match k
    case Add => case Sub => case Mul => case Div => case Eq => case Ne =>
    case Lt => case Le => case Gt => case Ge =>
  }

  /** A number or a variable prints as its one lexeme, and its node is a leaf. */
  lemma {:induction false} AtomParts(t: Tree)
    requires Level(t) == 6
    ensures t.Number? || t.Variable?
    ensures Wrap(t, 6) == [Atom(t)]
    ensures t.Number? ==> ToNode(t) == Node(NodeKind.Num, Null, Null, t.val, '\0') && IsI32(t.val)
    ensures t.Variable? ==> ToNode(t) == Node(Var, Null, Null, 0, t.name)
  {
  }

  /** A negation prints as `-` and its operand in a position of level 5. */
  lemma {:induction false} NegParts(t: Tree)
    requires Level(t) == 5
    ensures t.Negation? && ToNode(t) == Unary(Neg, ToNode(t.arg))
    ensures Wrap(t, 5) == [OpLex(Minus)] + Wrap(t.arg, 5)
  {
  }

  /** A binary operation of level 1 to 4 prints as its left operand at its own level, its
      operator, and its right operand one level up. */
  lemma {:induction false} BinaryParts(t: Tree)
    requires 1 <= Level(t) <= 4
    ensures t.Operation? && ToNode(t) == Binary(t.kind, ToNode(t.left), ToNode(t.right))
    ensures KindLevel(t.kind) == Level(t) && OpLevel(OpOf(t.kind)) == Level(t)
    ensures Wrap(t, Level(t)) == Wrap(t.left, Level(t)) + ([OpLex(OpOf(t.kind))] + Wrap(t.right, Level(t) + 1))
  {
    assert t.Operation?;
    OpLevelOf(t.kind);
    assert Wrap(t, Level(t)) == Print(t);
    Regroup(Wrap(t.left, Level(t)), [OpLex(OpOf(t.kind))], Wrap(t.right, Level(t) + 1));
  }

  /** An assignment prints as its target at level 1, `=`, and its right side at level 0. */
  lemma {:induction false} AssignParts(t: Tree)
    requires Level(t) == 0
    ensures t.Store? && ToNode(t) == Binary(Assign, ToNode(t.target), ToNode(t.value))
    ensures Wrap(t, 0) == Wrap(t.target, 1) + ([OpLex(Assignment)] + Wrap(t.value, 0))
  {
    assert Wrap(t, 0) == Print(t);
    Regroup(Wrap(t.target, 1), [OpLex(Assignment)], Wrap(t.value, 0));
  }

  /** Concatenation groups either way. */
  lemma {:induction false} Regroup(a: seq<Lexeme>, b: seq<Lexeme>, c: seq<Lexeme>)
    ensures a + b + c == a + (b + c)
  {
  }

  /** A position of level `l` prints a tree of another level as a position of level `l + 1`
      does: as it is when its level is higher, in parentheses when it is lower. */
  lemma {:induction false} WrapUp(t: Tree, l: int)
    requires Level(t) != l
    ensures Wrap(t, l) == Wrap(t, l + 1)
  {
  }

  /** A tree in parentheses. */
  lemma {:induction false} ParenParts(t: Tree, l: int)
    requires Level(t) < l
    ensures Wrap(t, l) == ([OpLex(LParen)] + Wrap(t, 0)) + [OpLex(RParen)]
  {
  }

  /** The lexemes `w` stand in `ls` from index `p` on, one after the other. */
  predicate At(ls: seq<Lexeme>, p: int, w: seq<Lexeme>)
    decreases |w|
  {
    0 <= p <= |ls| && (|w| == 0 || (p < |ls| && ls[p] == w[0] && At(ls, p + 1, w[1..])))
  }

  /** `At` says that the slice of `ls` from `p` on is `w`. */
  lemma {:induction false} AtSlice(ls: seq<Lexeme>, p: int, w: seq<Lexeme>)
    ensures At(ls, p, w) <==> 0 <= p && p + |w| <= |ls| && ls[p..p + |w|] == w
    decreases |w|
  {
    if |w| > 0 && 0 <= p < |ls| {
      AtSlice(ls, p + 1, w[1..]);
      if p + |w| <= |ls| {
        assert ls[p..p + |w|] == [ls[p]] + ls[p + 1..p + 1 + |w[1..]|];
        assert w == [w[0]] + w[1..];
      }
    }
  }

  /** The lexeme at `q` ends a rule of level `l`: no loop of level `l` or above takes it
      as its operator. */
  predicate Stops(ls: seq<Lexeme>, q: nat, l: int) {
    Peek(ls, q).op.None? || OpLevel(Peek(ls, q).op.value) < l
  }

  /** The state after a rule read `w` with `n` arena slots taken in all. */
  function Moved(st: PState, w: seq<Lexeme>, n: nat): PState {
    PState(st.pos + |w|, st.err, n)
  }

  /** Lexemes standing at `p` split into their parts. */
  lemma {:induction false} AtSplit(ls: seq<Lexeme>, p: int, a: seq<Lexeme>, b: seq<Lexeme>)
    requires At(ls, p, a + b)
    ensures At(ls, p, a) && At(ls, p + |a|, b)
    decreases |a|
  {
    if |a| == 0 {
      assert a + b == b;
    } else {
      assert (a + b)[0] == a[0] && (a + b)[1..] == a[1..] + b;
      AtSplit(ls, p + 1, a[1..], b);
    }
  }

  /** The first of the lexemes standing at `p` is the one under the cursor. */
  lemma {:induction false} AtHead(ls: seq<Lexeme>, p: int, w: seq<Lexeme>)
    requires At(ls, p, w) && |w| >= 1
    ensures p < |ls| && Peek(ls, p) == w[0]
  {
  }

  /** The number lexeme reads back as the value it was printed from. */
  lemma {:induction false} UnsignedReadsBack(v: int)
    requires IsI32(v)
    ensures IsU32(Unsigned(v)) && ToI32(Unsigned(v)) == v
  {
    var u := Unsigned(v);
    assert u % TWO32 == u;
  }
}
