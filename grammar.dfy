/** The specification of the recursive-descent parser of `codegen.c`, one function per C
    function and one per `for (;;)` loop. The parser reads a token only through its kind,
    its spelling (compared by `equal`), its value and its first byte, so it is specified
    over those views of the token array. A parse threads a `PState`: the token cursor,
    the error flag and the number of arena slots used. */
module Grammar {
  import opened Defines
  import opened Tokens
  import opened Ast

  /** The operator and separator strings the parser passes to `equal` and `skip`. */
  datatype Punct =
    | Plus | Minus | Star | Slash | LParen | RParen | Semicolon
    | Assignment | EqEq | NotEq | Less | LessEq | Greater | GreaterEq

  function Spelling(p: Punct): (s: string)
    ensures 1 <= |s| <= 2 && '\0' !in s
  {
    match p
    case Plus => "+"
    case Minus => "-"
    case Star => "*"
    case Slash => "/"
    case LParen => "("
    case RParen => ")"
    case Semicolon => ";"
    case Assignment => "="
    case EqEq => "=="
    case NotEq => "!="
    case Less => "<"
    case LessEq => "<="
    case Greater => ">"
    case GreaterEq => ">="
  }

  /** The operator a token is spelled as, if any. */
  function SpelledAs(s: string): (r: Option<Punct>)
  {
    if |s| == 1 then OneByteOp(s[0])
    else if |s| == 2 && s[1] == '=' then TwoByteOp(s[0])
    else None
  }

  function OneByteOp(c: char): Option<Punct> {
    match c
    case '+' => Some(Plus)
    case '-' => Some(Minus)
    case '*' => Some(Star)
    case '/' => Some(Slash)
    case '(' => Some(LParen)
    case ')' => Some(RParen)
    case ';' => Some(Semicolon)
    case '=' => Some(Assignment)
    case '<' => Some(Less)
    case '>' => Some(Greater)
    case _ => None
  }

  /** The two-byte operator whose first byte is `c` and whose second is `=`. */
  function TwoByteOp(c: char): Option<Punct> {
    match c
    case '=' => Some(EqEq)
    case '!' => Some(NotEq)
    case '<' => Some(LessEq)
    case '>' => Some(GreaterEq)
    case _ => None
  }

  /** A token is classified as the operator `p` exactly when it is spelled `p`. */
  lemma SpelledAsSpelling(s: string, p: Punct)
    ensures SpelledAs(s) == Some(p) <==> s == Spelling(p)
  {
    if s == Spelling(p) {
      assert |s| == 1 ==> s[0] == Spelling(p)[0];
      assert |s| == 2 ==> s[0] == Spelling(p)[0] && s[1] == Spelling(p)[1];
    }
    if SpelledAs(s) == Some(p) {
      if |s| == 1 {
        assert s == [s[0]];
      } else {
        assert s == [s[0], s[1]];
      }
    }
  }

  /** What the parser sees of a token: its kind, which operator it is spelled as, its
      value and its first byte. */
  datatype Lexeme = Lexeme(kind: TokenKind, op: Option<Punct>, val: int, first: char)

  /** The view of a token of `text`. */
  function ViewOf(text: seq<char>, t: Token): Lexeme
    requires Fits(text, t)
  {
    Lexeme(t.kind, SpelledAs(text[t.loc..t.loc + t.len]), t.val, text[t.loc])
  }

  /** The views of a token array whose tokens all fit `text`. */
  function ViewAll(text: seq<char>, ts: seq<Token>): (ls: seq<Lexeme>)
    requires forall k :: 0 <= k < |ts| ==> Fits(text, ts[k])
    ensures |ls| == |ts| && forall k :: 0 <= k < |ts| ==> ls[k] == ViewOf(text, ts[k])
  {
    seq(|ts|, k requires 0 <= k < |ts| => ViewOf(text, ts[k]))
  }

  /** The lexeme under the cursor; past the array, a cleared slot. */
  function Peek(ls: seq<Lexeme>, pos: nat): Lexeme {
    if pos < |ls| then ls[pos] else Lexeme(Eof, None, 0, '\0')
  }

  /** `equal(CurrentToken(), op)`: the token under the cursor is spelled `op`. */
  predicate Is(ls: seq<Lexeme>, pos: nat, p: Punct) {
    pos < |ls| && ls[pos].op == Some(p)
  }

  /** How many tokens are left: every step that consumes a token makes it smaller. */
  function Measure(ls: seq<Lexeme>, pos: nat): nat {
    if pos < |ls| then |ls| - pos else 0
  }

  datatype PState = PState(pos: nat, err: bool, nodes: nat)

  datatype Parsed = Parsed(node: Node, st: PState)

  /** What every parse does to the state: the cursor never moves back, an error is never
      cleared, arena slots are never given back. */
  predicate Follows(st: PState, st': PState) {
    st.pos <= st'.pos && (st.err ==> st'.err) && st.nodes <= st'.nodes
  }

  function Advance(st: PState): PState { st.(pos := st.pos + 1) }

  function Alloc(st: PState): PState { st.(nodes := st.nodes + 1) }

  /** `new_binary(kind, lhs, rhs)` */
  function Binary(k: NodeKind, l: Node, r: Node): Node { Node(k, l, r, 0, '\0') }

  /** `new_unary(kind, expr)` */
  function Unary(k: NodeKind, e: Node): Node { Node(k, e, Null, 0, '\0') }

  /** A parse built exactly the nodes of its tree (`st` before, `r` after). */
  predicate Built(st: PState, r: Parsed) {
    r.st.nodes == st.nodes + Size(r.node)
  }

  /** A loop added exactly the nodes its tree has beyond the tree `node` it started from. */
  predicate Extended(st: PState, node: Node, r: Parsed) {
    r.st.nodes + Size(node) == st.nodes + Size(r.node)
  }

  /** `skip(op)`: the cursor moves on in any case; a token not spelled `op` is an error. */
  function Skip(ls: seq<Lexeme>, st: PState, op: Punct): (st': PState)
    ensures st'.pos == st.pos + 1 && st'.nodes == st.nodes
    ensures st'.err <==> st.err || !Is(ls, st.pos, op)
  {
    if Is(ls, st.pos, op) then Advance(st) else Advance(st).(err := true)
  }

  /** `expr()` */
  function ParseExpr(ls: seq<Lexeme>, st: PState): (r: Parsed)
    decreases Measure(ls, st.pos), 20
    ensures Follows(st, r.st)
  {
    ParseAssign(ls, st)
  }

  /** `assign()`: right associative. */
  function ParseAssign(ls: seq<Lexeme>, st: PState): (r: Parsed)
    decreases Measure(ls, st.pos), 19
    ensures Follows(st, r.st)
  {
    var l := ParseEquality(ls, st);
    if Is(ls, l.st.pos, Assignment) then
      var rhs := ParseAssign(ls, Advance(l.st));
      Parsed(Binary(Assign, l.node, rhs.node), Alloc(rhs.st))
    else l
  }

  /** `assign()` unfolded: an equality, then, after a `=`, an assignment over it and the
      right-hand side. */
  lemma AssignStep(ls: seq<Lexeme>, st: PState)
    ensures var l := ParseEquality(ls, st);
            l.st.nodes <= ParseAssign(ls, st).st.nodes &&
            (Is(ls, l.st.pos, Assignment) ==>
               var rhs := ParseAssign(ls, Advance(l.st));
               ParseAssign(ls, st) == Parsed(Binary(Assign, l.node, rhs.node), Alloc(rhs.st)) &&
               rhs.st.nodes < ParseAssign(ls, st).st.nodes) &&
            (!Is(ls, l.st.pos, Assignment) ==> ParseAssign(ls, st) == l)
  {
  }

  /** `equality()` */
  function ParseEquality(ls: seq<Lexeme>, st: PState): (r: Parsed)
    decreases Measure(ls, st.pos), 18
    ensures Follows(st, r.st)
  {
    var l := ParseRelational(ls, st);
    EqualityLoop(ls, l.node, l.st)
  }

  /** The operator of the `equality()` loop under the cursor, if any. */
  function EqualityOp(ls: seq<Lexeme>, pos: nat): (k: Option<NodeKind>)
    ensures k == Some(Eq) <==> Is(ls, pos, EqEq)
    ensures k == Some(Ne) <==> Is(ls, pos, NotEq)
    ensures k.Some? ==> k == Some(Eq) || k == Some(Ne)
  {
    if Is(ls, pos, EqEq) then Some(Eq) else if Is(ls, pos, NotEq) then Some(Ne) else None
  }

  /** The loop of `equality()`, from the tree `node` built so far: left associative. */
  function EqualityLoop(ls: seq<Lexeme>, node: Node, st: PState): (r: Parsed)
    decreases Measure(ls, st.pos), 17
    ensures Follows(st, r.st)
  {
    match EqualityOp(ls, st.pos)
    case Some(k) =>
      var rhs := ParseRelational(ls, Advance(st));
      EqualityLoop(ls, Binary(k, node, rhs.node), Alloc(rhs.st))
    case None => Parsed(node, st)
  }

  /** `relational()` */
  function ParseRelational(ls: seq<Lexeme>, st: PState): (r: Parsed)
    decreases Measure(ls, st.pos), 16
    ensures Follows(st, r.st)
  {
    var l := ParseAdd(ls, st);
    RelationalLoop(ls, l.node, l.st)
  }

  /** The operator of the `relational()` loop under the cursor, if any. */
  function RelationalOp(ls: seq<Lexeme>, pos: nat): (k: Option<NodeKind>)
    ensures k == Some(Lt) <==> Is(ls, pos, Less)
    ensures k == Some(Le) <==> Is(ls, pos, LessEq)
    ensures k == Some(Gt) <==> Is(ls, pos, Greater)
    ensures k == Some(Ge) <==> Is(ls, pos, GreaterEq)
    ensures k.Some? ==> k == Some(Lt) || k == Some(Le) || k == Some(Gt) || k == Some(Ge)
  {
    if Is(ls, pos, Less) then Some(Lt)
    else if Is(ls, pos, LessEq) then Some(Le)
    else if Is(ls, pos, Greater) then Some(Gt)
    else if Is(ls, pos, GreaterEq) then Some(Ge)
    else None
  }

  /** The loop of `relational()`. */
  function RelationalLoop(ls: seq<Lexeme>, node: Node, st: PState): (r: Parsed)
    decreases Measure(ls, st.pos), 15
    ensures Follows(st, r.st)
  {
    match RelationalOp(ls, st.pos)
    case Some(k) =>
      var rhs := ParseAdd(ls, Advance(st));
      RelationalLoop(ls, Binary(k, node, rhs.node), Alloc(rhs.st))
    case None => Parsed(node, st)
  }

  /** `add()` */
  function ParseAdd(ls: seq<Lexeme>, st: PState): (r: Parsed)
    decreases Measure(ls, st.pos), 14
    ensures Follows(st, r.st)
  {
    var l := ParseMul(ls, st);
    AddLoop(ls, l.node, l.st)
  }

  /** The operator of the `add()` loop under the cursor, if any. */
  function AddOp(ls: seq<Lexeme>, pos: nat): (k: Option<NodeKind>)
    ensures k == Some(Add) <==> Is(ls, pos, Plus)
    ensures k == Some(Sub) <==> Is(ls, pos, Minus)
    ensures k.Some? ==> k == Some(Add) || k == Some(Sub)
  {
    if Is(ls, pos, Plus) then Some(Add) else if Is(ls, pos, Minus) then Some(Sub) else None
  }

  /** The loop of `add()`. */
  function AddLoop(ls: seq<Lexeme>, node: Node, st: PState): (r: Parsed)
    decreases Measure(ls, st.pos), 13
    ensures Follows(st, r.st)
  {
    match AddOp(ls, st.pos)
    case Some(k) =>
      var rhs := ParseMul(ls, Advance(st));
      AddLoop(ls, Binary(k, node, rhs.node), Alloc(rhs.st))
    case None => Parsed(node, st)
  }

  /** `mul()` */
  function ParseMul(ls: seq<Lexeme>, st: PState): (r: Parsed)
    decreases Measure(ls, st.pos), 12
    ensures Follows(st, r.st)
  {
    var l := ParseUnary(ls, st);
    MulLoop(ls, l.node, l.st)
  }

  /** The operator of the `mul()` loop under the cursor, if any. */
  function MulOp(ls: seq<Lexeme>, pos: nat): (k: Option<NodeKind>)
    ensures k == Some(Mul) <==> Is(ls, pos, Star)
    ensures k == Some(Div) <==> Is(ls, pos, Slash)
    ensures k.Some? ==> k == Some(Mul) || k == Some(Div)
  {
    if Is(ls, pos, Star) then Some(Mul) else if Is(ls, pos, Slash) then Some(Div) else None
  }

  /** The loop of `mul()`. */
  function MulLoop(ls: seq<Lexeme>, node: Node, st: PState): (r: Parsed)
    decreases Measure(ls, st.pos), 11
    ensures Follows(st, r.st)
  {
    match MulOp(ls, st.pos)
    case Some(k) =>
      var rhs := ParseUnary(ls, Advance(st));
      MulLoop(ls, Binary(k, node, rhs.node), Alloc(rhs.st))
    case None => Parsed(node, st)
  }

  /** One round of the loop of `equality()` that finds its operator `k`: the operand
      after it is parsed, then the node over both is taken from the arena. */
  lemma EqualityStep(ls: seq<Lexeme>, node: Node, st: PState, k: NodeKind)
    requires EqualityOp(ls, st.pos) == Some(k)
    ensures var rhs := ParseRelational(ls, Advance(st));
            EqualityLoop(ls, node, st) == EqualityLoop(ls, Binary(k, node, rhs.node), Alloc(rhs.st)) &&
            rhs.st.nodes < EqualityLoop(ls, node, st).st.nodes &&
            st.pos < |ls| && st.pos < rhs.st.pos
  {
  }

  /** One round of the loop of `relational()` that finds its operator `k`: the operand
      after it is parsed, then the node over both is taken from the arena. */
  lemma RelationalStep(ls: seq<Lexeme>, node: Node, st: PState, k: NodeKind)
    requires RelationalOp(ls, st.pos) == Some(k)
    ensures var rhs := ParseAdd(ls, Advance(st));
            RelationalLoop(ls, node, st) == RelationalLoop(ls, Binary(k, node, rhs.node), Alloc(rhs.st)) &&
            rhs.st.nodes < RelationalLoop(ls, node, st).st.nodes &&
            st.pos < |ls| && st.pos < rhs.st.pos
  {
  }

  /** One round of the loop of `add()` that finds its operator `k`: the operand
      after it is parsed, then the node over both is taken from the arena. */
  lemma AddStep(ls: seq<Lexeme>, node: Node, st: PState, k: NodeKind)
    requires AddOp(ls, st.pos) == Some(k)
    ensures var rhs := ParseMul(ls, Advance(st));
            AddLoop(ls, node, st) == AddLoop(ls, Binary(k, node, rhs.node), Alloc(rhs.st)) &&
            rhs.st.nodes < AddLoop(ls, node, st).st.nodes &&
            st.pos < |ls| && st.pos < rhs.st.pos
  {
  }

  /** One round of the loop of `mul()` that finds its operator `k`: the operand
      after it is parsed, then the node over both is taken from the arena. */
  lemma MulStep(ls: seq<Lexeme>, node: Node, st: PState, k: NodeKind)
    requires MulOp(ls, st.pos) == Some(k)
    ensures var rhs := ParseUnary(ls, Advance(st));
            MulLoop(ls, node, st) == MulLoop(ls, Binary(k, node, rhs.node), Alloc(rhs.st)) &&
            rhs.st.nodes < MulLoop(ls, node, st).st.nodes &&
            st.pos < |ls| && st.pos < rhs.st.pos
  {
  }

  /** `unary()`: a `+` is skipped, a `-` becomes a negation node. */
  function ParseUnary(ls: seq<Lexeme>, st: PState): (r: Parsed)
    decreases Measure(ls, st.pos), 10
    ensures Follows(st, r.st)
  {
    if Is(ls, st.pos, Plus) then ParseUnary(ls, Advance(st))
    else if Is(ls, st.pos, Minus) then
      var e := ParseUnary(ls, Advance(st));
      Parsed(Unary(Neg, e.node), Alloc(e.st))
    else ParsePrimary(ls, st)
  }

  /** `primary()`: a parenthesised expression, a number (its `unsigned int` value read as
      an `int`), a variable named by its first byte; anything else is an error and the
      null tree, and the cursor stays. */
  function ParsePrimary(ls: seq<Lexeme>, st: PState): (r: Parsed)
    decreases Measure(ls, st.pos), 9
    ensures Follows(st, r.st)
  {
    var t := Peek(ls, st.pos);
    if Is(ls, st.pos, LParen) then
      var e := ParseExpr(ls, Advance(st));
      Parsed(e.node, Skip(ls, e.st, RParen))
    else if t.kind == TokenKind.Num then
      Parsed(Node(NodeKind.Num, Null, Null, ToI32(t.val), '\0'), Alloc(Advance(st)))
    else if t.kind == Identifier then
      Parsed(Node(Var, Null, Null, 0, t.first), Alloc(Advance(st)))
    else Parsed(Null, st.(err := true))
  }

  /** `new_expr()`: an expression statement and its `;`. */
  function ParseStatement(ls: seq<Lexeme>, st: PState): (r: Parsed)
    ensures Follows(st, r.st) && r.st.pos > st.pos
  {
    var e := ParseExpr(ls, st);
    Parsed(Unary(ExprStmt, e.node), Skip(ls, Alloc(e.st), Semicolon))
  }

  /** The statements of `ParseTokens`, from the list `stmts` built so far: another one while
      the token under the cursor is not the EOF token and no error was seen. */
  function StatementLoop(ls: seq<Lexeme>, stmts: seq<Node>, st: PState): (r: (seq<Node>, PState))
    decreases Measure(ls, st.pos)
    ensures Follows(st, r.1) && |r.0| >= |stmts| && r.0[..|stmts|] == stmts
    ensures !r.1.err ==> Peek(ls, r.1.pos).kind == Eof
  {
    if Peek(ls, st.pos).kind != Eof && !st.err then
      var s := ParseStatement(ls, st);
      StatementLoop(ls, stmts + [s.node], s.st)
    else (stmts, st)
  }

  /** `ParseTokens()`: the cursor goes back to the first token and the error flag is
      cleared, but the arena cursor is not; the statement list when no error was seen,
      `None` (the null pointer) otherwise; and the state it leaves. */
  function ParseProgram(ls: seq<Lexeme>, nodes: nat): (r: (Option<seq<Node>>, PState))
    ensures r.1.nodes >= nodes
    ensures r.0.Some? <==> !r.1.err
    ensures r.0.Some? ==> |r.0.value| >= 1
    ensures r.0.Some? ==> Peek(ls, r.1.pos).kind == Eof
  {
    var h := ParseStatement(ls, PState(0, false, nodes));
    var (stmts, st) := StatementLoop(ls, [h.node], h.st);
    (if st.err then None else Some(stmts), st)
  }
}
