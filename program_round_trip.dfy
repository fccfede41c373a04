/** Which statement list `ParseTokens` builds. A program printed as its statements, each
    an expression that `Printer` writes followed by `;`, and then the EOF token, is read
    back as one `ND_EXPR` node per statement, over that statement's tree, in order, with
    no error and one arena slot per node. */
module ProgramRoundTrip {
  import opened Defines
  import opened Tokens
  import opened Ast
  import opened Grammar
  import opened Printer
  import opened ParserRoundTrip

  /** The lexemes of a statement list: each tree and its `;`. */
  function PrintStatements(ts: seq<Tree>): (w: seq<Lexeme>)
    ensures |ts| >= 1 ==> |w| >= 2
  {
    if |ts| == 0 then [] else Print(ts[0]) + [OpLex(Semicolon)] + PrintStatements(ts[1..])
  }

  /** The statement nodes the parser is to build for the trees `ts`. */
  function Statements(ts: seq<Tree>): seq<Node> {
    seq(|ts|, i requires 0 <= i < |ts| => Unary(ExprStmt, ToNode(ts[i])))
  }

  /** The arena slots the statements of `ts` take: each tree's nodes and its `ND_EXPR`. */
  function Slots(ts: seq<Tree>): nat {
    if |ts| == 0 then 0 else Size(ToNode(ts[0])) + 1 + Slots(ts[1..])
  }

  /** A printed tree starts with a number, a variable or a punctuator, never with EOF. */
  lemma {:induction false} PrintStartsToken(t: Tree)
    ensures Print(t)[0].kind != Eof
    decreases t
  {
    match t
    case Number(_) =>
    case Variable(_) =>
    case Negation(a) =>
    case Operation(k, l, r) =>
      PrintStartsToken(l);
      assert Print(t)[0] == Wrap(l, KindLevel(k))[0];
    case Store(l, r) =>
      PrintStartsToken(l);
      assert Print(t)[0] == Wrap(l, 1)[0];
  }

  /** `new_expr()` reads a printed tree and its `;` as `ND_EXPR` over the tree, with one
      slot more than the tree's and the error flag as it was. */
  lemma {:induction false} StatementReads(ls: seq<Lexeme>, st: PState, t: Tree)
    requires At(ls, st.pos, Print(t) + [OpLex(Semicolon)])
    ensures ParseStatement(ls, st)
      == Parsed(Unary(ExprStmt, ToNode(t)), PState(st.pos + |Print(t)| + 1, st.err, st.nodes + Size(ToNode(t)) + 1))
  {
    AtSplit(ls, st.pos, Print(t), [OpLex(Semicolon)]);
    AtHead(ls, st.pos + |Print(t)|, [OpLex(Semicolon)]);
    OperatorStops(ls, st.pos + |Print(t)|, Semicolon, 0);
    TreeReads(ls, st, t);
  }

  /** One round of the statement loop: with no error and no EOF token under the cursor,
      the loop reads a statement and goes on with it appended. */
  lemma {:induction false} LoopRound(ls: seq<Lexeme>, stmts: seq<Node>, st: PState, s: Parsed)
    requires !st.err && Peek(ls, st.pos).kind != Eof && ParseStatement(ls, st) == s
    ensures StatementLoop(ls, stmts, st) == StatementLoop(ls, stmts + [s.node], s.st)
  {
  }

  /** The printed statements split into the first statement and the rest. */
  lemma {:induction false} StatementsSplit(ts: seq<Tree>)
    requires |ts| >= 1
    ensures PrintStatements(ts) == (Print(ts[0]) + [OpLex(Semicolon)]) + PrintStatements(ts[1..])
    ensures Statements(ts) == [Unary(ExprStmt, ToNode(ts[0]))] + Statements(ts[1..])
    ensures Slots(ts) == Size(ToNode(ts[0])) + 1 + Slots(ts[1..])
  {
    assert Statements(ts) == [Unary(ExprStmt, ToNode(ts[0]))] + Statements(ts[1..]);
  }

  /** The statement loop, with no error so far, reads each printed statement up to the EOF
      token and appends its `ND_EXPR` node to the list built so far. */
  lemma {:induction false} StatementLoopReads(ls: seq<Lexeme>, stmts: seq<Node>, st: PState, ts: seq<Tree>)
    requires !st.err && At(ls, st.pos, PrintStatements(ts))
    requires Peek(ls, st.pos + |PrintStatements(ts)|).kind == Eof
    ensures StatementLoop(ls, stmts, st)
      == (stmts + Statements(ts), PState(st.pos + |PrintStatements(ts)|, false, st.nodes + Slots(ts)))
    decreases |ts|
  {
    if |ts| == 0 {
      assert stmts + Statements(ts) == stmts;
    } else {
      var t := ts[0];
      var w := Print(t) + [OpLex(Semicolon)];
      StatementsSplit(ts);
      AtSplit(ls, st.pos, w, PrintStatements(ts[1..]));
      AtHead(ls, st.pos, w);
      PrintStartsToken(t);
      StatementReads(ls, st, t);
      var st' := PState(st.pos + |w|, false, st.nodes + Size(ToNode(t)) + 1);
      LoopRound(ls, stmts, st, Parsed(Unary(ExprStmt, ToNode(t)), st'));
      StatementLoopReads(ls, stmts + [Unary(ExprStmt, ToNode(t))], st', ts[1..]);
      assert stmts + [Unary(ExprStmt, ToNode(t))] + Statements(ts[1..]) == stmts + Statements(ts);
    }
  }

  /** `ParseTokens()` reads a program of one or more printed statements followed by EOF as
      the list of their `ND_EXPR` nodes, in order, with no error, the cursor on the EOF
      token and one new arena slot per node. */
  lemma {:induction false} ProgramReads(ls: seq<Lexeme>, nodes: nat, ts: seq<Tree>)
    requires |ts| >= 1 && At(ls, 0, PrintStatements(ts))
    requires Peek(ls, |PrintStatements(ts)|).kind == Eof
    ensures ParseProgram(ls, nodes)
      == (Some(Statements(ts)), PState(|PrintStatements(ts)|, false, nodes + Slots(ts)))
  {
    var st := PState(0, false, nodes);
    var t := ts[0];
    var w := Print(t) + [OpLex(Semicolon)];
    StatementsSplit(ts);
    AtSplit(ls, 0, w, PrintStatements(ts[1..]));
    StatementReads(ls, st, t);
    var st' := PState(|w|, false, nodes + Size(ToNode(t)) + 1);
    StatementLoopReads(ls, [Unary(ExprStmt, ToNode(t))], st', ts[1..]);
  }
}
