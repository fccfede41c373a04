/** What the parse functions of `Grammar` promise about the trees they build: each parse
    takes exactly the arena slots of its tree, and a parse that flags no error builds a
    well-formed expression (a statement, a list of statements). The lemmas follow the
    mutual recursion of the parse functions. */
module ParserProperties {
  import opened Defines
  import opened Tokens
  import opened Ast
  import opened Grammar

  /** What a rule promises: it took exactly its tree's slots, and without an error the tree
      is an expression. */
  predicate Shaped(st: PState, r: Parsed) {
    Built(st, r) && (!r.st.err ==> IsExpr(r.node))
  }

  /** What a fold loop promises, from the tree `node` it started with. */
  predicate LoopShaped(st: PState, node: Node, r: Parsed) {
    Extended(st, node, r) && (!r.st.err && IsExpr(node) ==> IsExpr(r.node))
  }

  lemma {:induction false} ExprShaped(ls: seq<Lexeme>, st: PState)
    ensures Shaped(st, ParseExpr(ls, st))
    decreases Measure(ls, st.pos), 20
  {
    AssignShaped(ls, st);
  }

  lemma {:induction false} AssignShaped(ls: seq<Lexeme>, st: PState)
    ensures Shaped(st, ParseAssign(ls, st))
    decreases Measure(ls, st.pos), 19
  {
    var l := ParseEquality(ls, st);
    EqualityShaped(ls, st);
    if Is(ls, l.st.pos, Assignment) {
      AssignShaped(ls, Advance(l.st));
    }
  }

  lemma {:induction false} EqualityShaped(ls: seq<Lexeme>, st: PState)
    ensures Shaped(st, ParseEquality(ls, st))
    decreases Measure(ls, st.pos), 18
  {
    var l := ParseRelational(ls, st);
    RelationalShaped(ls, st);
    EqualityLoopShaped(ls, l.node, l.st);
  }

  lemma {:induction false} EqualityLoopShaped(ls: seq<Lexeme>, node: Node, st: PState)
    ensures LoopShaped(st, node, EqualityLoop(ls, node, st))
    decreases Measure(ls, st.pos), 17
  {
    match EqualityOp(ls, st.pos)
    case Some(k) =>
      var rhs := ParseRelational(ls, Advance(st));
      RelationalShaped(ls, Advance(st));
      EqualityLoopShaped(ls, Binary(k, node, rhs.node), Alloc(rhs.st));
    case None =>
  }

  lemma {:induction false} RelationalShaped(ls: seq<Lexeme>, st: PState)
    ensures Shaped(st, ParseRelational(ls, st))
    decreases Measure(ls, st.pos), 16
  {
    var l := ParseAdd(ls, st);
    AddShaped(ls, st);
    RelationalLoopShaped(ls, l.node, l.st);
  }

  lemma {:induction false} RelationalLoopShaped(ls: seq<Lexeme>, node: Node, st: PState)
    ensures LoopShaped(st, node, RelationalLoop(ls, node, st))
    decreases Measure(ls, st.pos), 15
  {
    match RelationalOp(ls, st.pos)
    case Some(k) =>
      var rhs := ParseAdd(ls, Advance(st));
      AddShaped(ls, Advance(st));
      RelationalLoopShaped(ls, Binary(k, node, rhs.node), Alloc(rhs.st));
    case None =>
  }

  lemma {:induction false} AddShaped(ls: seq<Lexeme>, st: PState)
    ensures Shaped(st, ParseAdd(ls, st))
    decreases Measure(ls, st.pos), 14
  {
    var l := ParseMul(ls, st);
    MulShaped(ls, st);
    AddLoopShaped(ls, l.node, l.st);
  }

  lemma {:induction false} AddLoopShaped(ls: seq<Lexeme>, node: Node, st: PState)
    ensures LoopShaped(st, node, AddLoop(ls, node, st))
    decreases Measure(ls, st.pos), 13
  {
    match AddOp(ls, st.pos)
    case Some(k) =>
      var rhs := ParseMul(ls, Advance(st));
      MulShaped(ls, Advance(st));
      AddLoopShaped(ls, Binary(k, node, rhs.node), Alloc(rhs.st));
    case None =>
  }

  lemma {:induction false} MulShaped(ls: seq<Lexeme>, st: PState)
    ensures Shaped(st, ParseMul(ls, st))
    decreases Measure(ls, st.pos), 12
  {
    var l := ParseUnary(ls, st);
    UnaryShaped(ls, st);
    MulLoopShaped(ls, l.node, l.st);
  }

  lemma {:induction false} MulLoopShaped(ls: seq<Lexeme>, node: Node, st: PState)
    ensures LoopShaped(st, node, MulLoop(ls, node, st))
    decreases Measure(ls, st.pos), 11
  {
    match MulOp(ls, st.pos)
    case Some(k) =>
      var rhs := ParseUnary(ls, Advance(st));
      UnaryShaped(ls, Advance(st));
      MulLoopShaped(ls, Binary(k, node, rhs.node), Alloc(rhs.st));
    case None =>
  }

  lemma {:induction false} UnaryShaped(ls: seq<Lexeme>, st: PState)
    ensures Shaped(st, ParseUnary(ls, st))
    decreases Measure(ls, st.pos), 10
  {
    if Is(ls, st.pos, Plus) {
      UnaryShaped(ls, Advance(st));
    } else if Is(ls, st.pos, Minus) {
      var e := ParseUnary(ls, Advance(st));
      UnaryShaped(ls, Advance(st));
      assert Size(Unary(Neg, e.node)) == 1 + Size(e.node);
    } else {
      PrimaryShaped(ls, st);
    }
  }

  lemma {:induction false} PrimaryShaped(ls: seq<Lexeme>, st: PState)
    ensures Shaped(st, ParsePrimary(ls, st))
    decreases Measure(ls, st.pos), 9
  {
    if Is(ls, st.pos, LParen) {
      ExprShaped(ls, Advance(st));
    } else {
      assert Size(Null) == 0;
      assert forall v, c :: Size(Node(NodeKind.Num, Null, Null, v, c)) == 1 && Size(Node(Var, Null, Null, v, c)) == 1;
    }
  }

  /** `new_expr()` takes the slots of its expression and one more, and without an error
      builds an `ND_EXPR` statement. */
  lemma StatementShaped(ls: seq<Lexeme>, st: PState)
    ensures var r := ParseStatement(ls, st);
            Built(st, r) && (!r.st.err ==> IsStmt(r.node))
  {
    ExprShaped(ls, st);
  }

  /** Without an error, every statement the loop of `ParseTokens` adds is an `ND_EXPR`
      statement. */
  lemma {:induction false} StatementsShaped(ls: seq<Lexeme>, stmts: seq<Node>, st: PState)
    ensures var r := StatementLoop(ls, stmts, st);
            !r.1.err ==> forall k :: |stmts| <= k < |r.0| ==> IsStmt(r.0[k])
    decreases Measure(ls, st.pos)
  {
    if Peek(ls, st.pos).kind != Eof && !st.err {
      var s := ParseStatement(ls, st);
      StatementShaped(ls, st);
      StatementsShaped(ls, stmts + [s.node], s.st);
    }
  }

  /** Without an error, every node of the list `ParseTokens` returns is an `ND_EXPR`
      statement. */
  lemma ProgramShaped(ls: seq<Lexeme>, nodes: nat)
    ensures var r := ParseProgram(ls, nodes);
            r.0.Some? ==> forall k :: 0 <= k < |r.0.value| ==> IsStmt(r.0.value[k])
  {
    var h := ParseStatement(ls, PState(0, false, nodes));
    StatementShaped(ls, PState(0, false, nodes));
    StatementsShaped(ls, [h.node], h.st);
    var (stmts, st) := StatementLoop(ls, [h.node], h.st);
    if !st.err {
      assert stmts[..1] == [h.node];
      forall k | 0 <= k < |stmts|
        ensures IsStmt(stmts[k])
      {
        if k == 0 {
          assert stmts[0] == h.node;
        }
      }
    }
  }
}
