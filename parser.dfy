/** The parser of `codegen.c`: its globals (the arena cursor `CurrentNode`, the flag
    `error_parsing`) are the fields of a `Parser`, which moves the token cursor of a `Lexer`
    and reads the tokens `tokenize` left in its array. Each method is proved to compute its
    specification function of `Grammar` on the views of the tokens. The arena is modelled
    by the number of its slots in use; the nodes themselves are values. */
module Parsing {
  import opened Defines
  import opened Tokens
  import opened Tokenizer
  import opened Ast
  import opened Grammar

  /** The number of slots of `AllNodes`. */
  const NodeCapacity: nat := 512

  class Parser {
    /** The token cursor of `tokenize.c`. */
    const lexer: Lexer
    /** The input and the token array as `tokenize` left them; parsing only reads them. */
    const text: seq<char>
    const tokens: seq<Token>
    /** `CurrentNode - AllNodes`: the arena slots handed out so far. */
    var used: nat
    /** `error_parsing` */
    var errorParsing: bool

    /** What the parser sees of the token array, which does not change while it parses. */
    ghost const view: seq<Lexeme>

    /** The token array has its 512 slots, each fitting the text, and `view` is its view. */
    ghost predicate Valid() {
      |tokens| == Capacity && (forall k :: 0 <= k < |tokens| ==> Fits(text, tokens[k])) &&
      view == ViewAll(text, tokens)
    }

    /** The token at slot `k`; a cursor past the array reads a zero token. */
    function Slot(k: nat): Token {
      if k < |tokens| then tokens[k] else ZeroToken
    }

    ghost function State(): PState
      reads this, lexer`current
    {
      PState(lexer.current, errorParsing, used)
    }

    /** The program's initial state: no arena slot used, no error. */
    constructor (l: Lexer)
      requires l.Valid()
      ensures Valid() && lexer == l && used == 0 && !errorParsing
      ensures text == l.text && tokens == l.allTokens[..]
    {
      lexer := l;
      text := l.text;
      tokens := l.allTokens[..];
      view := ViewAll(l.text, l.allTokens[..]);
      used := 0;
      errorParsing := false;
    }

    /** `new_node(kind)`: the next arena slot, cleared, with its kind set. */
    method NewNode(kind: NodeKind) returns (node: Node)
      requires used < NodeCapacity
      modifies this`used
      ensures used == old(used) + 1
      ensures node == Node(kind, Null, Null, 0, '\0')
    {
      node := Node(kind, Null, Null, 0, '\0');
      used := used + 1;
    }

    /** `new_binary(kind, lhs, rhs)` */
    method NewBinary(kind: NodeKind, lhs: Node, rhs: Node) returns (node: Node)
      requires used < NodeCapacity
      modifies this`used
      ensures used == old(used) + 1 && node == Binary(kind, lhs, rhs)
    {
      node := NewNode(kind);
      node := node.(lhs := lhs, rhs := rhs);
    }

    /** `new_unary(kind, expr)` */
    method NewUnary(kind: NodeKind, e: Node) returns (node: Node)
      requires used < NodeCapacity
      modifies this`used
      ensures used == old(used) + 1 && node == Grammar.Unary(kind, e)
    {
      node := NewNode(kind);
      node := node.(lhs := e);
    }

    /** `new_num(val)` */
    method NewNum(v: int) returns (node: Node)
      requires IsI32(v) && used < NodeCapacity
      modifies this`used
      ensures used == old(used) + 1 && node == Node(NodeKind.Num, Null, Null, v, '\0')
    {
      node := NewNode(NodeKind.Num);
      node := node.(val := v);
    }

    /** `new_variable(name)` */
    method NewVariable(name: char) returns (node: Node)
      requires used < NodeCapacity
      modifies this`used
      ensures used == old(used) + 1 && node == Node(Var, Null, Null, 0, name)
    {
      node := NewNode(Var);
      node := node.(name := name);
    }

    /** `equal(tok, op)`: compares the token's bytes with those of `op` and then checks that
        `op` ends there; true exactly when the token is spelled `op`. */
    method Equal(tok: nat, p: Punct) returns (b: bool)
      requires Valid()
      ensures b == Is(view, tok, p)
    {
      var t := Slot(tok);
      assert Fits(text, t) by {
        assert Fits(text, tokens[0]);
      }
      var op := Spelling(p);
      var opz := op + ['\0'];
      var i := 0;
      while i < t.len
        invariant i <= t.len && i <= |op|
        invariant text[t.loc..t.loc + i] == op[..i]
      {
        if text[t.loc + i] != opz[i] {
          assert t.len == |op| ==> text[t.loc..t.loc + t.len][i] != op[i];
          SpelledAsSpelling(text[t.loc..t.loc + t.len], p);
          return false;
        }
        assert text[t.loc..t.loc + i + 1] == text[t.loc..t.loc + i] + [text[t.loc + i]];
        assert op[..i + 1] == op[..i] + [op[i]];
        i := i + 1;
      }
      b := opz[t.len] == '\0';
      assert t.len == |op| ==> op[..i] == op;
      SpelledAsSpelling(text[t.loc..t.loc + t.len], p);
    }

    /** `skip(s)`: an error unless the token under the cursor is spelled `s`; the cursor
        moves on in any case. */
    method Skip(p: Punct)
      requires Valid()
      modifies this`errorParsing, lexer`current
      ensures State() == Grammar.Skip(view, old(State()), p)
    {
      var tok := lexer.CurrentToken();
      var b := Equal(tok, p);
      if !b {
        errorParsing := true;
      }
      var _ := lexer.NextToken();
    }

    /** `expr()` */
    method Expr() returns (node: Node)
      requires Valid() && ParseExpr(view, State()).st.nodes <= NodeCapacity
      modifies this, lexer`current
      ensures Parsed(node, State()) == ParseExpr(view, old(State()))
      decreases Measure(view, lexer.current), 20
    {
      node := Assign();
    }

    /** `assign()` */
    method Assign() returns (node: Node)
      requires Valid() && ParseAssign(view, State()).st.nodes <= NodeCapacity
      modifies this, lexer`current
      ensures Parsed(node, State()) == ParseAssign(view, old(State()))
      decreases Measure(view, lexer.current), 19
    {
      ghost var st := State();
      AssignStep(view, st);
      node := Equality();
      ghost var l := Parsed(node, State());
      assert l == ParseEquality(view, st);
      var tok := lexer.CurrentToken();
      var b := Equal(tok, Assignment);
      if b {
        var _ := lexer.NextToken();
        var rhs := Assign();
        ghost var r := Parsed(rhs, State());
        assert r == ParseAssign(view, Advance(l.st));
        node := NewBinary(NodeKind.Assign, node, rhs);
        assert State() == Alloc(r.st);
      }
    }

    /** The `equal` tests at the head of the loop of `equality()`, in their order: the
        operator found under the cursor, if any. */
    method EqualityOperator(tok: nat) returns (k: Option<NodeKind>)
      requires Valid()
      ensures k == EqualityOp(view, tok)
    {
      var b := Equal(tok, EqEq);
      if b {
        return Some(Eq);
      }
      b := Equal(tok, NotEq);
      if b {
        return Some(Ne);
      }
      return None;
    }

    /** `equality()` */
    method Equality() returns (node: Node)
      requires Valid() && ParseEquality(view, State()).st.nodes <= NodeCapacity
      modifies this, lexer`current
      ensures Parsed(node, State()) == ParseEquality(view, old(State()))
      decreases Measure(view, lexer.current), 18
    {
      ghost var goal := ParseEquality(view, State());
      node := Relational();
      while true
        invariant Valid() && goal.st.nodes <= NodeCapacity
        invariant EqualityLoop(view, node, State()) == goal
        decreases Measure(view, lexer.current)
      {
        var tok := lexer.CurrentToken();
        var kind := EqualityOperator(tok);
        if kind.None? {
          return;
        }
        node := EqualityRound(node, kind.value);
      }
    }

    /** A round of the loop of `equality()` that found the operator `k`: the cursor moves
        past it, the operand after it is parsed and the node over both is built. */
    method EqualityRound(node: Node, k: NodeKind) returns (node': Node)
      requires Valid() && EqualityOp(view, lexer.current) == Some(k)
      requires EqualityLoop(view, node, State()).st.nodes <= NodeCapacity
      modifies this, lexer`current
      ensures EqualityLoop(view, node', State()) == EqualityLoop(view, node, old(State()))
      ensures old(lexer.current) < lexer.current
      decreases Measure(view, lexer.current), 17
    {
      ghost var st := State();
      EqualityStep(view, node, st, k);
      var _ := lexer.NextToken();
      var rhs := Relational();
      ghost var r := Parsed(rhs, State());
      assert r == ParseRelational(view, Advance(st));
      node' := NewBinary(k, node, rhs);
      assert State() == Alloc(r.st);
    }

    /** The `equal` tests at the head of the loop of `relational()`, in their order: the
        operator found under the cursor, if any. */
    method RelationalOperator(tok: nat) returns (k: Option<NodeKind>)
      requires Valid()
      ensures k == RelationalOp(view, tok)
    {
      var b := Equal(tok, Less);
      if b {
        return Some(Lt);
      }
      b := Equal(tok, LessEq);
      if b {
        return Some(Le);
      }
      b := Equal(tok, Greater);
      if b {
        return Some(Gt);
      }
      b := Equal(tok, GreaterEq);
      if b {
        return Some(Ge);
      }
      return None;
    }

    /** `relational()` */
    method Relational() returns (node: Node)
      requires Valid() && ParseRelational(view, State()).st.nodes <= NodeCapacity
      modifies this, lexer`current
      ensures Parsed(node, State()) == ParseRelational(view, old(State()))
      decreases Measure(view, lexer.current), 16
    {
      ghost var goal := ParseRelational(view, State());
      node := Add();
      while true
        invariant Valid() && goal.st.nodes <= NodeCapacity
        invariant RelationalLoop(view, node, State()) == goal
        decreases Measure(view, lexer.current)
      {
        var tok := lexer.CurrentToken();
        var kind := RelationalOperator(tok);
        if kind.None? {
          return;
        }
        node := RelationalRound(node, kind.value);
      }
    }

    /** A round of the loop of `relational()` that found the operator `k`: the cursor moves
        past it, the operand after it is parsed and the node over both is built. */
    method RelationalRound(node: Node, k: NodeKind) returns (node': Node)
      requires Valid() && RelationalOp(view, lexer.current) == Some(k)
      requires RelationalLoop(view, node, State()).st.nodes <= NodeCapacity
      modifies this, lexer`current
      ensures RelationalLoop(view, node', State()) == RelationalLoop(view, node, old(State()))
      ensures old(lexer.current) < lexer.current
      decreases Measure(view, lexer.current), 15
    {
      ghost var st := State();
      RelationalStep(view, node, st, k);
      var _ := lexer.NextToken();
      var rhs := Add();
      ghost var r := Parsed(rhs, State());
      assert r == ParseAdd(view, Advance(st));
      node' := NewBinary(k, node, rhs);
      assert State() == Alloc(r.st);
    }

    /** The `equal` tests at the head of the loop of `add()`, in their order: the
        operator found under the cursor, if any. */
    method AddOperator(tok: nat) returns (k: Option<NodeKind>)
      requires Valid()
      ensures k == AddOp(view, tok)
    {
      var b := Equal(tok, Plus);
      if b {
        return Some(NodeKind.Add);
      }
      b := Equal(tok, Minus);
      if b {
        return Some(Sub);
      }
      return None;
    }

    /** `add()` */
    method Add() returns (node: Node)
      requires Valid() && ParseAdd(view, State()).st.nodes <= NodeCapacity
      modifies this, lexer`current
      ensures Parsed(node, State()) == ParseAdd(view, old(State()))
      decreases Measure(view, lexer.current), 14
    {
      ghost var goal := ParseAdd(view, State());
      node := Mul();
      while true
        invariant Valid() && goal.st.nodes <= NodeCapacity
        invariant AddLoop(view, node, State()) == goal
        decreases Measure(view, lexer.current)
      {
        var tok := lexer.CurrentToken();
        var kind := AddOperator(tok);
        if kind.None? {
          return;
        }
        node := AddRound(node, kind.value);
      }
    }

    /** A round of the loop of `add()` that found the operator `k`: the cursor moves
        past it, the operand after it is parsed and the node over both is built. */
    method AddRound(node: Node, k: NodeKind) returns (node': Node)
      requires Valid() && AddOp(view, lexer.current) == Some(k)
      requires AddLoop(view, node, State()).st.nodes <= NodeCapacity
      modifies this, lexer`current
      ensures AddLoop(view, node', State()) == AddLoop(view, node, old(State()))
      ensures old(lexer.current) < lexer.current
      decreases Measure(view, lexer.current), 13
    {
      ghost var st := State();
      AddStep(view, node, st, k);
      var _ := lexer.NextToken();
      var rhs := Mul();
      ghost var r := Parsed(rhs, State());
      assert r == ParseMul(view, Advance(st));
      node' := NewBinary(k, node, rhs);
      assert State() == Alloc(r.st);
    }

    /** The `equal` tests at the head of the loop of `mul()`, in their order: the
        operator found under the cursor, if any. */
    method MulOperator(tok: nat) returns (k: Option<NodeKind>)
      requires Valid()
      ensures k == MulOp(view, tok)
    {
      var b := Equal(tok, Star);
      if b {
        return Some(NodeKind.Mul);
      }
      b := Equal(tok, Slash);
      if b {
        return Some(Div);
      }
      return None;
    }

    /** `mul()` */
    method Mul() returns (node: Node)
      requires Valid() && ParseMul(view, State()).st.nodes <= NodeCapacity
      modifies this, lexer`current
      ensures Parsed(node, State()) == ParseMul(view, old(State()))
      decreases Measure(view, lexer.current), 12
    {
      ghost var goal := ParseMul(view, State());
      node := Unary();
      while true
        invariant Valid() && goal.st.nodes <= NodeCapacity
        invariant MulLoop(view, node, State()) == goal
        decreases Measure(view, lexer.current)
      {
        var tok := lexer.CurrentToken();
        var kind := MulOperator(tok);
        if kind.None? {
          return;
        }
        node := MulRound(node, kind.value);
      }
    }

    /** A round of the loop of `mul()` that found the operator `k`: the cursor moves
        past it, the operand after it is parsed and the node over both is built. */
    method MulRound(node: Node, k: NodeKind) returns (node': Node)
      requires Valid() && MulOp(view, lexer.current) == Some(k)
      requires MulLoop(view, node, State()).st.nodes <= NodeCapacity
      modifies this, lexer`current
      ensures MulLoop(view, node', State()) == MulLoop(view, node, old(State()))
      ensures old(lexer.current) < lexer.current
      decreases Measure(view, lexer.current), 11
    {
      ghost var st := State();
      MulStep(view, node, st, k);
      var _ := lexer.NextToken();
      var rhs := Unary();
      ghost var r := Parsed(rhs, State());
      assert r == ParseUnary(view, Advance(st));
      node' := NewBinary(k, node, rhs);
      assert State() == Alloc(r.st);
    }

    /** `unary()` */
    method Unary() returns (node: Node)
      requires Valid() && ParseUnary(view, State()).st.nodes <= NodeCapacity
      modifies this, lexer`current
      ensures Parsed(node, State()) == ParseUnary(view, old(State()))
      decreases Measure(view, lexer.current), 10
    {
      var tok := lexer.CurrentToken();
      var b := Equal(tok, Plus);
      if b {
        var _ := lexer.NextToken();
        node := Unary();
        return;
      }
      b := Equal(tok, Minus);
      if b {
        var _ := lexer.NextToken();
        var e := Unary();
        node := NewUnary(Neg, e);
        return;
      }
      node := Primary();
    }

    /** `primary()` */
    method Primary() returns (node: Node)
      requires Valid() && ParsePrimary(view, State()).st.nodes <= NodeCapacity
      modifies this, lexer`current
      ensures Parsed(node, State()) == ParsePrimary(view, old(State()))
      decreases Measure(view, lexer.current), 9
    {
      var tok := lexer.CurrentToken();
      var b := Equal(tok, LParen);
      if b {
        var _ := lexer.NextToken();
        node := Expr();
        Skip(RParen);
        return;
      }
      var t := Slot(tok);
      assert Fits(text, t) by {
        assert Fits(text, tokens[0]);
      }
      if t.kind == TokenKind.Num {
        node := NewNum(ToI32(t.val));
        var _ := lexer.NextToken();
        return;
      }
      if t.kind == Identifier {
        node := NewVariable(text[t.loc]);
        var _ := lexer.NextToken();
        return;
      }
      errorParsing := true;
      node := Null;
    }

    /** `new_expr()` */
    method NewExpr() returns (node: Node)
      requires Valid() && ParseStatement(view, State()).st.nodes <= NodeCapacity
      modifies this, lexer`current
      ensures Parsed(node, State()) == ParseStatement(view, old(State()))
    {
      var e := Expr();
      node := NewUnary(ExprStmt, e);
      Skip(Semicolon);
    }

    /** `ParseTokens()`: the statement list, linked through `next` in C, or `None` (the null
        pointer) after an error. The arena is cleared, but `CurrentNode` is not moved back. */
    method ParseTokens() returns (head: Option<seq<Node>>)
      requires Valid() && ParseProgram(view, used).1.nodes <= NodeCapacity
      modifies this, lexer`current
      ensures (head, State()) == ParseProgram(view, old(used))
    {
      lexer.ResetCurrentToken();
      errorParsing := false;
      var first := NewExpr();
      ghost var st1 := State();
      var list := [first];
      while Slot(lexer.current).kind != Eof && !errorParsing
        invariant Valid()
        invariant StatementLoop(view, list, State()) == StatementLoop(view, [first], st1)
        decreases Measure(view, lexer.current)
      {
        var next := NewExpr();
        list := list + [next];
      }
      head := if errorParsing then None else Some(list);
    }
  }
}
