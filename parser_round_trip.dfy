/** Which tree each parse function of `Grammar` builds. Each rule reads the lexemes of a
    tree that `Printer` writes back as that very tree: numbers and variables become
    leaves, parentheses and unary `+` add no node, `-` adds one negation, the binary
    levels fold to the left, `=` folds to the right, and `*` `/` bind tighter than `+` `-`,
    which bind tighter than the comparisons, which bind tighter than `==` `!=`, which bind
    tighter than `=`. A rule of level `l` reads a tree printed for a position of level
    `l`; it stops at the lexeme after it when no loop of level `l` or above takes that
    lexeme. The lemmas follow the mutual recursion of the parse functions; each names, as
    `n`, the arena slots taken in all when the rule returns, and `TreeReads` shows that
    they are the slots of the tree. */
module ParserRoundTrip {
  import opened Defines
  import opened Tokens
  import opened Ast
  import opened Grammar
  import opened Printer
  import opened ParserProperties

  /** A binary operator standing between two printed operands: the parts stand in their
      places and the operator is the lexeme under the cursor after the left operand. */
  lemma {:induction false} OperatorAt(ls: seq<Lexeme>, p: int, wl: seq<Lexeme>, o: Punct, wr: seq<Lexeme>)
    requires At(ls, p, wl + ([OpLex(o)] + wr))
    ensures At(ls, p, wl) && At(ls, p + |wl|, [OpLex(o)] + wr)
    ensures p + |wl| < |ls| && Peek(ls, p + |wl|) == OpLex(o)
  {
    AtSplit(ls, p, wl, [OpLex(o)] + wr);
    AtHead(ls, p + |wl|, [OpLex(o)] + wr);
  }

  /** A printed binary operation of level `l` split into its left operand, its operator
      and its right operand, as the rule of level `l` meets them; `n` is the next level. */
  lemma {:induction false} BinarySplit(ls: seq<Lexeme>, p: nat, t: Tree, l: int, n: int)
    requires 1 <= l <= 4 && n == l + 1 && Level(t) == l && At(ls, p, Wrap(t, l))
    ensures t.Operation? && ToNode(t) == Binary(t.kind, ToNode(t.left), ToNode(t.right))
    ensures KindLevel(t.kind) == l
    ensures |Wrap(t, l)| == |Wrap(t.left, l)| + 1 + |Wrap(t.right, n)|
    ensures At(ls, p, Wrap(t.left, l)) && Stops(ls, p + |Wrap(t.left, l)|, n)
    ensures At(ls, p + |Wrap(t.left, l)|, [OpLex(OpOf(t.kind))] + Wrap(t.right, n))
  {
    BinaryParts(t);
    assert Level(t) + 1 == n;
    OperatorAt(ls, p, Wrap(t.left, l), OpOf(t.kind), Wrap(t.right, n));
    OperatorStops(ls, p + |Wrap(t.left, l)|, OpOf(t.kind), n);
  }

  /** The left operand of a printed binary operation of level `l` stands first, printed
      for a position of level `l` and followed by a lexeme that ends a rule of level
      `n`, the next level. */
  lemma {:induction false} LeftSplit(ls: seq<Lexeme>, p: nat, t: Tree, l: int, n: int)
    requires 1 <= l <= 4 && n == l + 1 && Level(t) == l && At(ls, p, Wrap(t, l))
    ensures t.Operation? && |Wrap(t.left, l)| < |Wrap(t, l)|
    ensures At(ls, p, Wrap(t.left, l)) && Stops(ls, p + |Wrap(t.left, l)|, n)
  {
    BinarySplit(ls, p, t, l, n);
  }

  /** The operator and the right operand of a printed binary operation of level `l`
      stand at `q`, just after its left operand; `n` is the next level. */
  lemma {:induction false} FoldAt(ls: seq<Lexeme>, p: nat, q: nat, t: Tree, l: int, n: int)
    requires 1 <= l <= 4 && n == l + 1 && Level(t) == l && At(ls, p, Wrap(t, l))
    requires t.Operation? && q == p + |Wrap(t.left, l)|
    ensures ToNode(t) == Binary(t.kind, ToNode(t.left), ToNode(t.right))
    ensures KindLevel(t.kind) == l
    ensures At(ls, q, [OpLex(OpOf(t.kind))] + Wrap(t.right, n))
    ensures q + 1 + |Wrap(t.right, n)| == p + |Wrap(t, l)|
    ensures Stops(ls, p + |Wrap(t, l)|, n) ==> Stops(ls, q + 1 + |Wrap(t.right, n)|, n)
  {
    BinarySplit(ls, p, t, l, n);
    AtMoved(ls, p + |Wrap(t.left, l)|, q, [OpLex(OpOf(t.kind))] + Wrap(t.right, n));
    if Stops(ls, p + |Wrap(t, l)|, n) {
      StopsMoved(ls, p + |Wrap(t, l)|, q + 1 + |Wrap(t.right, n)|, n);
    }
  }

  /** Lexemes standing at a position stand at any position equal to it. */
  lemma {:induction false} AtMoved(ls: seq<Lexeme>, p: int, q: int, w: seq<Lexeme>)
    requires At(ls, p, w) && q == p
    ensures At(ls, q, w)
  {
  }

  /** A lexeme that ends a rule ends it at any position equal to its own. */
  lemma {:induction false} StopsMoved(ls: seq<Lexeme>, p: nat, q: nat, l: int)
    requires Stops(ls, p, l) && q == p
    ensures Stops(ls, q, l)
  {
  }

  /** An operator of a level below `l` ends a rule of level `l`. */
  lemma {:induction false} OperatorStops(ls: seq<Lexeme>, q: nat, o: Punct, l: int)
    requires Peek(ls, q) == OpLex(o) && OpLevel(o) < l
    ensures Stops(ls, q, l)
  {
  }

  /** `primary()` reads a number, a variable or a parenthesised tree. */
  lemma {:induction false} PrimaryReads(ls: seq<Lexeme>, st: PState, t: Tree) returns (n: nat)
    requires At(ls, st.pos, Wrap(t, 6))
    ensures ParsePrimary(ls, st) == Parsed(ToNode(t), Moved(st, Wrap(t, 6), n))
    decreases |Wrap(t, 6)|, 0, 1
  {
    if Level(t) == 6 {
      n := AtomReads(ls, st, t);
    } else {
      n := ParenReads(ls, st, t);
    }
  }

  /** `primary()` reads a number or a variable as a leaf in a new arena slot; the number
      is the `int` the printed lexeme holds. */
  lemma {:induction false} AtomReads(ls: seq<Lexeme>, st: PState, t: Tree) returns (n: nat)
    requires Level(t) == 6 && At(ls, st.pos, Wrap(t, 6))
    ensures ParsePrimary(ls, st) == Parsed(ToNode(t), Moved(st, Wrap(t, 6), n))
  {
    AtomParts(t);
    AtHead(ls, st.pos, Wrap(t, 6));
    n := st.nodes + 1;
    assert Moved(st, Wrap(t, 6), n) == Alloc(Advance(st));
    assert !Is(ls, st.pos, LParen);
    if t.Number? {
      UnsignedReadsBack(t.val);
      assert Peek(ls, st.pos).kind == TokenKind.Num;
      assert ToNode(t) == Node(NodeKind.Num, Null, Null, ToI32(Peek(ls, st.pos).val), '\0');
    } else {
      assert Peek(ls, st.pos).kind == Identifier;
      assert ToNode(t) == Node(Var, Null, Null, 0, Peek(ls, st.pos).first);
    }
  }

  /** A printed tree in parentheses: `(` at `p`, the tree printed for a position of level
      0 at `q`, and then `)`, which ends every rule. */
  lemma {:induction false} ParenSplit(ls: seq<Lexeme>, p: nat, q: nat, t: Tree)
    requires Level(t) < 6 && At(ls, p, Wrap(t, 6)) && q == p + 1
    ensures Peek(ls, p) == OpLex(LParen)
    ensures At(ls, q, Wrap(t, 0)) && Stops(ls, q + |Wrap(t, 0)|, 0)
    ensures Peek(ls, q + |Wrap(t, 0)|) == OpLex(RParen)
    ensures |Wrap(t, 6)| == |Wrap(t, 0)| + 2
  {
    ParenParts(t, 6);
    var inner := Wrap(t, 0);
    AtSplit(ls, p, [OpLex(LParen)] + inner, [OpLex(RParen)]);
    AtSplit(ls, p, [OpLex(LParen)], inner);
    AtHead(ls, p, [OpLex(LParen)]);
    AtMoved(ls, p + |[OpLex(LParen)]|, q, inner);
    AtHead(ls, p + |[OpLex(LParen)] + inner|, [OpLex(RParen)]);
    OperatorStops(ls, q + |inner|, RParen, 0);
  }

  /** `primary()` reads a parenthesised tree as that tree: the parentheses add no node. */
  lemma {:induction false} ParenReads(ls: seq<Lexeme>, st: PState, t: Tree) returns (n: nat)
    requires Level(t) < 6 && At(ls, st.pos, Wrap(t, 6))
    ensures ParsePrimary(ls, st) == Parsed(ToNode(t), Moved(st, Wrap(t, 6), n))
    decreases |Wrap(t, 6)|, 0, 0
  {
    var s := Advance(st);
    ParenSplit(ls, st.pos, s.pos, t);
    assert Is(ls, st.pos, LParen);
    n := AssignReads(ls, s, t);
    var s' := Moved(s, Wrap(t, 0), n);
    assert ParseExpr(ls, s) == Parsed(ToNode(t), s');
    assert Is(ls, s'.pos, RParen);
    assert Skip(ls, s', RParen) == Moved(st, Wrap(t, 6), n);
  }

  /** `unary()` reads a negation as one `ND_NEG` node over its operand. */
  lemma {:induction false} UnaryReads(ls: seq<Lexeme>, st: PState, t: Tree) returns (n: nat)
    requires At(ls, st.pos, Wrap(t, 5))
    ensures ParseUnary(ls, st) == Parsed(ToNode(t), Moved(st, Wrap(t, 5), n))
    decreases |Wrap(t, 5)|, 1, 0
  {
    AtHead(ls, st.pos, Wrap(t, 5));
    if Level(t) == 5 {
      NegParts(t);
      var a := t.arg;
      AtSplit(ls, st.pos, [OpLex(Minus)], Wrap(a, 5));
      assert !Is(ls, st.pos, Plus) && Is(ls, st.pos, Minus);
      var s := Advance(st);
      var m := UnaryReads(ls, s, a);
      assert ParseUnary(ls, s) == Parsed(ToNode(a), Moved(s, Wrap(a, 5), m));
      n := m + 1;
      assert Alloc(Moved(s, Wrap(a, 5), m)) == Moved(st, Wrap(t, 5), n);
    } else {
      WrapUp(t, 5);
      if Level(t) == 6 {
        AtomParts(t);
      } else {
        ParenParts(t, 6);
      }
      assert !Is(ls, st.pos, Plus) && !Is(ls, st.pos, Minus);
      n := PrimaryReads(ls, st, t);
    }
  }

  /** `k` unary pluses. */
  function Pluses(k: nat): (w: seq<Lexeme>)
    ensures |w| == k
  {
    if k == 0 then [] else [OpLex(Plus)] + Pluses(k - 1)
  }

  /** A unary `+` adds no node: any number of them before an operand leave the tree that
      `unary()` builds unchanged, and only move the cursor past them. */
  lemma {:induction false} PlusesIgnored(ls: seq<Lexeme>, st: PState, k: nat, t: Tree) returns (n: nat)
    requires At(ls, st.pos, Pluses(k) + Wrap(t, 5))
    ensures ParseUnary(ls, st) == Parsed(ToNode(t), Moved(st, Pluses(k) + Wrap(t, 5), n))
    decreases k
  {
    if k == 0 {
      assert Pluses(k) + Wrap(t, 5) == Wrap(t, 5);
      n := UnaryReads(ls, st, t);
    } else {
      assert Pluses(k) + Wrap(t, 5) == [OpLex(Plus)] + (Pluses(k - 1) + Wrap(t, 5));
      AtSplit(ls, st.pos, [OpLex(Plus)], Pluses(k - 1) + Wrap(t, 5));
      AtHead(ls, st.pos, [OpLex(Plus)]);
      n := PlusesIgnored(ls, Advance(st), k - 1, t);
    }
  }

  /** The loop of `mul()` takes the operator of each binary kind of its level. */
  lemma {:induction false} MulOpAt(ls: seq<Lexeme>, p: nat, k: NodeKind)
    requires IsBinary(k) && KindLevel(k) == 4 && Peek(ls, p) == OpLex(OpOf(k))
    ensures MulOp(ls, p) == Some(k)
  {
  }

  /** One round of the loop of `mul()` over `*` or `/` and a printed operand: the tree
      built so far becomes the left operand of the new node. */
  lemma {:induction false} MulRoundReads(ls: seq<Lexeme>, acc: Node, st: PState, k: NodeKind, r: Tree) returns (n: nat)
    requires IsBinary(k) && KindLevel(k) == 4
    requires At(ls, st.pos, [OpLex(OpOf(k))] + Wrap(r, 5))
    ensures MulLoop(ls, acc, st) == MulLoop(ls, Binary(k, acc, ToNode(r)), Alloc(Moved(Advance(st), Wrap(r, 5), n)))
    decreases |Wrap(r, 5)| + 1, 0, 0
  {
    AtSplit(ls, st.pos, [OpLex(OpOf(k))], Wrap(r, 5));
    AtHead(ls, st.pos, [OpLex(OpOf(k))]);
    MulOpAt(ls, st.pos, k);
    MulStep(ls, acc, st, k);
    n := UnaryReads(ls, Advance(st), r);
  }

  /** `mul()` reads a printed tree and goes on with its loop from that tree. */
  lemma {:induction false} MulReads(ls: seq<Lexeme>, st: PState, t: Tree) returns (n: nat)
    requires At(ls, st.pos, Wrap(t, 4))
    ensures ParseMul(ls, st) == MulLoop(ls, ToNode(t), Moved(st, Wrap(t, 4), n))
    decreases |Wrap(t, 4)|, 2, 2
  {
    if Level(t) == 4 {
      n := MulBinaryReads(ls, st, t);
    } else {
      WrapUp(t, 4);
      n := UnaryReads(ls, st, t);
      assert ParseUnary(ls, st) == Parsed(ToNode(t), Moved(st, Wrap(t, 4), n));
    }
  }

  /** `mul()` over a printed operation of its own level: the left operand is read
      first, then the loop folds the right one in. */
  lemma {:induction false} MulBinaryReads(ls: seq<Lexeme>, st: PState, t: Tree) returns (n: nat)
    requires Level(t) == 4 && At(ls, st.pos, Wrap(t, 4))
    ensures ParseMul(ls, st) == MulLoop(ls, ToNode(t), Moved(st, Wrap(t, 4), n))
    decreases |Wrap(t, 4)|, 2, 1
  {
    LeftSplit(ls, st.pos, t, 4, 5);
    var nl := MulReads(ls, st, t.left);
    n := MulFold(ls, st, t, nl);
  }

  /** The loop of `mul()` folds the right operand of a printed operation of its own
      level into the tree read so far, its left operand. */
  lemma {:induction false} MulFold(ls: seq<Lexeme>, st: PState, t: Tree, nl: nat) returns (n: nat)
    requires Level(t) == 4 && t.Operation? && At(ls, st.pos, Wrap(t, 4))
    ensures MulLoop(ls, ToNode(t.left), Moved(st, Wrap(t.left, 4), nl)) == MulLoop(ls, ToNode(t), Moved(st, Wrap(t, 4), n))
    decreases |Wrap(t, 4)|, 2, 0
  {
    var sl := Moved(st, Wrap(t.left, 4), nl);
    FoldAt(ls, st.pos, sl.pos, t, 4, 5);
    var m := MulRoundReads(ls, ToNode(t.left), sl, t.kind, t.right);
    n := m + 1;
    assert Alloc(Moved(Advance(sl), Wrap(t.right, 5), m)) == Moved(st, Wrap(t, 4), n);
  }

  /** When the lexeme after a printed tree is no operator of `mul()` or of a rule
      below it, `mul()` reads exactly that tree. */
  lemma {:induction false} MulStops(ls: seq<Lexeme>, st: PState, t: Tree) returns (n: nat)
    requires At(ls, st.pos, Wrap(t, 4)) && Stops(ls, st.pos + |Wrap(t, 4)|, 4)
    ensures ParseMul(ls, st) == Parsed(ToNode(t), Moved(st, Wrap(t, 4), n))
    decreases |Wrap(t, 4)|, 2, 3
  {
    n := MulReads(ls, st, t);
    var fin := Moved(st, Wrap(t, 4), n);
    assert Stops(ls, fin.pos, 4);
    MulLoopEnds(ls, ToNode(t), fin);
  }

  /** The loop of `mul()` ends at a lexeme it does not take. */
  lemma {:induction false} MulLoopEnds(ls: seq<Lexeme>, node: Node, st: PState)
    ensures Stops(ls, st.pos, 4) ==> MulLoop(ls, node, st) == Parsed(node, st)
  {
  }

  /** The loop of `add()` takes the operator of each binary kind of its level. */
  lemma {:induction false} AddOpAt(ls: seq<Lexeme>, p: nat, k: NodeKind)
    requires IsBinary(k) && KindLevel(k) == 3 && Peek(ls, p) == OpLex(OpOf(k))
    ensures AddOp(ls, p) == Some(k)
  {
  }

  /** One round of the loop of `add()` over `+` or `-` and a printed operand: the tree
      built so far becomes the left operand of the new node. */
  lemma {:induction false} AddRoundReads(ls: seq<Lexeme>, acc: Node, st: PState, k: NodeKind, r: Tree) returns (n: nat)
    requires IsBinary(k) && KindLevel(k) == 3
    requires At(ls, st.pos, [OpLex(OpOf(k))] + Wrap(r, 4))
    requires Stops(ls, st.pos + 1 + |Wrap(r, 4)|, 4)
    ensures AddLoop(ls, acc, st) == AddLoop(ls, Binary(k, acc, ToNode(r)), Alloc(Moved(Advance(st), Wrap(r, 4), n)))
    decreases |Wrap(r, 4)| + 1, 0, 0
  {
    AtSplit(ls, st.pos, [OpLex(OpOf(k))], Wrap(r, 4));
    AtHead(ls, st.pos, [OpLex(OpOf(k))]);
    AddOpAt(ls, st.pos, k);
    AddStep(ls, acc, st, k);
    n := MulStops(ls, Advance(st), r);
  }

  /** `add()` reads a printed tree and goes on with its loop from that tree. */
  lemma {:induction false} AddReads(ls: seq<Lexeme>, st: PState, t: Tree) returns (n: nat)
    requires At(ls, st.pos, Wrap(t, 3)) && Stops(ls, st.pos + |Wrap(t, 3)|, 4)
    ensures ParseAdd(ls, st) == AddLoop(ls, ToNode(t), Moved(st, Wrap(t, 3), n))
    decreases |Wrap(t, 3)|, 3, 2
  {
    if Level(t) == 3 {
      n := AddBinaryReads(ls, st, t);
    } else {
      WrapUp(t, 3);
      n := MulStops(ls, st, t);
      assert ParseMul(ls, st) == Parsed(ToNode(t), Moved(st, Wrap(t, 3), n));
    }
  }

  /** `add()` over a printed operation of its own level: the left operand is read
      first, then the loop folds the right one in. */
  lemma {:induction false} AddBinaryReads(ls: seq<Lexeme>, st: PState, t: Tree) returns (n: nat)
    requires Level(t) == 3 && At(ls, st.pos, Wrap(t, 3)) && Stops(ls, st.pos + |Wrap(t, 3)|, 4)
    ensures ParseAdd(ls, st) == AddLoop(ls, ToNode(t), Moved(st, Wrap(t, 3), n))
    decreases |Wrap(t, 3)|, 3, 1
  {
    LeftSplit(ls, st.pos, t, 3, 4);
    var nl := AddReads(ls, st, t.left);
    n := AddFold(ls, st, t, nl);
  }

  /** The loop of `add()` folds the right operand of a printed operation of its own
      level into the tree read so far, its left operand. */
  lemma {:induction false} AddFold(ls: seq<Lexeme>, st: PState, t: Tree, nl: nat) returns (n: nat)
    requires Level(t) == 3 && t.Operation? && At(ls, st.pos, Wrap(t, 3)) && Stops(ls, st.pos + |Wrap(t, 3)|, 4)
    ensures AddLoop(ls, ToNode(t.left), Moved(st, Wrap(t.left, 3), nl)) == AddLoop(ls, ToNode(t), Moved(st, Wrap(t, 3), n))
    decreases |Wrap(t, 3)|, 3, 0
  {
    var sl := Moved(st, Wrap(t.left, 3), nl);
    FoldAt(ls, st.pos, sl.pos, t, 3, 4);
    var m := AddRoundReads(ls, ToNode(t.left), sl, t.kind, t.right);
    n := m + 1;
    assert Alloc(Moved(Advance(sl), Wrap(t.right, 4), m)) == Moved(st, Wrap(t, 3), n);
  }

  /** When the lexeme after a printed tree is no operator of `add()` or of a rule
      below it, `add()` reads exactly that tree. */
  lemma {:induction false} AddStops(ls: seq<Lexeme>, st: PState, t: Tree) returns (n: nat)
    requires At(ls, st.pos, Wrap(t, 3)) && Stops(ls, st.pos + |Wrap(t, 3)|, 3)
    ensures ParseAdd(ls, st) == Parsed(ToNode(t), Moved(st, Wrap(t, 3), n))
    decreases |Wrap(t, 3)|, 3, 3
  {
    assert Stops(ls, st.pos + |Wrap(t, 3)|, 4);
    n := AddReads(ls, st, t);
    var fin := Moved(st, Wrap(t, 3), n);
    assert Stops(ls, fin.pos, 3);
    AddLoopEnds(ls, ToNode(t), fin);
  }

  /** The loop of `add()` ends at a lexeme it does not take. */
  lemma {:induction false} AddLoopEnds(ls: seq<Lexeme>, node: Node, st: PState)
    ensures Stops(ls, st.pos, 3) ==> AddLoop(ls, node, st) == Parsed(node, st)
  {
  }

  /** The loop of `relational()` takes the operator of each binary kind of its level. */
  lemma {:induction false} RelationalOpAt(ls: seq<Lexeme>, p: nat, k: NodeKind)
    requires IsBinary(k) && KindLevel(k) == 2 && Peek(ls, p) == OpLex(OpOf(k))
    ensures RelationalOp(ls, p) == Some(k)
  {
  }

  /** One round of the loop of `relational()` over a comparison and a printed operand: the tree
      built so far becomes the left operand of the new node. */
  lemma {:induction false} RelationalRoundReads(ls: seq<Lexeme>, acc: Node, st: PState, k: NodeKind, r: Tree) returns (n: nat)
    requires IsBinary(k) && KindLevel(k) == 2
    requires At(ls, st.pos, [OpLex(OpOf(k))] + Wrap(r, 3))
    requires Stops(ls, st.pos + 1 + |Wrap(r, 3)|, 3)
    ensures RelationalLoop(ls, acc, st) == RelationalLoop(ls, Binary(k, acc, ToNode(r)), Alloc(Moved(Advance(st), Wrap(r, 3), n)))
    decreases |Wrap(r, 3)| + 1, 0, 0
  {
    AtSplit(ls, st.pos, [OpLex(OpOf(k))], Wrap(r, 3));
    AtHead(ls, st.pos, [OpLex(OpOf(k))]);
    RelationalOpAt(ls, st.pos, k);
    RelationalStep(ls, acc, st, k);
    n := AddStops(ls, Advance(st), r);
  }

  /** `relational()` reads a printed tree and goes on with its loop from that tree. */
  lemma {:induction false} RelationalReads(ls: seq<Lexeme>, st: PState, t: Tree) returns (n: nat)
    requires At(ls, st.pos, Wrap(t, 2)) && Stops(ls, st.pos + |Wrap(t, 2)|, 3)
    ensures ParseRelational(ls, st) == RelationalLoop(ls, ToNode(t), Moved(st, Wrap(t, 2), n))
    decreases |Wrap(t, 2)|, 4, 2
  {
    if Level(t) == 2 {
      n := RelationalBinaryReads(ls, st, t);
    } else {
      WrapUp(t, 2);
      n := AddStops(ls, st, t);
      assert ParseAdd(ls, st) == Parsed(ToNode(t), Moved(st, Wrap(t, 2), n));
    }
  }

  /** `relational()` over a printed operation of its own level: the left operand is read
      first, then the loop folds the right one in. */
  lemma {:induction false} RelationalBinaryReads(ls: seq<Lexeme>, st: PState, t: Tree) returns (n: nat)
    requires Level(t) == 2 && At(ls, st.pos, Wrap(t, 2)) && Stops(ls, st.pos + |Wrap(t, 2)|, 3)
    ensures ParseRelational(ls, st) == RelationalLoop(ls, ToNode(t), Moved(st, Wrap(t, 2), n))
    decreases |Wrap(t, 2)|, 4, 1
  {
    LeftSplit(ls, st.pos, t, 2, 3);
    var nl := RelationalReads(ls, st, t.left);
    n := RelationalFold(ls, st, t, nl);
  }

  /** The loop of `relational()` folds the right operand of a printed operation of its own
      level into the tree read so far, its left operand. */
  lemma {:induction false} RelationalFold(ls: seq<Lexeme>, st: PState, t: Tree, nl: nat) returns (n: nat)
    requires Level(t) == 2 && t.Operation? && At(ls, st.pos, Wrap(t, 2)) && Stops(ls, st.pos + |Wrap(t, 2)|, 3)
    ensures RelationalLoop(ls, ToNode(t.left), Moved(st, Wrap(t.left, 2), nl)) == RelationalLoop(ls, ToNode(t), Moved(st, Wrap(t, 2), n))
    decreases |Wrap(t, 2)|, 4, 0
  {
    var sl := Moved(st, Wrap(t.left, 2), nl);
    FoldAt(ls, st.pos, sl.pos, t, 2, 3);
    var m := RelationalRoundReads(ls, ToNode(t.left), sl, t.kind, t.right);
    n := m + 1;
    assert Alloc(Moved(Advance(sl), Wrap(t.right, 3), m)) == Moved(st, Wrap(t, 2), n);
  }

  /** When the lexeme after a printed tree is no operator of `relational()` or of a rule
      below it, `relational()` reads exactly that tree. */
  lemma {:induction false} RelationalStops(ls: seq<Lexeme>, st: PState, t: Tree) returns (n: nat)
    requires At(ls, st.pos, Wrap(t, 2)) && Stops(ls, st.pos + |Wrap(t, 2)|, 2)
    ensures ParseRelational(ls, st) == Parsed(ToNode(t), Moved(st, Wrap(t, 2), n))
    decreases |Wrap(t, 2)|, 4, 3
  {
    assert Stops(ls, st.pos + |Wrap(t, 2)|, 3);
    n := RelationalReads(ls, st, t);
    var fin := Moved(st, Wrap(t, 2), n);
    assert Stops(ls, fin.pos, 2);
    RelationalLoopEnds(ls, ToNode(t), fin);
  }

  /** The loop of `relational()` ends at a lexeme it does not take. */
  lemma {:induction false} RelationalLoopEnds(ls: seq<Lexeme>, node: Node, st: PState)
    ensures Stops(ls, st.pos, 2) ==> RelationalLoop(ls, node, st) == Parsed(node, st)
  {
  }

  /** The loop of `equality()` takes the operator of each binary kind of its level. */
  lemma {:induction false} EqualityOpAt(ls: seq<Lexeme>, p: nat, k: NodeKind)
    requires IsBinary(k) && KindLevel(k) == 1 && Peek(ls, p) == OpLex(OpOf(k))
    ensures EqualityOp(ls, p) == Some(k)
  {
  }

  /** One round of the loop of `equality()` over `==` or `!=` and a printed operand: the tree
      built so far becomes the left operand of the new node. */
  lemma {:induction false} EqualityRoundReads(ls: seq<Lexeme>, acc: Node, st: PState, k: NodeKind, r: Tree) returns (n: nat)
    requires IsBinary(k) && KindLevel(k) == 1
    requires At(ls, st.pos, [OpLex(OpOf(k))] + Wrap(r, 2))
    requires Stops(ls, st.pos + 1 + |Wrap(r, 2)|, 2)
    ensures EqualityLoop(ls, acc, st) == EqualityLoop(ls, Binary(k, acc, ToNode(r)), Alloc(Moved(Advance(st), Wrap(r, 2), n)))
    decreases |Wrap(r, 2)| + 1, 0, 0
  {
    AtSplit(ls, st.pos, [OpLex(OpOf(k))], Wrap(r, 2));
    AtHead(ls, st.pos, [OpLex(OpOf(k))]);
    EqualityOpAt(ls, st.pos, k);
    EqualityStep(ls, acc, st, k);
    n := RelationalStops(ls, Advance(st), r);
  }

  /** `equality()` reads a printed tree and goes on with its loop from that tree. */
  lemma {:induction false} EqualityReads(ls: seq<Lexeme>, st: PState, t: Tree) returns (n: nat)
    requires At(ls, st.pos, Wrap(t, 1)) && Stops(ls, st.pos + |Wrap(t, 1)|, 2)
    ensures ParseEquality(ls, st) == EqualityLoop(ls, ToNode(t), Moved(st, Wrap(t, 1), n))
    decreases |Wrap(t, 1)|, 5, 2
  {
    if Level(t) == 1 {
      n := EqualityBinaryReads(ls, st, t);
    } else {
      WrapUp(t, 1);
      n := RelationalStops(ls, st, t);
      assert ParseRelational(ls, st) == Parsed(ToNode(t), Moved(st, Wrap(t, 1), n));
    }
  }

  /** `equality()` over a printed operation of its own level: the left operand is read
      first, then the loop folds the right one in. */
  lemma {:induction false} EqualityBinaryReads(ls: seq<Lexeme>, st: PState, t: Tree) returns (n: nat)
    requires Level(t) == 1 && At(ls, st.pos, Wrap(t, 1)) && Stops(ls, st.pos + |Wrap(t, 1)|, 2)
    ensures ParseEquality(ls, st) == EqualityLoop(ls, ToNode(t), Moved(st, Wrap(t, 1), n))
    decreases |Wrap(t, 1)|, 5, 1
  {
    LeftSplit(ls, st.pos, t, 1, 2);
    var nl := EqualityReads(ls, st, t.left);
    n := EqualityFold(ls, st, t, nl);
  }

  /** The loop of `equality()` folds the right operand of a printed operation of its own
      level into the tree read so far, its left operand. */
  lemma {:induction false} EqualityFold(ls: seq<Lexeme>, st: PState, t: Tree, nl: nat) returns (n: nat)
    requires Level(t) == 1 && t.Operation? && At(ls, st.pos, Wrap(t, 1)) && Stops(ls, st.pos + |Wrap(t, 1)|, 2)
    ensures EqualityLoop(ls, ToNode(t.left), Moved(st, Wrap(t.left, 1), nl)) == EqualityLoop(ls, ToNode(t), Moved(st, Wrap(t, 1), n))
    decreases |Wrap(t, 1)|, 5, 0
  {
    var sl := Moved(st, Wrap(t.left, 1), nl);
    FoldAt(ls, st.pos, sl.pos, t, 1, 2);
    var m := EqualityRoundReads(ls, ToNode(t.left), sl, t.kind, t.right);
    n := m + 1;
    assert Alloc(Moved(Advance(sl), Wrap(t.right, 2), m)) == Moved(st, Wrap(t, 1), n);
  }

  /** When the lexeme after a printed tree is no operator of `equality()` or of a rule
      below it, `equality()` reads exactly that tree. */
  lemma {:induction false} EqualityStops(ls: seq<Lexeme>, st: PState, t: Tree) returns (n: nat)
    requires At(ls, st.pos, Wrap(t, 1)) && Stops(ls, st.pos + |Wrap(t, 1)|, 1)
    ensures ParseEquality(ls, st) == Parsed(ToNode(t), Moved(st, Wrap(t, 1), n))
    decreases |Wrap(t, 1)|, 5, 3
  {
    assert Stops(ls, st.pos + |Wrap(t, 1)|, 2);
    n := EqualityReads(ls, st, t);
    var fin := Moved(st, Wrap(t, 1), n);
    assert Stops(ls, fin.pos, 1);
    EqualityLoopEnds(ls, ToNode(t), fin);
  }

  /** The loop of `equality()` ends at a lexeme it does not take. */
  lemma {:induction false} EqualityLoopEnds(ls: seq<Lexeme>, node: Node, st: PState)
    ensures Stops(ls, st.pos, 1) ==> EqualityLoop(ls, node, st) == Parsed(node, st)
  {
  }

  /** `assign()` reads a printed tree; an assignment's right side is read by `assign()`
      again, so a chain of `=` folds to the right. */
  lemma {:induction false} AssignReads(ls: seq<Lexeme>, st: PState, t: Tree) returns (n: nat)
    requires At(ls, st.pos, Wrap(t, 0)) && Stops(ls, st.pos + |Wrap(t, 0)|, 0)
    ensures ParseAssign(ls, st) == Parsed(ToNode(t), Moved(st, Wrap(t, 0), n))
    decreases |Wrap(t, 0)|, 6, 1
  {
    if Level(t) == 0 {
      n := AssignBinaryReads(ls, st, t);
    } else {
      WrapUp(t, 0);
      n := EqualityStops(ls, st, t);
      var fin := Moved(st, Wrap(t, 0), n);
      assert ParseEquality(ls, st) == Parsed(ToNode(t), fin);
      assert !Is(ls, fin.pos, Assignment);
      AssignStep(ls, st);
    }
  }

  /** `assign()` over a printed assignment: the target is read by `equality()`, the right
      side by `assign()` again. */
  lemma {:induction false} AssignBinaryReads(ls: seq<Lexeme>, st: PState, t: Tree) returns (n: nat)
    requires Level(t) == 0 && At(ls, st.pos, Wrap(t, 0)) && Stops(ls, st.pos + |Wrap(t, 0)|, 0)
    ensures ParseAssign(ls, st) == Parsed(ToNode(t), Moved(st, Wrap(t, 0), n))
    decreases |Wrap(t, 0)|, 6, 0
  {
    AssignParts(t);
    var l, r := t.target, t.value;
    var wl, wr := Wrap(l, 1), Wrap(r, 0);
    OperatorAt(ls, st.pos, wl, Assignment, wr);
    OperatorStops(ls, st.pos + |wl|, Assignment, 1);
    AtSplit(ls, st.pos + |wl|, [OpLex(Assignment)], wr);
    assert |[OpLex(Assignment)]| == 1;
    var nl := EqualityStops(ls, st, l);
    var sl := Moved(st, wl, nl);
    assert sl.pos == st.pos + |wl|;
    assert ParseEquality(ls, st) == Parsed(ToNode(l), sl);
    assert Is(ls, sl.pos, Assignment);
    AssignStep(ls, st);
    var s := Advance(sl);
    assert st.pos + |wl| + |[OpLex(Assignment)]| == s.pos;
    assert s.pos + |wr| == st.pos + |Wrap(t, 0)|;
    var m := AssignReads(ls, s, r);
    assert ParseAssign(ls, s) == Parsed(ToNode(r), Moved(s, wr, m));
    n := m + 1;
    assert Alloc(Moved(s, wr, m)) == Moved(st, Wrap(t, 0), n);
  }

  /** `expr()` reads back every printed tree that is followed by a lexeme no loop takes:
      the tree, the cursor just after it, the error flag unchanged and one arena slot per
      node. */
  lemma {:induction false} TreeReads(ls: seq<Lexeme>, st: PState, t: Tree)
    requires At(ls, st.pos, Print(t)) && Stops(ls, st.pos + |Print(t)|, 0)
    ensures ParseExpr(ls, st) == Parsed(ToNode(t), PState(st.pos + |Print(t)|, st.err, st.nodes + Size(ToNode(t))))
  {
    assert Wrap(t, 0) == Print(t);
    var n := AssignReads(ls, st, t);
    ExprShaped(ls, st);
    assert ParseExpr(ls, st).node == ToNode(t) && ParseExpr(ls, st).st.nodes == n;
  }

  /** The same for the nodes: every expression tree the parser can build is read back from
      its printed form. */
  lemma {:induction false} ExprReads(ls: seq<Lexeme>, st: PState, e: Node)
    requires IsExpr(e) && At(ls, st.pos, Print(FromNode(e))) && Stops(ls, st.pos + |Print(FromNode(e))|, 0)
    ensures ParseExpr(ls, st) == Parsed(e, PState(st.pos + |Print(FromNode(e))|, st.err, st.nodes + Size(e)))
  {
    TreeReads(ls, st, FromNode(e));
  }
}
