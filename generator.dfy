/** The stack-code generator of `codegen.c`: `mem_offset`, `_gen_expr` and `gen_expr`. The
    bytes each tree becomes are `Code`, the compile-time stack depth it leaves is `Net`, and
    the bytes of a statement list with its `drop`s are `Emitted`; the class `CodeGen` holds
    the generator's three globals and its methods are proved to write exactly those bytes. */
module Generator {
  import opened Defines
  import opened Leb128
  import opened Wasm
  import opened Ast
  import opened StandardFunctions

  // ---------------------------------------------------------------- variable storage

  /** `mem_offset(c)`: the address of the variable named `c`. */
  function MemOffset(c: char): int {
    1024 + (c as int - 'a' as int) * 4
  }

  /** The byte the generator stores for an offset: `mem_offset` is written into one
      `unsigned char`, so only its value modulo 256 reaches the code. */
  function OffsetByte(c: char): (b: byte)
    ensures (b - MemOffset(c)) % 256 == 0
  {
    MemOffset(c) % 256
  }

  /** The variables `a` to `z` get word-aligned cells 1024 to 1124, one per name; the byte
      that reaches the code is the offset from 1024, which is below 128 and so reads back as
      a one-byte LEB128 immediate. */
  lemma LetterOffsets(c: char, d: char)
    requires 'a' <= c <= 'z' && 'a' <= d <= 'z'
    ensures 1024 <= MemOffset(c) <= 1124 && MemOffset(c) % 4 == 0
    ensures OffsetByte(c) == MemOffset(c) - 1024 < 128
    ensures MemOffset(c) == MemOffset(d) <==> c == d
    ensures OffsetByte(c) == OffsetByte(d) <==> c == d
  {
  }

  /** C's `char` may be signed: a byte `c` of 128 or more then reads as `c - 256`, which moves
      `mem_offset` by 1024 and leaves the stored byte as it is. */
  lemma SignedCharSameByte(c: char)
    requires 128 <= c as int < 256
    ensures (1024 + (c as int - 256 - 'a' as int) * 4) % 256 == OffsetByte(c)
  {
  }

  // ---------------------------------------------------------------- code of one tree

  /** The instruction of a binary node: `i32.div_u` for division, the signed comparisons. */
  function Opcode(k: NodeKind): (op: byte)
    requires IsBinary(k)
  {
    match k
    case Add => OpI32Add
    case Sub => OpI32Sub
    case Mul => OpI32Mul
    case Div => OpI32DivU
    case Eq => OpI32Eq
    case Ne => OpI32Ne
    case Lt => OpI32LtS
    case Le => OpI32LeS
    case Gt => OpI32GtS
    case Ge => OpI32GeS
  }

  /** The bytes `_gen_expr` appends for a tree: operands first, post-order. */
  function Code(e: Node): (r: seq<byte>)
    requires IsExpr(e)
  {
    if e.kind == Num then [OpI32Const] + SLeb(e.val)
    else if e.kind == Neg then Code(e.lhs) + ([OpI32Const] + SLeb(-1)) + [OpI32Mul]
    else if e.kind == Var then [OpI32Const, 0] + [OpI32Load, Align4, OffsetByte(e.name)]
    else if e.kind == Assign then
      assert IsExpr(e.lhs);
      [OpI32Const, 0] + Code(e.rhs) + [OpI32Store, Align4, OffsetByte(e.lhs.name)]
    else Code(e.lhs) + Code(e.rhs) + [Opcode(e.kind)]
  }

  /** How much `_gen_expr` changes the `depth` counter for a tree. */
  function Net(e: Node): int
    requires IsExpr(e)
  {
    if e.kind == Num || e.kind == Var then 1
    else if e.kind == Neg then Net(e.lhs)
    else if e.kind == Assign then Net(e.rhs) - 1
    else Net(e.lhs) + Net(e.rhs) - 1
  }

  /** A tree without assignment. */
  predicate NoAssign(e: Node)
    requires IsExpr(e)
  {
    if e.kind == Num || e.kind == Var then true
    else if e.kind == Neg then NoAssign(e.lhs)
    else if e.kind == Assign then false
    else NoAssign(e.lhs) && NoAssign(e.rhs)
  }

  /** An expression without assignment raises the depth by exactly one. */
  lemma {:induction false} NetNoAssign(e: Node)
    requires IsExpr(e) && NoAssign(e)
    ensures Net(e) == 1
  {
    if e.kind == Neg {
      NetNoAssign(e.lhs);
    } else if e.kind != Num && e.kind != Var {
      NetNoAssign(e.lhs);
      NetNoAssign(e.rhs);
    }
  }

  /** A negation leaves its operand's effect on the depth unchanged; an assignment whose
      right-hand side raises the depth by one leaves it unchanged overall. */
  lemma NetNegAssign(e: Node)
    requires IsExpr(e)
    ensures e.kind == Neg ==> Net(e) == Net(e.lhs)
    ensures e.kind == Assign && Net(e.rhs) == 1 ==> Net(e) == 0
  {
  }

  // ---------------------------------------------------------------- code of a statement list

  datatype Emission = Emission(code: seq<byte>, depth: int)

  /** Every element of a `next` list the parser built is an expression statement. */
  predicate Statements(stmts: seq<Node>) {
    forall k :: 0 <= k < |stmts| ==> IsStmt(stmts[k])
  }

  /** Whether `gen_expr` writes a `drop` after statement `i`, the depth being `d` after it:
      only when a statement follows and the depth is not zero. */
  predicate Drops(stmts: seq<Node>, i: nat, d: int) {
    i + 1 < |stmts| && d != 0
  }

  /** What `gen_expr` writes for statement `i`, the depth being `d` before it: its code, and
      a `drop` when a statement follows and the depth after it is not zero. */
  function Piece(stmts: seq<Node>, i: nat, d: int): seq<byte>
    requires i < |stmts| && Statements(stmts)
  {
    var e := stmts[i].lhs;
    Code(e) + (if Drops(stmts, i, d + Net(e)) then [OpDrop] else [])
  }

  /** The depth after statement `i` and its `drop`, the depth being `d` before it. */
  function After(stmts: seq<Node>, i: nat, d: int): int
    requires i < |stmts| && Statements(stmts)
  {
    var e := stmts[i].lhs;
    if Drops(stmts, i, d + Net(e)) then d + Net(e) - 1 else d + Net(e)
  }

  /** The bytes `gen_expr` writes for the statements from `i` on, the depth being `d` before
      them, and the depth it ends with. */
  function Emitted(stmts: seq<Node>, i: nat, d: int): (r: Emission)
    requires i <= |stmts| && Statements(stmts)
    decreases |stmts| - i
  {
    if i == |stmts| then Emission([], d)
    else
      var rest := Emitted(stmts, i + 1, After(stmts, i, d));
      Emission(Piece(stmts, i, d) + rest.code, rest.depth)
  }

  /** The drop rule: one `drop` after a statement exactly when a statement follows and the
      depth is not zero, so never after the last one; after a `drop` the depth is one less. */
  lemma DropRule(stmts: seq<Node>, i: nat, d: int)
    requires i < |stmts| && Statements(stmts)
    ensures var e := stmts[i].lhs;
            (Piece(stmts, i, d) == Code(e) + [OpDrop] && After(stmts, i, d) == d + Net(e) - 1 <==>
               i + 1 < |stmts| && d + Net(e) != 0) &&
            (Piece(stmts, i, d) == Code(e) && After(stmts, i, d) == d + Net(e) <==>
               i + 1 == |stmts| || d + Net(e) == 0)
  {
    var e := stmts[i].lhs;
    if Piece(stmts, i, d) == Code(e) {
      assert |Piece(stmts, i, d)| == |Code(e)|;
    }
  }

  /** When every statement is free of assignment, every statement but the last is followed
      by a `drop` and the depth at the end is one (zero for no statement). */
  lemma {:induction false} EmittedNoAssign(stmts: seq<Node>, i: nat, d: int)
    requires i <= |stmts| && Statements(stmts)
    requires forall k :: 0 <= k < |stmts| ==> NoAssign(stmts[k].lhs)
    requires d == 0
    ensures Emitted(stmts, i, d).depth == if i == |stmts| then 0 else 1
    decreases |stmts| - i
  {
    if i < |stmts| {
      NetNoAssign(stmts[i].lhs);
      if Drops(stmts, i, d + 1) {
        EmittedNoAssign(stmts, i + 1, 0);
      } else {
        assert i + 1 == |stmts|;
      }
    }
  }

  // ---------------------------------------------------------------- the generator

  /** One round of the loop of `gen_expr` moves the piece of statement `i` from what is
      still to emit to what is done. */
  lemma RoundStep(stmts: seq<Node>, i: nat, d: int, done: seq<byte>, total: Emission)
    requires i < |stmts| && Statements(stmts)
    requires done + Emitted(stmts, i, d).code == total.code && Emitted(stmts, i, d).depth == total.depth
    ensures (done + Piece(stmts, i, d)) + Emitted(stmts, i + 1, After(stmts, i, d)).code == total.code
    ensures Emitted(stmts, i + 1, After(stmts, i, d)).depth == total.depth
    ensures |done| + |Piece(stmts, i, d)| <= |total.code|
  {
    Regroup(done, Piece(stmts, i, d), Emitted(stmts, i + 1, After(stmts, i, d)).code);
  }

  /** A buffer `now` that is `was` with `bs` written at `at`: its prefix up to the end of
      `bs` is the prefix of `was` up to `at`, then `bs`. */
  lemma PrefixOfSplice(now: seq<byte>, was: seq<byte>, at: nat, bs: seq<byte>)
    requires at + |bs| <= |was| && now == was[..at] + bs + was[at + |bs|..]
    ensures now[..at + |bs|] == was[..at] + bs
  {
  }

  lemma Regroup(a: seq<byte>, b: seq<byte>, rest: seq<byte>)
    ensures (a + b) + rest == a + (b + rest)
  {
  }

  /** The globals of the generator: the output buffer `c`, the write index `n_byte_length`
      and the compile-time stack `depth`. Every method appends at `length`: it writes the
      bytes it promises at `old(length)` up to the new `length` and changes nothing else. */
  class CodeGen {
    const c: array<byte>
    var length: nat
    var depth: int

    /** `n_byte_length = *byte_length; c = output_code; depth = 0;` */
    constructor (output: array<byte>, byteLength: nat)
      ensures c == output && length == byteLength && depth == 0
    {
      c := output;
      length := byteLength;
      depth := 0;
    }

    /** `c[n_byte_length++] = b`. */
    method Emit(b: byte)
      requires length < c.Length
      modifies c, this`length
      ensures length == old(length) + 1
      ensures c[..length] == old(c[..length]) + [b]
      ensures forall j :: length <= j < c.Length ==> c[j] == old(c[j])
    {
      c[length] := b;
      length := length + 1;
    }

    /** `_gen_expr(node)`: appends `Code(node)`, changes nothing else in the buffer, and
        moves the depth counter by `Net(node)`. */
    method GenNode(node: Node)
      requires IsExpr(node) && length + |Code(node)| <= c.Length
      modifies c, this`length, this`depth
      ensures length == old(length) + |Code(node)|
      ensures c[..length] == old(c[..length]) + Code(node)
      ensures forall j :: length <= j < c.Length ==> c[j] == old(c[j])
      ensures depth == old(depth) + Net(node)
      decreases Size(node), 1
    {
      if node.kind == Num {
        GenNum(node.val);
      } else if node.kind == Neg {
        GenNeg(node.lhs);
      } else if node.kind == Var {
        GenVar(node.name);
      } else if node.kind == Assign {
        GenAssign(node.lhs.name, node.rhs);
      } else {
        GenBinary(node.lhs, node.rhs, Opcode(node.kind));
      }
    }

    /** `i32.const` and the signed LEB128 of `v`, written by the encoder macro. */
    method EmitConst(v: int)
      requires IsI32(v) && length + 1 + |SLeb(v)| <= c.Length
      modifies c, this`length
      ensures length == old(length) + |[OpI32Const] + SLeb(v)|
      ensures c[..length] == old(c[..length]) + ([OpI32Const] + SLeb(v))
      ensures forall j :: length <= j < c.Length ==> c[j] == old(c[j])
    {
      Emit(OpI32Const);
      ghost var w1 := c[..];
      ghost var at := length;
      length := EncodeLeb128(c, length, v, length);
      PrefixOfSplice(c[..], w1, at, SLeb(v));
      Regroup(old(c[..length]), [OpI32Const], SLeb(v));
    }

    /** `ND_NUM`: the constant; one more value. */
    method GenNum(v: int)
      requires IsI32(v) && length + 1 + |SLeb(v)| <= c.Length
      modifies c, this`length, this`depth
      ensures length == old(length) + |[OpI32Const] + SLeb(v)|
      ensures c[..length] == old(c[..length]) + ([OpI32Const] + SLeb(v))
      ensures forall j :: length <= j < c.Length ==> c[j] == old(c[j])
      ensures depth == old(depth) + 1
    {
      EmitConst(v);
      depth := depth + 1;
    }

    /** `ND_NEG`: the operand, then a multiplication by the constant -1. */
    method GenNeg(operand: Node)
      requires IsExpr(operand) && length + |Code(operand) + ([OpI32Const] + SLeb(-1)) + [OpI32Mul]| <= c.Length
      modifies c, this`length, this`depth
      ensures length == old(length) + |Code(operand) + ([OpI32Const] + SLeb(-1)) + [OpI32Mul]|
      ensures c[..length] == old(c[..length]) + (Code(operand) + ([OpI32Const] + SLeb(-1)) + [OpI32Mul])
      ensures forall j :: length <= j < c.Length ==> c[j] == old(c[j])
      ensures depth == old(depth) + Net(operand)
      decreases Size(operand), 2
    {
      ghost var p := c[..length];
      GenNode(operand);
      EmitConst(-1);
      Regroup(p, Code(operand), [OpI32Const] + SLeb(-1));
      Emit(OpI32Mul);
      Regroup(p, Code(operand) + ([OpI32Const] + SLeb(-1)), [OpI32Mul]);
    }

    /** `i32.const 0`: the base address of every variable access. */
    method EmitBase()
      requires length + 2 <= c.Length
      modifies c, this`length
      ensures length == old(length) + 2
      ensures c[..length] == old(c[..length]) + [OpI32Const, 0]
      ensures forall j :: length <= j < c.Length ==> c[j] == old(c[j])
    {
      ghost var p := c[..length];
      Emit(OpI32Const);
      Emit(0);
      Regroup(p, [OpI32Const], [0]);
    }

    /** A load or store instruction and its memory argument: alignment 2^2 and the offset
        byte of the variable `name`. */
    method EmitAccess(op: byte, name: char)
      requires length + 3 <= c.Length
      modifies c, this`length
      ensures length == old(length) + 3
      ensures c[..length] == old(c[..length]) + [op, Align4, OffsetByte(name)]
      ensures forall j :: length <= j < c.Length ==> c[j] == old(c[j])
    {
      ghost var p := c[..length];
      Emit(op);
      Emit(Align4);
      Regroup(p, [op], [Align4]);
      Emit(OffsetByte(name));
      Regroup(p, [op, Align4], [OffsetByte(name)]);
    }

    /** `ND_VAR`: the base address 0 and a load at the variable's offset; one more value. */
    method GenVar(name: char)
      requires length + 5 <= c.Length
      modifies c, this`length, this`depth
      ensures length == old(length) + 5
      ensures c[..length] == old(c[..length]) + ([OpI32Const, 0] + [OpI32Load, Align4, OffsetByte(name)])
      ensures forall j :: length <= j < c.Length ==> c[j] == old(c[j])
      ensures depth == old(depth) + 1
    {
      ghost var p := c[..length];
      EmitBase();
      EmitAccess(OpI32Load, name);
      Regroup(p, [OpI32Const, 0], [OpI32Load, Align4, OffsetByte(name)]);
      depth := depth + 1;
    }

    /** `ND_ASSIGN`: the base address 0, the right-hand side, and a store at the offset of
        the left-hand side's name; the left-hand side itself emits nothing. */
    method GenAssign(name: char, rhs: Node)
      requires IsExpr(rhs) && length + |[OpI32Const, 0] + Code(rhs) + [OpI32Store, Align4, OffsetByte(name)]| <= c.Length
      modifies c, this`length, this`depth
      ensures length == old(length) + |[OpI32Const, 0] + Code(rhs) + [OpI32Store, Align4, OffsetByte(name)]|
      ensures c[..length] == old(c[..length]) + ([OpI32Const, 0] + Code(rhs) + [OpI32Store, Align4, OffsetByte(name)])
      ensures forall j :: length <= j < c.Length ==> c[j] == old(c[j])
      ensures depth == old(depth) + Net(rhs) - 1
      decreases Size(rhs), 2
    {
      ghost var p := c[..length];
      EmitBase();
      GenNode(rhs);
      Regroup(p, [OpI32Const, 0], Code(rhs));
      EmitAccess(OpI32Store, name);
      Regroup(p, [OpI32Const, 0] + Code(rhs), [OpI32Store, Align4, OffsetByte(name)]);
      depth := depth - 1;
    }

    /** A binary node: left operand, right operand, then its one instruction. */
    method GenBinary(lhs: Node, rhs: Node, op: byte)
      requires IsExpr(lhs) && IsExpr(rhs) && length + |Code(lhs) + Code(rhs) + [op]| <= c.Length
      modifies c, this`length, this`depth
      ensures length == old(length) + |Code(lhs) + Code(rhs) + [op]|
      ensures c[..length] == old(c[..length]) + (Code(lhs) + Code(rhs) + [op])
      ensures forall j :: length <= j < c.Length ==> c[j] == old(c[j])
      ensures depth == old(depth) + Net(lhs) + Net(rhs) - 1
      decreases Size(lhs) + Size(rhs), 2
    {
      ghost var p := c[..length];
      GenNode(lhs);
      GenNode(rhs);
      Regroup(p, Code(lhs), Code(rhs));
      Emit(op);
      Regroup(p, Code(lhs) + Code(rhs), [op]);
      depth := depth - 1;
    }

    /** One round of the loop of `gen_expr`: statement `i`, and a `drop` after it when a
        statement follows and the depth is not zero. */
    method GenRound(stmts: seq<Node>, i: nat)
      requires i < |stmts| && Statements(stmts) && length + |Piece(stmts, i, depth)| <= c.Length
      modifies c, this`length, this`depth
      ensures length == old(length) + |Piece(stmts, i, old(depth))|
      ensures c[..length] == old(c[..length]) + Piece(stmts, i, old(depth))
      ensures forall j :: length <= j < c.Length ==> c[j] == old(c[j])
      ensures depth == After(stmts, i, old(depth))
    {
      ghost var p := c[..length];
      GenNode(stmts[i].lhs);
      if i + 1 < |stmts| && depth != 0 {
        Emit(OpDrop);
        Regroup(p, Code(stmts[i].lhs), [OpDrop]);
        depth := depth - 1;
      }
    }

    /** The loop of `gen_expr`: appends the code of the statement list with the drop rule,
        changes nothing else in the buffer, and leaves the depth `Emitted` ends with. */
    method GenStatements(stmts: seq<Node>)
      requires Statements(stmts) && depth == 0
      requires length + |Emitted(stmts, 0, 0).code| <= c.Length
      modifies c, this`length, this`depth
      ensures length == old(length) + |Emitted(stmts, 0, 0).code|
      ensures c[..length] == old(c[..length]) + Emitted(stmts, 0, 0).code
      ensures forall j :: length <= j < c.Length ==> c[j] == old(c[j])
      ensures depth == Emitted(stmts, 0, 0).depth
    {
      ghost var total := Emitted(stmts, 0, 0);
      ghost var start := c[..length];
      ghost var done: seq<byte> := [];
      var i := 0;
      while i < |stmts| && stmts[i].Node? && stmts[i].kind == ExprStmt
        invariant 0 <= i <= |stmts|
        invariant length == |start| + |done|
        invariant done + Emitted(stmts, i, depth).code == total.code
        invariant Emitted(stmts, i, depth).depth == total.depth
        invariant c[..length] == start + done
        invariant forall j :: length <= j < c.Length ==> c[j] == old(c[j])
        decreases |stmts| - i
      {
        ghost var piece := Piece(stmts, i, depth);
        RoundStep(stmts, i, depth, done, total);
        GenRound(stmts, i);
        Regroup(start, done, piece);
        done := done + piece;
        i := i + 1;
      }
    }
  }

  /** `gen_expr(node, byte_length, output_code)`: binds the generator to `output` at
      `byteLength` with depth 0, appends the code of the statement list there, and returns
      the new end of the code; no byte outside the appended code changes. */
  method GenExpr(stmts: seq<Node>, byteLength: nat, output: array<byte>) returns (byteLength': nat)
    requires Statements(stmts)
    requires byteLength + |Emitted(stmts, 0, 0).code| <= output.Length
    modifies output
    ensures byteLength' == byteLength + |Emitted(stmts, 0, 0).code|
    ensures output[..byteLength'] == old(output[..byteLength]) + Emitted(stmts, 0, 0).code
    ensures output[byteLength'..] == old(output[..])[byteLength'..]
  {
    var g := new CodeGen(output, byteLength);
    g.GenStatements(stmts);
    byteLength' := g.length;
  }
}
