/** An interpreter for the instructions the generator emits, after the WebAssembly Core
    Specification restricted to `i32` values: code is first decoded into instructions
    (section 5.4, Instructions, of the binary format) and the instructions are then
    executed (section 4.4, Instructions, of the execution semantics). It is the independent
    partner of `Generator.Code`: running the code of an expression pushes its value, running
    the code of an assignment stores it, and running the code of a statement list leaves the
    value of its last statement on the stack. */
module StackMachine {
  import opened Defines
  import opened Leb128
  import opened Wasm
  import opened Ast
  import opened Generator

  /** The operand stack (top last) and the linear memory, as 32-bit words at word-aligned
      addresses; a word never stored reads as zero. */
  datatype Machine = Machine(stack: seq<int>, mem: map<int, int>)

  function Load(mem: map<int, int>, a: int): int {
    if a in mem then mem[a] else 0
  }

  /** The `unsigned int` reading of a 32-bit pattern. */
  function U32(x: int): int { x % TWO32 }

  function Push(m: Machine, v: int): Machine {
    m.(stack := m.stack + [v])
  }

  /** The binary instructions the generator uses. */
  predicate IsBinop(op: byte) {
    op == OpI32Add || op == OpI32Sub || op == OpI32Mul || op == OpI32DivU ||
    op == OpI32Eq || op == OpI32Ne || op == OpI32LtS || op == OpI32LeS || op == OpI32GtS || op == OpI32GeS
  }

  /** A binary instruction on `a` (below) and `b` (top): 32-bit wrapping arithmetic,
      unsigned division that traps (`None`) on a zero divisor, and 0/1 comparisons. */
  function Binop(op: byte, a: int, b: int): Option<int> {
    if op == OpI32Add then Some(ToI32(a + b))
    else if op == OpI32Sub then Some(ToI32(a - b))
    else if op == OpI32Mul then Some(ToI32(a * b))
    else if op == OpI32DivU then (if U32(b) == 0 then None else Some(ToI32(U32(a) / U32(b))))
    else if op == OpI32Eq then Some(if a == b then 1 else 0)
    else if op == OpI32Ne then Some(if a != b then 1 else 0)
    else if op == OpI32LtS then Some(if a < b then 1 else 0)
    else if op == OpI32LeS then Some(if a <= b then 1 else 0)
    else if op == OpI32GtS then Some(if a > b then 1 else 0)
    else if op == OpI32GeS then Some(if a >= b then 1 else 0)
    else None
  }

  // ---------------------------------------------------------------- instructions

  /** The instructions of this subset; a load or store carries the offset of its memory
      argument. */
  datatype Instr = I32Const(v: int) | Drop | I32Load(offset: nat) | I32Store(offset: nat) | Numeric(op: byte)

  /** Executes one instruction: `None` for a trap, a stack underflow or an unaligned
      access. */
  function Step(i: Instr, m: Machine): Option<Machine> {
    var s := m.stack;
    match i
    case I32Const(v) => Some(Push(m, v))
    case Drop => if |s| >= 1 then Some(m.(stack := s[..|s| - 1])) else None
    case I32Load(off) =>
      if |s| >= 1 && (U32(s[|s| - 1]) + off) % 4 == 0 then
        Some(m.(stack := s[..|s| - 1] + [Load(m.mem, U32(s[|s| - 1]) + off)]))
      else None
    case I32Store(off) =>
      if |s| >= 2 && (U32(s[|s| - 2]) + off) % 4 == 0 then
        Some(Machine(s[..|s| - 2], m.mem[U32(s[|s| - 2]) + off := s[|s| - 1]]))
      else None
    case Numeric(op) =>
      if |s| >= 2 then
        match Binop(op, s[|s| - 2], s[|s| - 1])
        case None => None
        case Some(v) => Some(m.(stack := s[..|s| - 2] + [v]))
      else None
  }

  /** Executes a straight-line instruction sequence. */
  function Exec(ins: seq<Instr>, m: Machine): Option<Machine>
    decreases |ins|
  {
    if ins == [] then Some(m)
    else match Step(ins[0], m)
      case None => None
      case Some(m') => Exec(ins[1..], m')
  }

  /** The rest of a sequence runs from where its first part stopped. */
  lemma {:induction false} ExecAppend(a: seq<Instr>, b: seq<Instr>, m: Machine)
    ensures Exec(a + b, m) == match Exec(a, m) case None => None case Some(m') => Exec(b, m')
    decreases |a|
  {
    if a == [] {
      assert a + b == b;
    } else {
      assert (a + b)[0] == a[0] && (a + b)[1..] == a[1..] + b;
      match Step(a[0], m)
      case None =>
      case Some(m') => ExecAppend(a[1..], b, m');
    }
  }

  // ---------------------------------------------------------------- the binary format

  /** The memory argument of a 4-byte load or store: an alignment exponent of at most 2,
      then the offset; the offset and the number of bytes the two occupy. */
  function MemArg(bs: seq<byte>): (r: Option<(nat, nat)>)
    ensures r.Some? ==> 2 <= r.value.1 <= |bs|
  {
    match UDecode(bs)
    case None => None
    case Some(align) =>
      if align.0 > 2 then None
      else match UDecode(bs[align.1..])
        case None => None
        case Some(off) => Some((off.0, align.1 + off.1))
  }

  /** Reads the instruction at the start of non-empty code and the number of bytes it
      occupies: `None` for a malformed or out-of-range immediate, or an opcode outside this
      set. */
  function Fetch(code: seq<byte>): (r: Option<(Instr, nat)>)
    requires code != []
    ensures r.Some? ==> 1 <= r.value.1 <= |code|
  {
    var op, rest := code[0], code[1..];
    if op == OpI32Const then
      match SDecode(rest)
      case None => None
      case Some(d) => if IsI32(d.0) then Some((I32Const(d.0), 1 + d.1)) else None
    else if op == OpDrop then Some((Drop, 1))
    else if op == OpI32Load then
      match MemArg(rest)
      case None => None
      case Some(arg) => Some((I32Load(arg.0), 1 + arg.1))
    else if op == OpI32Store then
      match MemArg(rest)
      case None => None
      case Some(arg) => Some((I32Store(arg.0), 1 + arg.1))
    else if IsBinop(op) then Some((Numeric(op), 1))
    else None
  }

  /** Decodes straight-line code into its instructions. */
  function Decode(code: seq<byte>): Option<seq<Instr>>
    decreases |code|
  {
    if code == [] then Some([])
    else match Fetch(code)
      case None => None
      case Some(f) =>
        match Decode(code[f.1..])
        case None => None
        case Some(ins) => Some([f.0] + ins)
  }

  /** Runs straight-line code: `None` when it does not decode or when it traps. */
  function Run(code: seq<byte>, m: Machine): Option<Machine> {
    match Decode(code)
    case None => None
    case Some(ins) => Exec(ins, m)
  }

  /** The bytes of one instruction: the opcode, then a signed LEB128 constant or the memory
      argument `02 offset` in unsigned LEB128. */
  function Enc(i: Instr): seq<byte> {
    match i
    case I32Const(v) => [OpI32Const] + SLeb(v)
    case Drop => [OpDrop]
    case I32Load(off) => [OpI32Load, Align4] + ULeb(off)
    case I32Store(off) => [OpI32Store, Align4] + ULeb(off)
    case Numeric(op) => [op]
  }

  function EncAll(ins: seq<Instr>): seq<byte>
    decreases |ins|
  {
    if ins == [] then [] else Enc(ins[0]) + EncAll(ins[1..])
  }

  /** The instructions the encoder can write so that they read back: an `i32` constant and
      a binary operation of this set. */
  predicate Encodable(i: Instr) {
    match i
    case I32Const(v) => IsI32(v)
    case Numeric(op) => IsBinop(op)
    case _ => true
  }

  predicate AllEncodable(ins: seq<Instr>) {
    forall k :: 0 <= k < |ins| ==> Encodable(ins[k])
  }

  lemma {:induction false} EncAllAppend(a: seq<Instr>, b: seq<Instr>)
    ensures EncAll(a + b) == EncAll(a) + EncAll(b)
    decreases |a|
  {
    if a == [] {
      assert a + b == b;
    } else {
      assert (a + b)[0] == a[0] && (a + b)[1..] == a[1..] + b;
      EncAllAppend(a[1..], b);
    }
  }

  /** Reading back one encoded instruction gives the instruction and its length, whatever
      follows it. */
  lemma FetchEnc(i: Instr, rest: seq<byte>)
    requires Encodable(i)
    ensures Fetch(Enc(i) + rest) == Some((i, |Enc(i)|))
  {
    match i
    case I32Const(v) => FetchConst(v, rest);
    case Drop =>
    case I32Load(off) => FetchMem(OpI32Load, off, rest);
    case I32Store(off) => FetchMem(OpI32Store, off, rest);
    case Numeric(op) =>
  }

  lemma FetchConst(v: int, rest: seq<byte>)
    requires IsI32(v)
    ensures Fetch([OpI32Const] + SLeb(v) + rest) == Some((I32Const(v), 1 + |SLeb(v)|))
  {
    var code := [OpI32Const] + SLeb(v) + rest;
    assert code[1..] == SLeb(v) + rest;
    SLebRoundTrip(v, rest);
  }

  lemma FetchMem(op: byte, off: nat, rest: seq<byte>)
    requires op == OpI32Load || op == OpI32Store
    ensures Fetch([op, Align4] + ULeb(off) + rest) ==
            Some((if op == OpI32Load then I32Load(off) else I32Store(off), 2 + |ULeb(off)|))
  {
    var code := [op, Align4] + ULeb(off) + rest;
    assert code[1..] == [Align4] + (ULeb(off) + rest);
    MemArgRoundTrip(off, rest);
  }

  lemma MemArgRoundTrip(off: nat, rest: seq<byte>)
    ensures MemArg([Align4] + (ULeb(off) + rest)) == Some((off, 1 + |ULeb(off)|))
  {
    var bs := [Align4] + (ULeb(off) + rest);
    assert UDecode(bs) == Some((2, 1));
    assert bs[1..] == ULeb(off) + rest;
    ULebRoundTrip(off, rest);
  }

  /** Prefixes the decoded instructions with `p`. */
  function Prepend(p: seq<Instr>, o: Option<seq<Instr>>): Option<seq<Instr>> {
    match o
    case None => None
    case Some(ins) => Some(p + ins)
  }

  /** Decoding one encoded instruction, then whatever follows it. */
  lemma DecodeOne(i: Instr, rest: seq<byte>)
    requires Encodable(i)
    ensures Decode(Enc(i) + rest) == Prepend([i], Decode(rest))
  {
    var code := Enc(i) + rest;
    FetchEnc(i, rest);
    assert code[|Enc(i)|..] == rest;
  }

  /** Decoding inverts encoding: the encoded instructions read back, and decoding goes on
      with whatever follows them. */
  lemma {:induction false} DecodeEncAll(ins: seq<Instr>, rest: seq<byte>)
    requires AllEncodable(ins)
    ensures Decode(EncAll(ins) + rest) == Prepend(ins, Decode(rest))
    decreases |ins|
  {
    if ins == [] {
      EncAllEmpty(ins, rest);
      PrependEmpty(Decode(rest));
    } else {
      var i, tail := ins[0], ins[1..];
      EncAllCons(ins, rest);
      DecodeOne(i, EncAll(tail) + rest);
      DecodeEncAll(tail, rest);
      PrependTwice([i], tail, Decode(rest));
      assert [i] + tail == ins;
    }
  }

  lemma EncAllEmpty(ins: seq<Instr>, rest: seq<byte>)
    requires ins == []
    ensures EncAll(ins) + rest == rest
  {
  }

  lemma EncAllCons(ins: seq<Instr>, rest: seq<byte>)
    requires ins != []
    ensures EncAll(ins) + rest == Enc(ins[0]) + (EncAll(ins[1..]) + rest)
  {
  }

  lemma PrependEmpty(o: Option<seq<Instr>>)
    ensures Prepend([], o) == o
  {
    if o.Some? { assert [] + o.value == o.value; }
  }

  lemma PrependTwice(p: seq<Instr>, q: seq<Instr>, o: Option<seq<Instr>>)
    ensures Prepend(p, Prepend(q, o)) == Prepend(p + q, o)
  {
    if o.Some? { assert p + (q + o.value) == (p + q) + o.value; }
  }

  lemma DecodeEncoded(ins: seq<Instr>)
    requires AllEncodable(ins)
    ensures Decode(EncAll(ins)) == Some(ins)
  {
    DecodeEncAll(ins, []);
    assert EncAll(ins) + [] == EncAll(ins);
    assert ins + [] == ins;
  }

  // ---------------------------------------------------------------- expressions

  /** What an operator of the source means on 32-bit values: the operation the generator
      chose for it (unsigned division, signed comparisons). */
  function Apply(k: NodeKind, a: int, b: int): Option<int>
    requires IsBinary(k)
  {
    match k
    case Add => Some(ToI32(a + b))
    case Sub => Some(ToI32(a - b))
    case Mul => Some(ToI32(a * b))
    case Div => if U32(b) == 0 then None else Some(ToI32(U32(a) / U32(b)))
    case Eq => Some(if a == b then 1 else 0)
    case Ne => Some(if a != b then 1 else 0)
    case Lt => Some(if a < b then 1 else 0)
    case Le => Some(if a <= b then 1 else 0)
    case Gt => Some(if a > b then 1 else 0)
    case Ge => Some(if a >= b then 1 else 0)
  }

  /** The opcode table is right: each binary node's instruction computes its operator. */
  lemma OpcodeMeans(k: NodeKind, a: int, b: int)
    requires IsBinary(k)
    ensures IsBinop(Opcode(k)) && Binop(Opcode(k), a, b) == Apply(k, a, b)
  {
  }

  /** The value of an expression without assignment, left operand first; `None` when a
      division by zero traps. */
  function Eval(e: Node, mem: map<int, int>): Option<int>
    requires IsExpr(e) && NoAssign(e)
  {
    if e.kind == Num then Some(e.val)
    else if e.kind == Var then Some(Load(mem, OffsetByte(e.name)))
    else if e.kind == Neg then
      match Eval(e.lhs, mem)
      case None => None
      case Some(v) => Some(ToI32(-v))
    else
      match Eval(e.lhs, mem)
      case None => None
      case Some(a) =>
        match Eval(e.rhs, mem)
        case None => None
        case Some(b) => Apply(e.kind, a, b)
  }

  /** The offset byte an assignment stores at: that of its left-hand side's name. */
  function Target(e: Node): byte
    requires IsExpr(e) && e.kind == Assign
  {
    assert IsExpr(e.lhs);
    OffsetByte(e.lhs.name)
  }

  /** The instructions the code of a tree encodes. */
  function Instrs(e: Node): seq<Instr>
    requires IsExpr(e)
  {
    if e.kind == Num then [I32Const(e.val)]
    else if e.kind == Neg then Instrs(e.lhs) + [I32Const(-1), Numeric(OpI32Mul)]
    else if e.kind == Var then [I32Const(0), I32Load(OffsetByte(e.name))]
    else if e.kind == Assign then [I32Const(0)] + Instrs(e.rhs) + [I32Store(Target(e))]
    else Instrs(e.lhs) + Instrs(e.rhs) + [Numeric(Opcode(e.kind))]
  }

  /** Every offset byte the code of `e` carries reads back as a one-byte immediate. */
  predicate NamesFit(e: Node)
    requires IsExpr(e)
  {
    if e.kind == Num then true
    else if e.kind == Var then OffsetByte(e.name) < 128
    else if e.kind == Neg then NamesFit(e.lhs)
    else if e.kind == Assign then Target(e) < 128 && NamesFit(e.rhs)
    else NamesFit(e.lhs) && NamesFit(e.rhs)
  }

  /** Names `a` to `z` and the zero name of a non-variable node all fit. */
  lemma NameFits(c: char)
    requires 'a' <= c <= 'z' || c == '\0'
    ensures OffsetByte(c) < 128 && OffsetByte(c) % 4 == 0
  {
  }

  lemma OffsetAligned(c: char)
    ensures OffsetByte(c) % 4 == 0
  {
  }

  /** The bytes `_gen_expr` writes for a tree are the encoding of its instructions, when
      every offset byte fits in one LEB128 byte. */
  lemma {:induction false} CodeEncodes(e: Node)
    requires IsExpr(e) && NamesFit(e)
    ensures Code(e) == EncAll(Instrs(e)) && AllEncodable(Instrs(e))
    decreases Size(e), 1
  {
    if e.kind == Num {
      EncodesLeaf([I32Const(e.val)]);
    } else if e.kind == Var {
      VarEncodes(e);
    } else if e.kind == Neg {
      NegEncodes(e);
    } else if e.kind == Assign {
      AssignEncodes(e);
    } else {
      BinaryEncodes(e);
    }
  }

  lemma VarEncodes(e: Node)
    requires IsExpr(e) && NamesFit(e) && e.kind == Var
    ensures Code(e) == EncAll(Instrs(e)) && AllEncodable(Instrs(e))
  {
    var off := OffsetByte(e.name);
    assert SLeb(0) == [0] && ULeb(off) == [off];
    EncodesLeaf([I32Const(0), I32Load(off)]);
  }

  lemma {:induction false} NegEncodes(e: Node)
    requires IsExpr(e) && NamesFit(e) && e.kind == Neg
    ensures Code(e) == EncAll(Instrs(e)) && AllEncodable(Instrs(e))
    decreases Size(e), 0
  {
    CodeEncodes(e.lhs);
    var tail := [I32Const(-1), Numeric(OpI32Mul)];
    assert IsI32(-1);
    EncodesAppend(Instrs(e.lhs), tail);
    EncodesLeaf(tail);
  }

  lemma {:induction false} AssignEncodes(e: Node)
    requires IsExpr(e) && NamesFit(e) && e.kind == Assign
    ensures Code(e) == EncAll(Instrs(e)) && AllEncodable(Instrs(e))
    decreases Size(e), 0
  {
    CodeEncodes(e.rhs);
    var off := Target(e);
    assert SLeb(0) == [0] && ULeb(off) == [off];
    EncodesLeaf([I32Const(0)]);
    EncodesLeaf([I32Store(off)]);
    assert EncAll([I32Const(0)]) == [OpI32Const, 0];
    assert EncAll([I32Store(off)]) == [OpI32Store, Align4, off];
    EncodesAppend([I32Const(0)], Instrs(e.rhs));
    EncodesAppend([I32Const(0)] + Instrs(e.rhs), [I32Store(off)]);
  }

  lemma {:induction false} BinaryEncodes(e: Node)
    requires IsExpr(e) && NamesFit(e) && IsBinary(e.kind)
    ensures Code(e) == EncAll(Instrs(e)) && AllEncodable(Instrs(e))
    decreases Size(e), 0
  {
    CodeEncodes(e.lhs);
    CodeEncodes(e.rhs);
    var op := [Numeric(Opcode(e.kind))];
    EncodesLeaf(op);
    EncodesAppend(Instrs(e.lhs), Instrs(e.rhs));
    EncodesAppend(Instrs(e.lhs) + Instrs(e.rhs), op);
  }

  /** The encoding of one or two instructions is their bytes in order. */
  lemma EncodesLeaf(ins: seq<Instr>)
    requires 1 <= |ins| <= 2
    ensures EncAll(ins) == if |ins| == 1 then Enc(ins[0]) else Enc(ins[0]) + Enc(ins[1])
  {
    assert EncAll(ins[1..]) == if |ins| == 1 then [] else Enc(ins[1]) + EncAll(ins[1..][1..]);
    if |ins| == 2 {
      assert EncAll(ins[1..][1..]) == [];
    }
  }

  lemma EncodesAppend(a: seq<Instr>, b: seq<Instr>)
    ensures EncAll(a + b) == EncAll(a) + EncAll(b)
    ensures AllEncodable(a) && AllEncodable(b) ==> AllEncodable(a + b)
  {
    EncAllAppend(a, b);
  }

  /** Pushes the value of an expression, or traps when it is `None`. */
  function Pushed(o: Option<int>, m: Machine): Option<Machine> {
    match o
    case None => None
    case Some(v) => Some(Push(m, v))
  }

  /** Executing the instructions of an expression without assignment pushes its value and
      leaves the memory as it was, or traps exactly when evaluating it traps. */
  lemma {:induction false} ExprExec(e: Node, m: Machine)
    requires IsExpr(e) && NoAssign(e)
    ensures Exec(Instrs(e), m) == Pushed(Eval(e, m.mem), m)
    decreases Size(e)
  {
    if e.kind == Num {
      assert Exec(Instrs(e), m) == Exec([], Push(m, e.val));
    } else if e.kind == Var {
      var off := OffsetByte(e.name);
      OffsetAligned(e.name);
      var m0 := Push(m, 0);
      assert Exec(Instrs(e), m) == Exec([I32Load(off)], m0);
      var s := m0.stack;
      assert s[..|s| - 1] == m.stack && s[|s| - 1] == 0;
      assert Exec([I32Load(off)], m0) == Exec([], Push(m, Load(m.mem, off)));
    } else if e.kind == Neg {
      var tail := [I32Const(-1), Numeric(OpI32Mul)];
      ExecAppend(Instrs(e.lhs), tail, m);
      ExprExec(e.lhs, m);
      if Eval(e.lhs, m.mem).Some? {
        NegStep(m, Eval(e.lhs, m.mem).value);
      }
    } else {
      var op := [Numeric(Opcode(e.kind))];
      ExecAppend(Instrs(e.lhs) + Instrs(e.rhs), op, m);
      ExecAppend(Instrs(e.lhs), Instrs(e.rhs), m);
      ExprExec(e.lhs, m);
      if Eval(e.lhs, m.mem).Some? {
        var a := Eval(e.lhs, m.mem).value;
        ExprExec(e.rhs, Push(m, a));
        if Eval(e.rhs, m.mem).Some? {
          BinaryStep(e.kind, m, a, Eval(e.rhs, m.mem).value);
        }
      }
    }
  }

  /** `i32.const -1; i32.mul` negates the top of the stack. */
  lemma NegStep(m: Machine, v: int)
    ensures Exec([I32Const(-1), Numeric(OpI32Mul)], Push(m, v)) == Some(Push(m, ToI32(-v)))
  {
    var ins := [I32Const(-1), Numeric(OpI32Mul)];
    var m1 := Push(Push(m, v), -1);
    assert Exec(ins, Push(m, v)) == Exec([Numeric(OpI32Mul)], m1);
    var s := m1.stack;
    assert s[..|s| - 2] == m.stack && s[|s| - 2] == v && s[|s| - 1] == -1;
    assert v * -1 == -v;
    assert Exec([Numeric(OpI32Mul)], m1) == Exec([], Push(m, ToI32(-v)));
  }

  /** A binary node's instruction, over its two operands, pushes what its operator means. */
  lemma BinaryStep(k: NodeKind, m: Machine, a: int, b: int)
    requires IsBinary(k)
    ensures Exec([Numeric(Opcode(k))], Push(Push(m, a), b)) == Pushed(Apply(k, a, b), m)
  {
    OpcodeMeans(k, a, b);
    var s := Push(Push(m, a), b).stack;
    assert s[..|s| - 2] == m.stack && s[|s| - 2] == a && s[|s| - 1] == b;
  }

  /** Stores the value of an assignment's right-hand side, or traps when it is `None`. */
  function Stored(o: Option<int>, off: int, m: Machine): Option<Machine> {
    match o
    case None => None
    case Some(v) => Some(m.(mem := m.mem[off := v]))
  }

  /** Executing the instructions of an assignment whose right-hand side has no assignment
      stores the value at the offset of the left-hand side's name and leaves the stack as it
      was. */
  lemma AssignExec(e: Node, m: Machine)
    requires IsExpr(e) && e.kind == Assign && NoAssign(e.rhs)
    ensures Exec(Instrs(e), m) == Stored(Eval(e.rhs, m.mem), Target(e), m)
  {
    var off, r := Target(e), Instrs(e.rhs);
    var head, store := [I32Const(0)], [I32Store(off)];
    ExecAppend(head + r, store, m);
    ExecAppend(head, r, m);
    ExecOne(I32Const(0), m);
    ExprExec(e.rhs, Push(m, 0));
    if Eval(e.rhs, m.mem).Some? {
      assert IsExpr(e.lhs); OffsetAligned(e.lhs.name);
      StoreStep(off, m, Eval(e.rhs, m.mem).value);
    }
  }

  lemma ExecOne(i: Instr, m: Machine)
    ensures Exec([i], m) == Step(i, m)
  {
    if Step(i, m).Some? {
      assert Exec([i], m) == Exec([], Step(i, m).value);
    }
  }

  /** `i32.store 2 off` over the base address 0 and a value stores the value at `off`. */
  lemma StoreStep(off: nat, m: Machine, v: int)
    requires off % 4 == 0
    ensures Exec([I32Store(off)], Push(Push(m, 0), v)) == Some(m.(mem := m.mem[off := v]))
  {
    var s := Push(Push(m, 0), v).stack;
    assert s[..|s| - 2] == m.stack && s[|s| - 2] == 0 && s[|s| - 1] == v;
    ExecOne(I32Store(off), Push(Push(m, 0), v));
  }

  /** Running the code `_gen_expr` writes for an expression without assignment pushes its
      value and leaves the memory as it was, or traps exactly when evaluating it traps. */
  lemma CodeRuns(e: Node, m: Machine)
    requires IsExpr(e) && NoAssign(e) && NamesFit(e)
    ensures Run(Code(e), m) == Pushed(Eval(e, m.mem), m)
  {
    CodeEncodes(e);
    DecodeEncoded(Instrs(e));
    ExprExec(e, m);
  }

  /** Running the code of an assignment whose right-hand side has no assignment stores its
      value and leaves the stack as it is. */
  lemma AssignRuns(e: Node, m: Machine)
    requires IsExpr(e) && e.kind == Assign && NoAssign(e.rhs) && NamesFit(e)
    ensures Run(Code(e), m) == Stored(Eval(e.rhs, m.mem), Target(e), m)
  {
    CodeEncodes(e);
    DecodeEncoded(Instrs(e));
    AssignExec(e, m);
  }

  // ---------------------------------------------------------------- statement lists

  /** A statement the machine can run: an expression without assignment, or an assignment
      whose right-hand side has none. */
  predicate Simple(e: Node)
    requires IsExpr(e)
  {
    (NoAssign(e) || (e.kind == Assign && NoAssign(e.rhs))) && NamesFit(e)
  }

  predicate Runnable(stmts: seq<Node>) {
    Statements(stmts) && forall k :: 0 <= k < |stmts| ==> Simple(stmts[k].lhs)
  }

  /** The meaning of a statement list from `i` on: assignments update the memory, and the
      value of the last statement is the result when it is an expression; the memory at the
      end and the values left. */
  function Interp(stmts: seq<Node>, i: nat, mem: map<int, int>): Option<(map<int, int>, seq<int>)>
    requires i <= |stmts| && Runnable(stmts)
    decreases |stmts| - i
  {
    if i == |stmts| then Some((mem, []))
    else
      var e := stmts[i].lhs;
      if e.kind == Assign then
        match Eval(e.rhs, mem)
        case None => None
        case Some(v) => Interp(stmts, i + 1, mem[Target(e) := v])
      else
        match Eval(e, mem)
        case None => None
        case Some(v) => if i + 1 == |stmts| then Some((mem, [v])) else Interp(stmts, i + 1, mem)
  }

  /** The machine a statement list ends in when started on stack `s`: the values it leaves
      pushed on `s`, and its final memory. */
  function Outcome(stmts: seq<Node>, i: nat, s: seq<int>, mem: map<int, int>): Option<Machine>
    requires i <= |stmts| && Runnable(stmts)
  {
    match Interp(stmts, i, mem)
    case None => None
    case Some(r) => Some(Machine(s + r.1, r.0))
  }

  /** The instructions of the statements from `i` on: each statement's, then a `drop` where
      the generator writes one. */
  function ProgInstrs(stmts: seq<Node>, i: nat): seq<Instr>
    requires i <= |stmts| && Statements(stmts)
    decreases |stmts| - i
  {
    if i == |stmts| then []
    else
      var e := stmts[i].lhs;
      Instrs(e) + (if Drops(stmts, i, Net(e)) then [Drop] else []) + ProgInstrs(stmts, i + 1)
  }

  /** What `gen_expr` writes for a runnable statement list is the encoding of its
      instructions: the depth is zero before every statement, since an expression raises
      it by one and is dropped, and an assignment leaves it as it is. */
  lemma {:induction false} EmittedEncodes(stmts: seq<Node>, i: nat)
    requires i <= |stmts| && Runnable(stmts)
    ensures Emitted(stmts, i, 0).code == EncAll(ProgInstrs(stmts, i))
    ensures AllEncodable(ProgInstrs(stmts, i))
    decreases |stmts| - i
  {
    if i < |stmts| {
      var e := stmts[i].lhs;
      var drop := if Drops(stmts, i, Net(e)) then [Drop] else [];
      var later := ProgInstrs(stmts, i + 1);
      EmittedEncodes(stmts, i + 1);
      CodeEncodes(e);
      DropEncodes(drop);
      assert Piece(stmts, i, 0) == Code(e) + EncAll(drop);
      if i + 1 < |stmts| {
        if e.kind == Assign { NetNoAssign(e.rhs); } else { NetNoAssign(e); }
        assert After(stmts, i, 0) == 0;
      }
      assert Emitted(stmts, i, 0).code == Piece(stmts, i, 0) + EncAll(later);
      assert ProgInstrs(stmts, i) == Instrs(e) + drop + later;
      EncodesAppend(Instrs(e), drop);
      EncodesAppend(Instrs(e) + drop, later);
    }
  }

  lemma DropEncodes(drop: seq<Instr>)
    requires drop == [] || drop == [Drop]
    ensures EncAll(drop) == if drop == [] then [] else [OpDrop]
    ensures AllEncodable(drop)
  {
    if drop != [] {
      assert EncAll(drop) == Enc(Drop) + EncAll([]);
    }
  }

  /** Executing the instructions of a statement list computes its meaning: the values it
      leaves are pushed on the stack it started from. */
  lemma {:induction false} ProgExec(stmts: seq<Node>, i: nat, s: seq<int>, mem: map<int, int>)
    requires i <= |stmts| && Runnable(stmts)
    ensures Exec(ProgInstrs(stmts, i), Machine(s, mem)) == Outcome(stmts, i, s, mem)
    decreases |stmts| - i, 1
  {
    if i == |stmts| {
      assert s + [] == s;
    } else if stmts[i].lhs.kind == Assign {
      AssignStatementExec(stmts, i, s, mem);
    } else {
      ExprStatementExec(stmts, i, s, mem);
    }
  }

  /** `ProgExec` at an assignment statement: its store, then the statements after it on the
      updated memory. */
  lemma {:induction false} AssignStatementExec(stmts: seq<Node>, i: nat, s: seq<int>, mem: map<int, int>)
    requires i < |stmts| && Runnable(stmts) && stmts[i].lhs.kind == Assign
    ensures Exec(ProgInstrs(stmts, i), Machine(s, mem)) == Outcome(stmts, i, s, mem)
    decreases |stmts| - i, 0
  {
    var e := stmts[i].lhs;
    var m := Machine(s, mem);
    NetNoAssign(e.rhs);
    assert !Drops(stmts, i, Net(e));
    var rest := ProgInstrs(stmts, i + 1);
    assert ProgInstrs(stmts, i) == Instrs(e) + [] + rest;
    ExecAppend(Instrs(e) + [], rest, m);
    assert Instrs(e) + [] == Instrs(e);
    AssignExec(e, m);
    if Eval(e.rhs, mem).Some? {
      ProgExec(stmts, i + 1, s, mem[Target(e) := Eval(e.rhs, mem).value]);
    }
  }

  /** `ProgExec` at an expression statement: its value is pushed, then dropped when a
      statement follows, or left as the result. */
  lemma {:induction false} ExprStatementExec(stmts: seq<Node>, i: nat, s: seq<int>, mem: map<int, int>)
    requires i < |stmts| && Runnable(stmts) && stmts[i].lhs.kind != Assign
    ensures Exec(ProgInstrs(stmts, i), Machine(s, mem)) == Outcome(stmts, i, s, mem)
    decreases |stmts| - i, 0
  {
    var e := stmts[i].lhs;
    var m := Machine(s, mem);
    var drop := if Drops(stmts, i, Net(e)) then [Drop] else [];
    var rest := ProgInstrs(stmts, i + 1);
    ExecAppend(Instrs(e) + drop, rest, m);
    ExecAppend(Instrs(e), drop, m);
    NetNoAssign(e);
    ExprExec(e, m);
    if Eval(e, mem).Some? {
      var v := Eval(e, mem).value;
      if i + 1 < |stmts| {
        assert (s + [v])[..|s|] == s;
        ExecOne(Drop, Push(m, v));
        ProgExec(stmts, i + 1, s, mem);
      } else {
        assert rest == [] && drop == [];
      }
    }
  }

  /** The depth counter `gen_expr` ends with is the number of values the statement list
      leaves. */
  lemma {:induction false} DepthCounts(stmts: seq<Node>, i: nat, mem: map<int, int>)
    requires i <= |stmts| && Runnable(stmts)
    ensures Interp(stmts, i, mem).Some? ==> Emitted(stmts, i, 0).depth == |Interp(stmts, i, mem).value.1|
    decreases |stmts| - i
  {
    if i < |stmts| {
      var e := stmts[i].lhs;
      if e.kind == Assign {
        NetNoAssign(e.rhs);
        if Eval(e.rhs, mem).Some? {
          DepthCounts(stmts, i + 1, mem[Target(e) := Eval(e.rhs, mem).value]);
        }
      } else {
        NetNoAssign(e);
        DepthCounts(stmts, i + 1, mem);
      }
    }
  }

  /** Running what `gen_expr` emits for a statement list computes its meaning: the values
      it leaves are pushed on the stack it started from, and the depth counter ends at the
      number of them. */
  lemma ProgramRuns(stmts: seq<Node>, s: seq<int>, mem: map<int, int>)
    requires Runnable(stmts)
    ensures Run(Emitted(stmts, 0, 0).code, Machine(s, mem)) == Outcome(stmts, 0, s, mem)
    ensures Interp(stmts, 0, mem).Some? ==> Emitted(stmts, 0, 0).depth == |Interp(stmts, 0, mem).value.1|
  {
    EmittedEncodes(stmts, 0);
    DecodeEncoded(ProgInstrs(stmts, 0));
    ProgExec(stmts, 0, s, mem);
    DepthCounts(stmts, 0, mem);
  }

  /** A program of expression statements, run from an empty stack, returns the value of its
      last statement: every earlier value is dropped. */
  lemma ReturnsLastValue(stmts: seq<Node>, mem: map<int, int>)
    requires Runnable(stmts) && |stmts| >= 1
    requires forall k :: 0 <= k < |stmts| ==> NoAssign(stmts[k].lhs)
    requires forall k :: 0 <= k < |stmts| ==> Eval(stmts[k].lhs, mem).Some?
    ensures Run(Emitted(stmts, 0, 0).code, Machine([], mem)) == Some(Machine([Eval(stmts[|stmts| - 1].lhs, mem).value], mem))
  {
    ProgramRuns(stmts, [], mem);
    InterpPure(stmts, 0, mem);
    assert [] + [Eval(stmts[|stmts| - 1].lhs, mem).value] == [Eval(stmts[|stmts| - 1].lhs, mem).value];
  }

  lemma {:induction false} InterpPure(stmts: seq<Node>, i: nat, mem: map<int, int>)
    requires Runnable(stmts) && i < |stmts|
    requires forall k :: 0 <= k < |stmts| ==> NoAssign(stmts[k].lhs)
    requires forall k :: 0 <= k < |stmts| ==> Eval(stmts[k].lhs, mem).Some?
    ensures Interp(stmts, i, mem) == Some((mem, [Eval(stmts[|stmts| - 1].lhs, mem).value]))
    decreases |stmts| - i
  {
    if i + 1 < |stmts| {
      InterpPure(stmts, i + 1, mem);
    }
  }

  // ---------------------------------------------------------------- nested assignment

  /** A nested assignment, as the parser builds it for `1=2=3;`, lowers the depth counter
      below zero, and its code underflows the stack: the outer store finds one value. */
  lemma NestedAssignUnderflows(mem: map<int, int>)
    ensures var one := Node(Num, Null, Null, 1, '\0');
            var two := Node(Num, Null, Null, 2, '\0');
            var three := Node(Num, Null, Null, 3, '\0');
            var e := Node(Assign, one, Node(Assign, two, three, 0, '\0'), 0, '\0');
            IsExpr(e) && Net(e) == -1 && Run(Code(e), Machine([], mem)) == None
  {
    var one := Node(Num, Null, Null, 1, '\0');
    var e := Node(Assign, one, Node(Assign, Node(Num, Null, Null, 2, '\0'), Node(Num, Null, Null, 3, '\0'), 0, '\0'), 0, '\0');
    assert OffsetByte('\0') == 124;
    assert NamesFit(e);
    CodeEncodes(e);
    DecodeEncoded(Instrs(e));
    NestedExec(e, mem);
  }

  /** The instructions of an assignment whose right-hand side is itself an assignment: the
      inner store takes the base and the value pushed before it, so the outer store finds
      the stack empty, whatever the value. */
  lemma NestedExec(e: Node, mem: map<int, int>)
    requires IsExpr(e) && e.kind == Assign && e.rhs.Node? && e.rhs.kind == Assign
    requires IsExpr(e.rhs.rhs) && NoAssign(e.rhs.rhs)
    ensures Exec(Instrs(e), Machine([], mem)) == None
  {
    var nested := e.rhs;
    var head, store := [I32Const(0)], [I32Store(Target(e))];
    assert Instrs(e) == (head + Instrs(nested)) + store;
    ExecAppend(head + Instrs(nested), store, Machine([], mem));
    ExecAppend(head, Instrs(nested), Machine([], mem));
    ExecOne(I32Const(0), Machine([], mem));
    assert Push(Machine([], mem), 0) == Machine([0], mem);
    AssignExec(nested, Machine([0], mem));
    match Eval(nested.rhs, mem)
    case None =>
    case Some(v) => ExecOne(I32Store(Target(e)), Machine([0], mem[Target(nested) := v]));
  }

  // ---------------------------------------------------------------- assignment as an operand

  /** An assignment used as an operand, as the parser builds it for `1+(2=3);`: the depth
      counter counts no value for the statement, and its code underflows the stack, because
      the store leaves nothing for the addition. */
  lemma OperandAssignUnderflows(mem: map<int, int>)
    ensures var one := Node(Num, Null, Null, 1, '\0');
            var two := Node(Num, Null, Null, 2, '\0');
            var three := Node(Num, Null, Null, 3, '\0');
            var e := Node(Add, one, Node(Assign, two, three, 0, '\0'), 0, '\0');
            IsExpr(e) && Net(e) == 0 && Run(Code(e), Machine([], mem)) == None
  {
    var one := Node(Num, Null, Null, 1, '\0');
    var e := Node(Add, one, Node(Assign, Node(Num, Null, Null, 2, '\0'), Node(Num, Null, Null, 3, '\0'), 0, '\0'), 0, '\0');
    assert OffsetByte('\0') == 124;
    assert NamesFit(e);
    CodeEncodes(e);
    DecodeEncoded(Instrs(e));
    OperandAssignExec(e, mem);
  }

  /** The instructions of a binary operation whose right operand is an assignment: the
      assignment pushes nothing, so the operation finds only the left operand's value on
      the stack and fails, whatever the values. */
  lemma {:induction false} OperandAssignExec(e: Node, mem: map<int, int>)
    requires IsExpr(e) && IsBinary(e.kind) && NoAssign(e.lhs)
    requires e.rhs.Node? && e.rhs.kind == Assign && IsExpr(e.rhs.rhs) && NoAssign(e.rhs.rhs)
    ensures Exec(Instrs(e), Machine([], mem)) == None
  {
    var l, r, op := e.lhs, e.rhs, [Numeric(Opcode(e.kind))];
    var m0 := Machine([], mem);
    assert Instrs(e) == (Instrs(l) + Instrs(r)) + op;
    ExecAppend(Instrs(l) + Instrs(r), op, m0);
    ExecAppend(Instrs(l), Instrs(r), m0);
    ExprExec(l, m0);
    if Eval(l, mem).Some? {
      var m1 := Machine([Eval(l, mem).value], mem);
      assert Push(m0, Eval(l, mem).value) == m1;
      AssignExec(r, m1);
      if Eval(r.rhs, mem).Some? {
        var m2 := m1.(mem := mem[Target(r) := Eval(r.rhs, mem).value]);
        assert Exec(Instrs(l) + Instrs(r), m0) == Some(m2);
        OneOperandTraps(op[0], m2);
      }
    }
  }

  /** A binary instruction with one value on the stack underflows. */
  lemma {:induction false} OneOperandTraps(i: Instr, m: Machine)
    requires i.Numeric? && |m.stack| == 1
    ensures Exec([i], m) == None
  {
    ExecOne(i, m);
  }
}
