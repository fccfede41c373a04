/** The module assembler of `main.c`: `compile` writes a WebAssembly module into the
    `compiled_code` buffer, namely the preamble and a type, a function, an export and a
    code section (section 5.5, Modules, of the WebAssembly Core Specification) around the
    body `i32.const n; end`, where `n` is `atoi` of the `compile_text` buffer. It also holds
    the unsigned LEB128 encoder, its length predictor, `atoi` and `get_int_byte_length`. */
module Assembler {
  import opened Defines
  import opened Leb128
  import opened Wasm
  import SF = StandardFunctions
  import SM = StackMachine

  // ---------------------------------------------------------------- the unsigned encoder

  /** `EncodeLEB128Length(value)`: the number of bytes the unsigned encoder writes for
      `value`, which is the number of 7-bit groups of `value`, at least one. */
  method EncodeLeb128Length(value: nat) returns (len: nat)
    requires IsU32(value)
    ensures len == |ULeb(value)|
    ensures value < Pow128(len) && (len > 1 ==> Pow128(len - 1) <= value)
    ensures 1 <= len <= 5
  {
    len := 1;
    var v := value;
    while true
      invariant 1 <= len && |ULeb(value)| == len - 1 + |ULeb(v)|
      decreases v
    {
      v := v / 128;
      if v == 0 {
        break;
      }
      len := len + 1;
    }
    ULebLength(value);
    ULebLengthU32(value);
  }

  /** `EncodeLEB128(src, value)`, the unsigned encoder: writes the unsigned LEB128 bytes of
      `value` at index `at` of `w` (every byte with bit 7 set, then bit 7 of the last one
      cleared); nothing else in `w` changes. */
  method EncodeLeb128(w: array<byte>, at: nat, value: nat)
    requires IsU32(value) && at + |ULeb(value)| <= w.Length
    modifies w
    ensures w[..] == old(w[..at]) + ULeb(value) + old(w[at + |ULeb(value)|..])
  {
    var v := value;
    var src := at;
    ghost var out: seq<byte> := [];
    while true
      invariant src == at + |out| && src + |ULeb(v)| <= w.Length
      invariant ULeb(value) == out + ULeb(v)
      invariant forall k :: at <= k < src ==> w[k] == out[k - at]
      invariant forall k :: 0 <= k < w.Length && !(at <= k < src) ==> w[k] == old(w[k])
      decreases v
    {
      var current: byte := v % 128;
      var rest := v / 128;
      current := current + 128;
      w[src] := current;
      src := src + 1;
      if rest == 0 {
        assert v < 128 && current == v + 128;
        assert src == at + |out| + 1;
        break;
      }
      UnsignedStep(value, out, v);
      out := out + [current];
      v := rest;
    }
    assert w[src - 1] == v + 128;
    w[src - 1] := w[src - 1] % 128;
    LastCleared(old(w[..]), w[..], at, out, v, value);
  }

  /** Clearing bit 7 of the last byte written completes the encoding of `value`. */
  lemma LastCleared(before: seq<byte>, now: seq<byte>, at: nat, out: seq<byte>, v: nat, value: nat)
    requires |before| == |now| && at + |out| < |now|
    requires v < 128 && ULeb(value) == out + ULeb(v)
    requires forall k :: at <= k < at + |out| ==> now[k] == out[k - at]
    requires now[at + |out|] == (v + 128) % 128
    requires forall k :: 0 <= k < |now| && !(at <= k <= at + |out|) ==> now[k] == before[k]
    ensures now == before[..at] + ULeb(value) + before[at + |ULeb(value)|..]
  {
    assert ULeb(v) == [v];
    var enc := ULeb(value);
    forall k | at <= k < at + |enc|
      ensures now[k] == enc[k - at]
    {
      if k < at + |out| {
        assert enc[k - at] == out[k - at];
      }
    }
    Spliced(before, now, at, enc);
  }

  /** A sequence that agrees with `before` except on `|enc|` places from `at`, where it
      holds `enc`, is `before` with `enc` spliced in at `at`. */
  lemma Spliced(before: seq<byte>, now: seq<byte>, at: nat, enc: seq<byte>)
    requires |before| == |now| && at + |enc| <= |now|
    requires forall k :: at <= k < at + |enc| ==> now[k] == enc[k - at]
    requires forall k :: 0 <= k < |now| && !(at <= k < at + |enc|) ==> now[k] == before[k]
    ensures now == before[..at] + enc + before[at + |enc|..]
  {
  }

  /** One round of the encoder's loop that goes on: the byte it writes, with bit 7 set,
      is the next byte of the encoding. */
  lemma UnsignedStep(value: nat, out: seq<byte>, v: nat)
    requires ULeb(value) == out + ULeb(v) && v >= 128
    ensures ULeb(value) == (out + [v % 128 + 128]) + ULeb(v / 128)
  {
  }

  /** The bytes written never pass for more than one encoding: every byte but the last
      has bit 7 set, and unsigned decoding gives the value back. */
  lemma UnsignedEncoding(value: nat, rest: seq<byte>)
    ensures forall i :: 0 <= i < |ULeb(value)| - 1 ==> ULeb(value)[i] >= 128
    ensures ULeb(value)[|ULeb(value)| - 1] < 128
    ensures UDecode(ULeb(value) + rest) == Some((value, |ULeb(value)|))
  {
    ULebContinuation(value);
    ULebRoundTrip(value, rest);
  }

  // ---------------------------------------------------------------- atoi and byte lengths

  /** `atoi(str)`: the value of the run of decimal digits at `str`, 0 when there is none,
      in the wrapping arithmetic of a 32-bit `int`. */
  method Atoi(s: seq<char>, str: nat) returns (num: int)
    requires str <= |s| && SF.RunEnds(s, str)
    ensures IsI32(num)
    ensures num == ToI32(SF.DecimalValue(s[str..SF.DigitsEnd(s, str)]))
  {
    num := 0;
    var i := str;
    SF.RunEndsInside(s, str);
    while IsDigit(s[i])
      invariant str <= i <= SF.DigitsEnd(s, str)
      invariant IsI32(num) && num == ToI32(SF.DecimalValue(s[str..i]))
      decreases |s| - i
    {
      ghost var before := s[str..i];
      assert s[str..i + 1][..i - str] == before;
      num := ToI32(num * 10);
      num := ToI32(num + SF.DigitValue(s[i]));
      AccumulateStep(SF.DecimalValue(before), SF.DigitValue(s[i]));
      i := i + 1;
    }
  }

  /** `x` and `y` are equal modulo 2^32. */
  predicate Congruent(x: int, y: int) { (x - y) % TWO32 == 0 }

  /** Values equal modulo 2^32 have the same `int` pattern. */
  lemma SamePattern(x: int, y: int)
    requires Congruent(x, y)
    ensures ToI32(x) == ToI32(y)
  {
    var k := (x - y) / TWO32;
    assert x == y + k * TWO32;
    assert x % TWO32 == y % TWO32;
  }

  lemma ScaleCongruent(x: int, y: int, c: int)
    requires Congruent(x, y)
    ensures Congruent(c * x, c * y)
  {
    var q := (x - y) / TWO32;
    assert x - y == q * TWO32;
    assert c * x - c * y == (c * q) * TWO32;
  }

  lemma TransCongruent(x: int, y: int, z: int)
    requires Congruent(x, y) && Congruent(y, z)
    ensures Congruent(x, z)
  {
    var p, q := (x - y) / TWO32, (y - z) / TWO32;
    assert x - y == p * TWO32 && y - z == q * TWO32;
    assert x - z == (p + q) * TWO32;
  }

  /** One step of `num = num * 10 + digit` in wrapping `int` arithmetic. */
  lemma AccumulateStep(v: nat, d: nat)
    ensures ToI32(ToI32(ToI32(v) * 10) + d) == ToI32(10 * v + d)
  {
    var w := ToI32(v);
    ScaleCongruent(w, v, 10);
    var t := ToI32(w * 10);
    TransCongruent(t, w * 10, 10 * v);
    assert Congruent(t + d, 10 * v + d);
    SamePattern(t + d, 10 * v + d);
  }

  /** `atoi` reads back the decimal spelling of any non-negative `int`, whatever non-digit
      follows it. */
  lemma AtoiReadsDecimal(v: nat, c: char, rest: seq<char>)
    requires v < TWO31 && !IsDigit(c)
    ensures var s := SF.DecimalString(v) + [c] + rest;
            SF.RunEnds(s, 0) && ToI32(SF.DecimalValue(s[..SF.DigitsEnd(s, 0)])) == v
  {
    var ds := SF.DecimalString(v);
    var s := ds + [c] + rest;
    assert s[|ds|] == c;
    DigitsEndAt(s, 0, |ds|);
    assert s[..|ds|] == ds;
    SF.DecimalRoundTrip(v);
  }

  /** A run of digits followed by a non-digit ends there. */
  lemma {:induction false} DigitsEndAt(s: seq<char>, i: nat, j: nat)
    requires i <= j < |s| && !IsDigit(s[j])
    requires forall k :: i <= k < j ==> IsDigit(s[k])
    ensures SF.DigitsEnd(s, i) == j && SF.RunEnds(s, i)
    decreases j - i
  {
    if i < j {
      DigitsEndAt(s, i + 1, j);
    }
  }

  /** `atoi` of text that does not start with a digit is 0. */
  lemma AtoiNoDigits(s: seq<char>, str: nat)
    requires str < |s| && !IsDigit(s[str])
    ensures ToI32(SF.DecimalValue(s[str..SF.DigitsEnd(s, str)])) == 0
  {
  }

  /** Byte `k` of the 32-bit pattern of `n`, byte 0 the least significant. */
  function ByteOf(n: int, k: nat): byte
    requires k < 4
  {
    (n % TWO32) / Pow256(k) % 256
  }

  function Pow256(k: nat): (r: nat)
    requires k <= 4
    ensures r >= 1
  {
    if k == 0 then 1 else if k == 1 then 0x100 else if k == 2 then 0x1_0000
    else if k == 3 then 0x100_0000 else 0x1_0000_0000
  }

  /** `get_int_byte_length(n)`: one more than the index of the highest non-zero byte of
      the 32-bit pattern of `n` (1 for zero); the pattern fits in that many bytes. */
  function GetIntByteLength(n: int): (r: nat)
    requires IsI32(n)
    ensures 1 <= r <= 4
    ensures r == 1 || ByteOf(n, r - 1) != 0
    ensures forall k :: r <= k < 4 ==> ByteOf(n, k) == 0
    ensures n % TWO32 < Pow256(r)
  {
    var u := n % TWO32;
    if u / 0x100_0000 % 256 != 0 then 4
    else if u / 0x1_0000 % 256 != 0 then 3
    else if u / 0x100 % 256 != 0 then 2
    else 1
  }

  // ---------------------------------------------------------------- the module format

  /** The preamble of a module: the magic `\0asm` and version 1 (section 5.5.16 of the
      WebAssembly Core Specification). */
  const Magic: seq<byte> := [0x00, 0x61, 0x73, 0x6D]
  const Version: seq<byte> := [0x01, 0x00, 0x00, 0x00]

  /** A section: its id and its contents. */
  datatype Section = Section(id: byte, contents: seq<byte>)

  /** A section as bytes: the id, the size of the contents in unsigned LEB128, then the
      contents. */
  function SectionBytes(s: Section): seq<byte> {
    [s.id] + ULeb(|s.contents|) + s.contents
  }

  function Sections(ss: seq<Section>): seq<byte>
    decreases |ss|
  {
    if ss == [] then [] else SectionBytes(ss[0]) + Sections(ss[1..])
  }

  function ModuleBytes(ss: seq<Section>): seq<byte> {
    Magic + Version + Sections(ss)
  }

  /** A function type `(params) -> (results)` over one-byte value types. */
  function FuncType(params: seq<byte>, results: seq<byte>): seq<byte>
    requires |params| < 128 && |results| < 128
  {
    [FuncTypeTag] + [|params|] + params + [|results|] + results
  }

  /** The name `main` as a WebAssembly name: its length, then its bytes. */
  const MainName: seq<byte> := [4, 'm' as int, 'a' as int, 'i' as int, 'n' as int]

  /** One function type, `() -> i32`. */
  const TypeSection: Section := Section(SectionType, [1] + FuncType([], [ValI32]))

  /** One function, of type 0. */
  const FuncSection: Section := Section(SectionFunc, [1, 0])

  /** One export: `main`, the function of index 0. */
  const ExportSection: Section := Section(SectionExport, [1] + MainName + [ExportFunc, 0])

  /** One function body: no locals, then `i32.const` with the immediate `imm`, then
      `end`. */
  function Body(imm: seq<byte>): seq<byte> {
    [0, OpI32Const] + imm + [OpEnd]
  }

  /** One code entry: the size of the body, then the body. */
  function CodeSection(body: seq<byte>): Section {
    Section(SectionCode, [1] + ULeb(|body|) + body)
  }

  function CompiledSections(imm: seq<byte>): seq<Section> {
    [TypeSection, FuncSection, ExportSection, CodeSection(Body(imm))]
  }

  /** The module `compile` writes for `n`: the immediate is `n` in unsigned LEB128. */
  function Assembled(n: nat): seq<byte> {
    ModuleBytes(CompiledSections(ULeb(n)))
  }

  /** The section ids strictly increase. */
  predicate Ascending(ss: seq<Section>) {
    forall i, j :: 0 <= i < j < |ss| ==> ss[i].id < ss[j].id
  }

  /** Reads the sections of a module after its preamble: an id, the size in unsigned
      LEB128, then exactly that many bytes of contents. */
  function ReadSections(bs: seq<byte>): Option<seq<Section>>
    decreases |bs|
  {
    if bs == [] then Some([])
    else match UDecode(bs[1..])
      case None => None
      case Some(size) =>
        var start := 1 + size.1;
        if start + size.0 > |bs| then None
        else match ReadSections(bs[start + size.0..])
          case None => None
          case Some(rest) => Some([Section(bs[0], bs[start..start + size.0])] + rest)
  }

  lemma ReadOne(s: Section, rest: seq<byte>)
    ensures ReadSections(SectionBytes(s) + rest) ==
            match ReadSections(rest) case None => None case Some(ss) => Some([s] + ss)
  {
    var bs := SectionBytes(s) + rest;
    var n := |s.contents|;
    assert bs[1..] == ULeb(n) + (s.contents + rest);
    ULebRoundTrip(n, s.contents + rest);
    var start := 1 + |ULeb(n)|;
    assert bs[start..start + n] == s.contents;
    assert bs[start + n..] == rest;
  }

  /** Reading the sections back gives each one with its contents: each size byte counts
      exactly the bytes of its section. */
  lemma {:induction false} SectionsRoundTrip(ss: seq<Section>)
    ensures ReadSections(Sections(ss)) == Some(ss)
    decreases |ss|
  {
    if ss != [] {
      ReadOne(ss[0], Sections(ss[1..]));
      SectionsRoundTrip(ss[1..]);
      assert [ss[0]] + ss[1..] == ss;
    }
  }

  /** The module `compile` writes starts with the preamble, and its sections read back as
      type, function, export and code, with ascending ids. */
  lemma CompiledModule(n: nat)
    ensures Assembled(n)[..8] == Magic + Version
    ensures ReadSections(Assembled(n)[8..]) == Some(CompiledSections(ULeb(n)))
    ensures Ascending(CompiledSections(ULeb(n)))
  {
    var ss := CompiledSections(ULeb(n));
    assert Assembled(n)[8..] == Sections(ss);
    SectionsRoundTrip(ss);
  }

  /** The module as the bytes `compile` stores one by one. */
  lemma AssembledBytes(n: nat)
    requires IsU32(n)
    ensures Assembled(n) == Magic + Version + TypeBytes + FuncBytes + ExportBytes + CodeBytes(n)
  {
    FixedSectionBytes();
    CodeSectionBytes(n);
    var ss := CompiledSections(ULeb(n));
    FourSections(ss);
    Regroup(Magic + Version, TypeBytes, FuncBytes, ExportBytes, CodeBytes(n));
  }

  const TypeBytes: seq<byte> := [SectionType, 5, 1, FuncTypeTag, 0, 1, ValI32]
  const FuncBytes: seq<byte> := [SectionFunc, 2, 1, 0]
  const ExportBytes: seq<byte> :=
    [SectionExport, 8, 1, 4, 'm' as int, 'a' as int, 'i' as int, 'n' as int, ExportFunc, 0]

  /** The code section as `compile` stores it: the section size and the body size are
      single bytes computed from the length `k` of the immediate. */
  function CodeBytes(n: nat): seq<byte>
    requires IsU32(n)
  {
    var k := |ULeb(n)|;
    ULebLengthU32(n);
    [SectionCode, 5 + k, 1, 3 + k, 0, OpI32Const] + ULeb(n) + [OpEnd]
  }

  /** The fixed sections as bytes: each size byte counts the bytes after it. */
  lemma FixedSectionBytes()
    ensures SectionBytes(TypeSection) == TypeBytes
    ensures SectionBytes(FuncSection) == FuncBytes
    ensures SectionBytes(ExportSection) == ExportBytes
  {
    assert ULeb(5) == [5] && ULeb(2) == [2] && ULeb(8) == [8];
  }

  lemma CodeSectionBytes(n: nat)
    requires IsU32(n)
    ensures SectionBytes(CodeSection(Body(ULeb(n)))) == CodeBytes(n)
  {
    var k := |ULeb(n)|;
    ULebLengthU32(n);
    var body := Body(ULeb(n));
    assert |body| == 3 + k;
    assert ULeb(3 + k) == [3 + k];
    var contents := [1] + ULeb(3 + k) + body;
    assert |contents| == 5 + k;
    assert ULeb(5 + k) == [5 + k];
    FlatCode(5 + k, 3 + k, ULeb(n));
  }

  lemma FlatCode(a: byte, b: byte, imm: seq<byte>)
    ensures [SectionCode] + [a] + ([1] + [b] + Body(imm)) == [SectionCode, a, 1, b, 0, OpI32Const] + imm + [OpEnd]
  {
  }

  lemma FourSections(ss: seq<Section>)
    requires |ss| == 4
    ensures Sections(ss) == SectionBytes(ss[0]) + (SectionBytes(ss[1]) + (SectionBytes(ss[2]) + SectionBytes(ss[3])))
  {
    var s1, s2, s3 := ss[1..], ss[2..], ss[3..];
    assert s1[0] == ss[1] && s1[1..] == s2 && s2[0] == ss[2] && s2[1..] == s3 && s3[0] == ss[3] && s3[1..] == [];
    assert Sections(s3) == SectionBytes(ss[3]) + [];
    assert Sections(s2) == SectionBytes(ss[2]) + Sections(s3);
    assert Sections(s1) == SectionBytes(ss[1]) + Sections(s2);
  }

  lemma Regroup(a: seq<byte>, b: seq<byte>, c: seq<byte>, d: seq<byte>, e: seq<byte>)
    ensures a + (b + (c + (d + e))) == a + b + c + d + e
  {
  }

  // ---------------------------------------------------------------- the assembler

  /** `WASM_header(c)`: writes the preamble at the start of `c` and returns its length. */
  method WasmHeader(c: array<byte>) returns (n: nat)
    requires c.Length >= 8
    modifies c
    ensures n == 8 && c[..] == Magic + Version + old(c[8..])
  {
    c[0] := 0;
    c[1] := 'a' as int;
    c[2] := 's' as int;
    c[3] := 'm' as int;
    c[4] := 1;
    c[5] := 0;
    c[6] := 0;
    c[7] := 0;
    Spliced(old(c[..]), c[..], 0, Magic + Version);
    n := 8;
  }

  /** A run of stores `c[0] = b0; c[1] = b1; ...` of the bytes `bs` through the write
      pointer `p`; returns the pointer moved past them. */
  method Put(c: array<byte>, p: nat, bs: seq<byte>) returns (p': nat)
    requires p + |bs| <= c.Length
    modifies c
    ensures p' == p + |bs|
    ensures c[..] == old(c[..p]) + bs + old(c[p + |bs|..])
  {
    var i := 0;
    while i < |bs|
      invariant 0 <= i <= |bs|
      invariant forall k :: 0 <= k < i ==> c[p + k] == bs[k]
      invariant forall k :: 0 <= k < c.Length && !(p <= k < p + i) ==> c[k] == old(c[k])
    {
      c[p + i] := bs[i];
      i := i + 1;
    }
    assert c[..] == old(c[..p]) + bs + old(c[p + |bs|..]);
    p' := p + |bs|;
  }

  /** `compile()`: writes the module for `(unsigned)atoi(compile_text)` at the start of
      `compiled_code` and returns its length, 36 bytes plus the length of the immediate. */
  method Compile(text: seq<char>, c: array<byte>) returns (size: nat)
    requires |text| == 1024 && SF.RunEnds(text, 0)
    requires c.Length == 1024
    modifies c
    ensures var n := ToI32(SF.DecimalValue(text[0..SF.DigitsEnd(text, 0)])) % TWO32;
            size == 36 + |ULeb(n)| && size <= c.Length &&
            c[..size] == Assembled(n) && c[size..] == old(c[size..])
  {
    ghost var o := c[..];
    var p := WasmHeader(c);
    ghost var done := Magic + Version;
    Started(o, c[..]);

    ghost var was, at := c[..], p;
    p := Put(c, p, TypeBytes);
    Advance(o, done, at, was, c[..], TypeBytes);
    done := done + TypeBytes;

    was, at := c[..], p;
    p := Put(c, p, FuncBytes);
    Advance(o, done, at, was, c[..], FuncBytes);
    done := done + FuncBytes;

    was, at := c[..], p;
    p := Put(c, p, ExportBytes);
    Advance(o, done, at, was, c[..], ExportBytes);
    done := done + ExportBytes;

    var num := Atoi(text, 0);
    var n := num % TWO32;
    ULebLengthU32(n);
    was, at := c[..], p;
    p := WriteCodeSection(c, p, n);
    Advance(o, done, at, was, c[..], CodeBytes(n));
    done := done + CodeBytes(n);
    size := p;

    Finish(o, done, c[..], n);
  }

  /** The code section of `compile()`: its id, the section size `5 + k` and the body size
      `3 + k`, where `k` is the length `EncodeLEB128Length` predicts for the immediate, one
      entry without locals, then `i32.const n` and `end`. Returns the position after it. */
  method WriteCodeSection(c: array<byte>, p: nat, n: nat) returns (p': nat)
    requires IsU32(n) && p + |CodeBytes(n)| <= c.Length
    modifies c
    ensures p' == p + |CodeBytes(n)|
    ensures c[..] == old(c[..p]) + CodeBytes(n) + old(c[p + |CodeBytes(n)|..])
  {
    ghost var o := c[..];
    var nbl := EncodeLeb128Length(n);
    var head := [SectionCode, 5 + nbl, 0x1, 3 + nbl, 0x0, OpI32Const];
    p' := Put(c, p, head);
    ghost var written := c[..];
    EncodeLeb128(c, p', n);
    ghost var encoded := c[..];
    p' := p' + nbl;
    p' := Put(c, p', [OpEnd]);
    SplicedTwice(o, written, encoded, p, head, ULeb(n));
    SplicedTwice(o, encoded, c[..], p, head + ULeb(n), [OpEnd]);
  }

  /** Storing `a` at `p` and then `b` right after it stores `a + b` at `p`. */
  lemma SplicedTwice(o: seq<byte>, mid: seq<byte>, now: seq<byte>, p: nat, a: seq<byte>, b: seq<byte>)
    requires p + |a| + |b| <= |o|
    requires mid == o[..p] + a + o[p + |a|..]
    requires now == mid[..p + |a|] + b + mid[p + |a| + |b|..]
    ensures now == o[..p] + (a + b) + o[p + |a + b|..]
  {
    assert mid[..p + |a|] == o[..p] + a;
    assert mid[p + |a| + |b|..] == o[p + |a| + |b|..];
  }

  /** After the preamble, what is done is the preamble and the rest is as it was. */
  lemma Started(o: seq<byte>, c: seq<byte>)
    requires |o| >= 8 && c == Magic + Version + o[8..]
    ensures c == (Magic + Version) + o[|Magic + Version|..]
  {
  }

  /** Storing `bs` at the end of what is done so far extends it by `bs`, and the bytes after
      are still the original ones. */
  lemma Advance(o: seq<byte>, done: seq<byte>, p: nat, was: seq<byte>, now: seq<byte>, bs: seq<byte>)
    requires p == |done| && p + |bs| <= |o| && was == done + o[p..]
    requires now == was[..p] + bs + was[p + |bs|..]
    ensures p + |bs| == |done + bs|
    ensures now == (done + bs) + o[p + |bs|..]
  {
    assert was[..|done|] == done;
    assert was[|done| + |bs|..] == o[|done| + |bs|..];
  }

  /** The bytes done at the end of `compile` are the module. */
  lemma Finish(o: seq<byte>, done: seq<byte>, c: seq<byte>, n: nat)
    requires IsU32(n) && |done| <= |o| && c == done + o[|done|..]
    requires done == Magic + Version + TypeBytes + FuncBytes + ExportBytes + CodeBytes(n)
    ensures |done| == 36 + |ULeb(n)|
    ensures c[..|done|] == Assembled(n) && c[|done|..] == o[|done|..]
  {
    AssembledBytes(n);
  }

  // ---------------------------------------------------------------- the i32.const immediate

  /** As written, the immediate of `i32.const` is the unsigned encoding, which a reader
      decodes as signed LEB128: a value from 64 to 127 reads back as itself minus 128, so
      the source text `64` yields a `main` that returns -64. */
  lemma UnsignedImmediateMisreads(n: nat)
    requires 64 <= n < 128
    ensures SM.Decode([OpI32Const] + ULeb(n)) == Some([SM.I32Const(n - 128)])
    ensures n - 128 != n
  {
    assert ULeb(n) == [n] && SLeb(n - 128) == [n];
    var ins := [SM.I32Const(n - 128)];
    SM.DecodeEncoded(ins);
    assert SM.EncAll(ins) == SM.Enc(ins[0]) + SM.EncAll([]);
  }

  /** Below 64 the unsigned and the signed encodings agree, so the as-written immediate is
      right there. */
  lemma ImmediateAgreesBelow64(n: nat)
    requires n < 64
    ensures ULeb(n) == SLeb(n)
  {
  }

  /** The module with the immediate written as the signed LEB128 of the `int` `num`, as
      `i32.const` requires. */
  function CorrectedModule(num: int): seq<byte> {
    ModuleBytes(CompiledSections(SLeb(num)))
  }

  /** In the corrected module the sections read back as before, and the immediate decodes
      to `num` for every `int`: `main` returns `num`. */
  lemma CorrectedImmediateReadsBack(num: int)
    requires IsI32(num)
    ensures ReadSections(CorrectedModule(num)[8..]) == Some(CompiledSections(SLeb(num)))
    ensures SM.Decode([OpI32Const] + SLeb(num)) == Some([SM.I32Const(num)])
  {
    var ss := CompiledSections(SLeb(num));
    assert CorrectedModule(num)[8..] == Sections(ss);
    SectionsRoundTrip(ss);
    var ins := [SM.I32Const(num)];
    SM.DecodeEncoded(ins);
    assert SM.EncAll(ins) == SM.Enc(ins[0]) + SM.EncAll([]);
    assert [OpI32Const] + SLeb(num) == SM.EncAll(ins);
  }
}
