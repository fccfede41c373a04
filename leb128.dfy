/** LEB128, the variable-length integers of section 5.2.2 (Integers) of the WebAssembly
    Core Specification: seven bits per byte, least significant group first, bit 7 set on
    every byte but the last. The encoders here are the specification functions of the two
    encoders of the source (the signed macro of `standard_functions.h` and the unsigned
    `EncodeLEB128` of `main.c`); the decoders are their independent partners. */
module Leb128 {
  import opened Defines

  function Pow128(k: nat): (r: nat)
    ensures r >= 1
  {
    if k == 0 then 1 else 128 * Pow128(k - 1)
  }

  /** Bit 6 of a byte (`byte & 0x40`): the sign of the last group of a signed encoding. */
  predicate Bit6(b: int) { b % 128 >= 64 }

  // ---------------------------------------------------------------- unsigned

  /** The bytes the unsigned encoder writes for `v`. */
  function ULeb(v: nat): (r: seq<byte>)
    ensures |r| >= 1
  {
    if v < 128 then [v] else [v % 128 + 128] + ULeb(v / 128)
  }

  /** Reads one unsigned LEB128 number at the start of `bs`: its value and how many bytes
      it occupies; `None` when `bs` ends before a byte with bit 7 clear. */
  function UDecode(bs: seq<byte>): (r: Option<(nat, nat)>)
    ensures r.Some? ==> 1 <= r.value.1 <= |bs|
  {
    if bs == [] then None
    else if bs[0] < 128 then Some((bs[0], 1))
    else match UDecode(bs[1..])
      case None => None
      case Some(d) => Some((bs[0] - 128 + 128 * d.0, d.1 + 1))
  }

  /** Decoding what the encoder wrote gives back the value, whatever follows it. */
  lemma {:induction false} ULebRoundTrip(v: nat, rest: seq<byte>)
    ensures UDecode(ULeb(v) + rest) == Some((v, |ULeb(v)|))
  {
    if v >= 128 {
      ULebRoundTrip(v / 128, rest);
      assert (ULeb(v) + rest)[1..] == ULeb(v / 128) + rest;
    }
  }

  /** Every byte but the last has bit 7 set, the last has it clear. */
  lemma {:induction false} ULebContinuation(v: nat)
    ensures forall i :: 0 <= i < |ULeb(v)| - 1 ==> ULeb(v)[i] >= 128
    ensures ULeb(v)[|ULeb(v)| - 1] < 128
  {
    if v >= 128 {
      ULebContinuation(v / 128);
      assert ULeb(v)[1..] == ULeb(v / 128);
    }
  }

  /** The length is the number of 7-bit groups of `v`, at least one: the least `k >= 1`
      with `v < 128^k`. */
  lemma {:induction false} ULebLength(v: nat)
    ensures v < Pow128(|ULeb(v)|)
    ensures |ULeb(v)| > 1 ==> Pow128(|ULeb(v)| - 1) <= v
  {
    if v >= 128 {
      ULebLength(v / 128);
    }
  }

  /** An `unsigned int` takes one to five bytes. */
  lemma ULebLengthU32(v: nat)
    requires IsU32(v)
    ensures 1 <= |ULeb(v)| <= 5
  {
    ULebLength(v);
    assert Pow128(5) == 34359738368;
    if |ULeb(v)| > 5 {
      PowMonotone(5, |ULeb(v)| - 1);
    }
  }

  lemma {:induction false} PowMonotone(i: nat, j: nat)
    requires i <= j
    ensures Pow128(i) <= Pow128(j)
  {
    if i < j {
      PowMonotone(i, j - 1);
    }
  }

  // ---------------------------------------------------------------- signed

  /** The signed encoder's loop test (`standard_functions.h`): go on while the shifted value
      is not yet the sign extension of the group just written. */
  predicate SignedContinue(rest: int, b: int) {
    (rest != 0 && !Bit6(b)) || (rest != -1 && Bit6(b))
  }

  /** The bytes the signed encoder writes for `v`. `v % 128` is the low seven bits of the
      two's complement pattern and `v / 128` the arithmetic shift, because Dafny's division
      rounds towards minus infinity for a positive divisor. */
  function SLeb(v: int): (r: seq<byte>)
    ensures |r| >= 1
    decreases if v >= 0 then v else -v
  {
    var b := v % 128;
    var rest := v / 128;
    if SignedContinue(rest, b) then
      assert if v >= 0 then 0 <= rest < v else v < rest <= 0 by { ShiftShrinks(v); }
      [b + 128] + SLeb(rest)
    else [b]
  }

  lemma ShiftShrinks(v: int)
    requires SignedContinue(v / 128, v % 128)
    ensures if v >= 0 then 0 <= v / 128 < v else v < v / 128 <= 0
  {
  }

  /** Reads one signed LEB128 number at the start of `bs`; the last group is sign-extended
      from its bit 6. */
  function SDecode(bs: seq<byte>): (r: Option<(int, nat)>)
    ensures r.Some? ==> 1 <= r.value.1 <= |bs|
  {
    if bs == [] then None
    else if bs[0] < 128 then
      var v: int := if bs[0] < 64 then bs[0] else bs[0] as int - 128;
      Some((v, 1))
    else match SDecode(bs[1..])
      case None => None
      case Some(d) => Some((bs[0] - 128 + 128 * d.0, d.1 + 1))
  }

  /** Decoding what the signed encoder wrote gives back the integer, whatever follows it. */
  lemma {:induction false} SLebRoundTrip(v: int, rest: seq<byte>)
    ensures SDecode(SLeb(v) + rest) == Some((v, |SLeb(v)|))
    decreases if v >= 0 then v else -v
  {
    var b, r := v % 128, v / 128;
    assert v == 128 * r + b;
    var bs := SLeb(v) + rest;
    if SignedContinue(r, b) {
      ShiftShrinks(v);
      SLebRoundTrip(r, rest);
      assert SLeb(v) == [b + 128] + SLeb(r);
      assert bs[0] == b + 128 && bs[1..] == SLeb(r) + rest;
    } else {
      assert SLeb(v) == [b];
      assert bs[0] == b && v == (if b < 64 then b else b - 128);
    }
  }

  /** Every byte but the last has bit 7 set, the last has it clear. */
  lemma {:induction false} SLebContinuation(v: int)
    ensures forall i :: 0 <= i < |SLeb(v)| - 1 ==> SLeb(v)[i] >= 128
    ensures SLeb(v)[|SLeb(v)| - 1] < 128
    decreases if v >= 0 then v else -v
  {
    if SignedContinue(v / 128, v % 128) {
      ShiftShrinks(v);
      SLebContinuation(v / 128);
      assert SLeb(v)[1..] == SLeb(v / 128);
    }
  }

  /** `k` signed groups hold exactly the integers in [-64 * 128^(k-1), 64 * 128^(k-1)). */
  predicate FitsGroups(v: int, k: nat)
    requires k >= 1
  {
    -64 * Pow128(k - 1) <= v < 64 * Pow128(k - 1)
  }

  /** The encoding is minimal: `v` fits its length and does not fit one group fewer. */
  lemma {:induction false} SLebMinimal(v: int)
    ensures FitsGroups(v, |SLeb(v)|)
    ensures |SLeb(v)| > 1 ==> !FitsGroups(v, |SLeb(v)| - 1)
    decreases if v >= 0 then v else -v
  {
    var b, rest := v % 128, v / 128;
    assert v == 128 * rest + b;
    if SignedContinue(rest, b) {
      ShiftShrinks(v);
      SLebMinimal(rest);
      var k := |SLeb(rest)|;
      assert |SLeb(v)| == k + 1;
      assert Pow128(k) == 128 * Pow128(k - 1);
      if k > 1 {
        assert Pow128(k - 1) == 128 * Pow128(k - 2);
      }
    }
  }

  /** An `int` takes one to five bytes. */
  lemma SLebLengthI32(v: int)
    requires IsI32(v)
    ensures 1 <= |SLeb(v)| <= 5
  {
    SLebMinimal(v);
    assert Pow128(4) == 268435456;
    if |SLeb(v)| > 5 {
      PowMonotone(4, |SLeb(v)| - 2);
    }
  }

  /** The encoder's worked examples. */
  lemma SLebExamples()
    ensures SLeb(0) == [0x00]
    ensures SLeb(-1) == [0x7F]
    ensures SLeb(63) == [0x3F]
    ensures SLeb(64) == [0xC0, 0x00]
    ensures SLeb(-64) == [0x40]
  {
  }
}
