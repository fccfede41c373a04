/** The string and memory primitives of `standard_functions.c` and the signed LEB128
    macro of `standard_functions.h`. A C pointer into a buffer is modelled as the buffer
    (a sequence or an array) together with an index into it. */
module StandardFunctions {
  import opened Defines
  import opened Leb128

  // ---------------------------------------------------------------- specification functions

  /** The index of the first NUL at or after `i`: where a C string starting at `i` ends. */
  function NulIndex(s: seq<char>, i: nat): (z: nat)
    requires i <= |s| && '\0' in s[i..]
    ensures i <= z < |s| && s[z] == '\0'
    ensures forall k :: i <= k < z ==> s[k] != '\0'
    decreases |s| - i
  {
    if s[i] == '\0' then i else NulIndex(s, i + 1)
  }

  /** `q` occurs in `s` at index `p`. */
  predicate Prefix(s: seq<char>, p: nat, q: string) {
    p + |q| <= |s| && s[p..p + |q|] == q
  }

  /** The end of the maximal run of decimal digits starting at `i`. */
  function DigitsEnd(s: seq<char>, i: nat): (j: nat)
    requires i <= |s|
    ensures i <= j <= |s|
    ensures forall k :: i <= k < j ==> IsDigit(s[k])
    ensures j < |s| ==> !IsDigit(s[j])
    decreases |s| - i
  {
    if i < |s| && IsDigit(s[i]) then DigitsEnd(s, i + 1) else i
  }

  /** A digit run starting at `i` ends inside `s` (C reads no further than that). */
  predicate RunEnds(s: seq<char>, i: nat) {
    exists j :: i <= j < |s| && !IsDigit(s[j])
  }

  function DigitValue(c: char): nat
    requires IsDigit(c)
  {
    c as int - '0' as int
  }

  /** The decimal value of a string of digits, read left to right. */
  function DecimalValue(ds: seq<char>): nat
    requires forall k :: 0 <= k < |ds| ==> IsDigit(ds[k])
  {
    if ds == [] then 0 else 10 * DecimalValue(ds[..|ds| - 1]) + DigitValue(ds[|ds| - 1])
  }

  /** The shortest decimal spelling of `v`: the reference partner of DecimalValue. */
  function DecimalString(v: nat): (ds: seq<char>)
    ensures |ds| >= 1 && forall k :: 0 <= k < |ds| ==> IsDigit(ds[k])
  {
    var d := ['0' + (v % 10) as char];
    if v < 10 then d else DecimalString(v / 10) + d
  }

  /** Reading back a decimal spelling gives the number; the spelling has no leading zero. */
  lemma {:induction false} DecimalRoundTrip(v: nat)
    ensures DecimalValue(DecimalString(v)) == v
    ensures |DecimalString(v)| > 1 ==> DecimalString(v)[0] != '0'
  {
    var ds := DecimalString(v);
    if v >= 10 {
      DecimalRoundTrip(v / 10);
      assert ds[..|ds| - 1] == DecimalString(v / 10);
    }
  }

  // ---------------------------------------------------------------- methods

  /** `memcpy`: the first `n` bytes of `dest` become those of `src`, the rest of `dest` is
      left alone, and `dest` is returned. */
  method Memcpy(dest: array<byte>, src: array<byte>, n: nat) returns (r: array<byte>)
    requires n <= dest.Length && n <= src.Length
    modifies dest
    ensures r == dest
    ensures dest[..] == old(src[..n]) + old(dest[n..])
  {
    var i := 0;
    while i < n
      invariant 0 <= i <= n
      invariant forall k :: 0 <= k < i ==> dest[k] == old(src[k])
      invariant forall k :: i <= k < src.Length ==> src[k] == old(src[k])
      invariant forall k :: n <= k < dest.Length ==> dest[k] == old(dest[k])
    {
      dest[i] := src[i];
      i := i + 1;
    }
    assert dest[..] == old(src[..n]) + old(dest[n..]);
    r := dest;
  }

  /** `strlen`: the number of bytes before the first NUL. */
  method Strlen(s: seq<char>) returns (n: nat)
    requires '\0' in s
    ensures n < |s| && s[n] == '\0'
    ensures forall k :: 0 <= k < n ==> s[k] != '\0'
  {
    n := 0;
    assert s == s[n..];
    while s[n] != '\0'
      invariant n < |s| && '\0' in s[n..]
      invariant forall k :: 0 <= k < n ==> s[k] != '\0'
      decreases |s| - n
    {
      n := n + 1;
      assert s[n - 1..] == [s[n - 1]] + s[n..];
    }
  }

  /** `startswith(p, q)`: the string `q` (a literal, without NUL) is a prefix of the string
      at `p`; true for the empty `q`. */
  method StartsWith(s: seq<char>, p: nat, q: string) returns (b: bool)
    requires p <= |s| && '\0' in s[p..]
    requires '\0' !in q
    ensures b <==> Prefix(s, p, q)
  {
    var i := 0;
    while i < |q|
      invariant 0 <= i <= |q|
      invariant p + i < |s| && '\0' in s[p + i..]
      invariant s[p..p + i] == q[..i]
    {
      if q[i] != s[p + i] {
        if p + |q| <= |s| {
          assert s[p..p + |q|][i] != q[i];
        }
        return false;
      }
      assert s[p + i..] == [s[p + i]] + s[p + i + 1..];
      assert s[p..p + i + 1] == s[p..p + i] + [s[p + i]];
      i := i + 1;
    }
    assert q[..i] == q;
    return true;
  }

  /** `str_lu(str, end)`: the value, modulo 2^32, of the digit run at `str` (0 when there is
      none); `*end` moves on by the number of digits read. */
  method StrLu(s: seq<char>, str: nat, end: nat) returns (num: int, end': nat)
    requires str <= |s| && RunEnds(s, str)
    ensures IsU32(num)
    ensures num == DecimalValue(s[str..DigitsEnd(s, str)]) % TWO32
    ensures end' == end + (DigitsEnd(s, str) - str)
  {
    num := 0;
    end' := end;
    var i := str;
    RunEndsInside(s, str);
    while IsDigit(s[i])
      invariant str <= i <= DigitsEnd(s, str)
      invariant IsU32(num) && num == DecimalValue(s[str..i]) % TWO32
      invariant end' == end + (i - str)
      decreases |s| - i
    {
      ghost var before := s[str..i];
      assert s[str..i + 1][..i - str] == before;
      num := (num * 10) % TWO32;
      num := (num + DigitValue(s[i])) % TWO32;
      WrapStep(DecimalValue(before), DigitValue(s[i]));
      i := i + 1;
      end' := end' + 1;
    }
  }

  /** A run that ends inside `s` ends before its last index. */
  lemma RunEndsInside(s: seq<char>, i: nat)
    requires i <= |s| && RunEnds(s, i)
    ensures DigitsEnd(s, i) < |s|
  {
    var j :| i <= j < |s| && !IsDigit(s[j]);
    assert j >= DigitsEnd(s, i);
  }

  /** One step of `num = num * 10 + digit` in `unsigned int` arithmetic. */
  lemma WrapStep(v: nat, d: nat)
    ensures ((v % TWO32) * 10 % TWO32 + d) % TWO32 == (10 * v + d) % TWO32
  {
    var r := v % TWO32;
    var s := r * 10;
    assert 10 * v + d == (10 * (v / TWO32)) * TWO32 + (s + d);
    ShiftMod(10 * (v / TWO32), s + d);
    assert s % TWO32 + d == s + d - (s / TWO32) * TWO32;
    ShiftMod(-(s / TWO32), s + d);
  }

  /** Adding a multiple of 2^32 does not change the remainder. */
  lemma ShiftMod(k: int, x: int)
    ensures (k * TWO32 + x) % TWO32 == x % TWO32
  {
    var q, r := x / TWO32, x % TWO32;
    assert k * TWO32 + x == (k + q) * TWO32 + r;
  }

  /** `EncodeLEB128(writeable, x, n_byte_length)`, the signed macro: writes the signed
      LEB128 bytes of the `int` `x` at index `at` of `w` and returns the counter `n` raised by
      exactly the number of bytes written; nothing else in `w` changes. */
  method EncodeLeb128(w: array<byte>, at: nat, x: int, n: nat) returns (n': nat)
    requires IsI32(x)
    requires at + |SLeb(x)| <= w.Length
    modifies w
    ensures n' == n + |SLeb(x)|
    ensures w[..] == old(w[..at]) + SLeb(x) + old(w[at + |SLeb(x)|..])
  {
    var src, byte;
    src, byte, n' := WriteGroups(w, at, x, n);
    ghost var grouped := w[..];
    ghost var last := byte;
    byte := byte - 128;
    w[src - 1] := byte;
    LastCleared(old(w[..]), grouped, w[..], at, SLeb(x), last);
  }

  /** The `do … while` loop of `EncodeLEB128`: every group of seven bits is stored with bit 7
      set and counted, until the rest of the value is only sign bits. Returns the position
      after the last byte and that byte, whose bit 7 is still set. */
  method WriteGroups(w: array<byte>, at: nat, x: int, n: nat) returns (src: nat, byte: byte, n': nat)
    requires IsI32(x)
    requires at + |SLeb(x)| <= w.Length
    modifies w
    ensures src == at + |SLeb(x)| && n' == n + |SLeb(x)|
    ensures byte as int == SLeb(x)[|SLeb(x)| - 1] as int + 128
    ensures w[..] == old(w[..at]) + SLeb(x)[..|SLeb(x)| - 1] + [byte] + old(w[src..])
  {
    var value := x;
    src := at;
    n' := n;
    ghost var out: seq<byte> := [];
    while true
      invariant src == at + |out| && src + |SLeb(value)| <= w.Length
      invariant SLeb(x) == out + SLeb(value)
      invariant n' == n + |out|
      invariant forall k :: 0 <= k < w.Length && !(at <= k < src) ==> w[k] == old(w[k])
      invariant forall k :: at <= k < src ==> w[k] == out[k - at]
      decreases Magnitude(value)
    {
      byte := value % 128 + 128;
      var shifted := value / 128;
      n' := n' + 1;
      w[src] := byte;
      src := src + 1;
      if !SignedContinue(shifted, byte) {
        EncodeLast(x, value, out);
        break;
      }
      EncodeMore(x, value, out);
      out := out + [byte];
      value := shifted;
    }
    Splice(old(w[..]), w[..], at, out, byte);
  }

  /** The array after the loop: the original with the groups `mid` and the last byte `c`
      spliced in at `at`. */
  lemma Splice(was: seq<byte>, now: seq<byte>, at: nat, mid: seq<byte>, c: byte)
    requires |now| == |was| && at + |mid| < |was|
    requires forall k :: 0 <= k < |now| && !(at <= k < at + |mid| + 1) ==> now[k] == was[k]
    requires forall k :: at <= k < at + |mid| ==> now[k] == mid[k - at]
    requires now[at + |mid|] == c
    ensures now == was[..at] + mid + [c] + was[at + |mid| + 1..]
  {
    assert forall k :: 0 <= k < |now| ==> now[k] == (was[..at] + mid + [c] + was[at + |mid| + 1..])[k];
  }

  /** Clearing bit 7 of the last byte the loop wrote completes the encoding `enc`. */
  lemma LastCleared(was: seq<byte>, grouped: seq<byte>, now: seq<byte>, at: nat, enc: seq<byte>, last: byte)
    requires |enc| >= 1 && at + |enc| <= |was|
    requires grouped == was[..at] + enc[..|enc| - 1] + [last] + was[at + |enc|..]
    requires now == grouped[at + |enc| - 1 := enc[|enc| - 1]]
    ensures now == was[..at] + enc + was[at + |enc|..]
  {
    assert enc == enc[..|enc| - 1] + [enc[|enc| - 1]];
  }

  /** A round of the signed encoder's loop that goes on: the byte it writes is the next
      byte of the encoding, bit 7 set, and the value shrinks. */
  lemma EncodeMore(x: int, value: int, out: seq<byte>)
    requires SLeb(x) == out + SLeb(value)
    requires SignedContinue(value / 128, value % 128 + 128)
    ensures SLeb(x) == (out + [value % 128 + 128]) + SLeb(value / 128)
    ensures Magnitude(value / 128) < Magnitude(value)
  {
    SLebStep(value);
    ShiftShrinks(value);
  }

  /** The last round of the signed encoder's loop: the byte it wrote, bit 7 cleared, ends
      the encoding. */
  lemma EncodeLast(x: int, value: int, out: seq<byte>)
    requires SLeb(x) == out + SLeb(value)
    requires !SignedContinue(value / 128, value % 128 + 128)
    ensures SLeb(x) == out + [value % 128]
  {
    SLebStep(value);
  }

  function Magnitude(v: int): nat { if v >= 0 then v else -v }

  /** One round of the signed encoder's loop. */
  lemma SLebStep(v: int)
    ensures SignedContinue(v / 128, v % 128 + 128) ==> SLeb(v) == [v % 128 + 128] + SLeb(v / 128)
    ensures !SignedContinue(v / 128, v % 128 + 128) ==> SLeb(v) == [v % 128]
  {
  }
}
