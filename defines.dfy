/** The character classes and integer widths of `defines.h`. */
module Defines {

  /** `u8` / `unsigned char`: one byte of a buffer. */
  type byte = b: int | 0 <= b < 256

  /** 2^32 and 2^31: the sizes of `unsigned int` and of the non-negative half of `int`. */
  const TWO32: int := 0x1_0000_0000
  const TWO31: int := 0x8000_0000

  /** A value of C's `int`. */
  type i32 = x: int | -0x8000_0000 <= x < 0x8000_0000

  datatype Option<T> = None | Some(value: T)

  /** An `unsigned int` value. */
  predicate IsU32(x: int) { 0 <= x < TWO32 }

  /** An `int` value (two's complement, 32 bits). */
  predicate IsI32(x: int) { -TWO31 <= x < TWO31 }

  /** The `int` holding the same 32-bit pattern as `x` (C's conversion from
      `unsigned int`, and the wrap-around of 32-bit arithmetic). */
  function ToI32(x: int): (r: int)
    ensures IsI32(r) && (r - x) % TWO32 == 0
  {
    var u := x % TWO32;
    if u < TWO31 then u else u - TWO32
  }

  /** `is_digit(c)` */
  predicate IsDigit(c: char) { c >= '0' && c <= '9' }

  /** `is_whitespace(c)` */
  predicate IsWhitespace(c: char) { c == ' ' || c == '\r' || c == '\n' || c == '\t' }

  /** `is_punct(c)`; the C macro lists `*` twice. */
  predicate IsPunct(c: char) {
    c == '+' || c == '-' || c == '/' || c == '*' || c == '(' || c == ')' || c == '>' ||
    c == '<' || c == ';' || c == '=' || c == '{' || c == '}' || c == '*' || c == '&' || c == ','
  }

  /** Letters and `!` are not punctuation; so a letter is refused by the lexer and `!` is
      accepted only as the first half of `!=`. */
  lemma PunctExcludesLettersAndBang(c: char)
    requires 'a' <= c <= 'z' || 'A' <= c <= 'Z' || c == '!'
    ensures !IsPunct(c) && !IsDigit(c) && !IsWhitespace(c)
  {
  }

  /** The three classes are pairwise disjoint and none holds the terminator, so the order in
      which the lexer tests them does not matter. */
  lemma ClassesDisjoint(c: char)
    ensures !(IsDigit(c) && IsWhitespace(c))
    ensures !(IsDigit(c) && IsPunct(c))
    ensures !(IsWhitespace(c) && IsPunct(c))
    ensures !IsDigit('\0') && !IsWhitespace('\0') && !IsPunct('\0')
  {
  }
}
