/** Machine words of the target: 8-bit unsigned `char`, 32-bit `int` and `long` (Cortex-M). */
module Bytes {
  type byte = b: int | 0 <= b < 256

  const NUL: byte := 0
  const TAB: byte := 9
  const LF: byte := 10
  const CR: byte := 13
  const SPACE: byte := 32
  const MINUS: byte := 45
  const DOT: byte := 46
  const DIGIT_0: byte := 48
  const DIGIT_9: byte := 57
  const UPPER_A: byte := 65
  const LOWER_A: byte := 97

  const TWO_31: int := 0x8000_0000
  const TWO_32: int := 0x1_0000_0000
  const TWO_64: int := 0x1_0000_0000_0000_0000

  /** `unsigned int` arithmetic. */
  function U32(x: int): (u: nat)
    ensures u < TWO_32
    ensures 0 <= x < TWO_32 ==> u == x
  {
    x % TWO_32
  }

  /** `int` and `long` arithmetic, in two's complement. */
  function I32(x: int): (v: int)
    ensures -TWO_31 <= v < TWO_31
    ensures -TWO_31 <= x < TWO_31 ==> v == x
  {
    if U32(x) < TWO_31 then U32(x) else U32(x) - TWO_32
  }

  /** A value that a 32-bit long holds. */
  predicate IsLong(x: int) {
    -TWO_31 <= x < TWO_31
  }

  predicate IsDigit(c: int) {
    DIGIT_0 <= c <= DIGIT_9
  }

  /** What isspace accepts in the "C" locale. */
  predicate IsSpace(c: int) {
    c == SPACE || TAB <= c <= CR
  }
}
