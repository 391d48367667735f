/**
 * The C integer types of the image filter and the C conversions and operators
 * whose meaning differs from Dafny's mathematical integers.
 */
module CArith {
  /** `unsigned char`: one byte of a file or one colour channel. */
  type Byte = x: int | 0 <= x < 0x100
  /** `unsigned short int` (16 bits). */
  type U16 = x: int | 0 <= x < 0x1_0000
  /** `unsigned int` (32 bits). */
  type U32 = x: int | 0 <= x < 0x1_0000_0000
  /** `int` (32 bits, two's complement). */
  type I32 = x: int | -0x8000_0000 <= x < 0x8000_0000

  const TwoTo32: int := 0x1_0000_0000

  /**
   * Conversion of an `int` to `unsigned char`: the value modulo 256
   * (Dafny's `%` with a positive divisor is never negative, as C requires here).
   */
  function Narrow(x: int): (b: Byte)
    ensures (x - b) % 0x100 == 0
  {
    x % 0x100
  }

  /** Conversion of an `int` to `unsigned int`, as in a comparison of the two. */
  function ToU32(x: int): (u: U32)
    ensures (x - u) % TwoTo32 == 0
  {
    x % TwoTo32
  }

  function Abs(x: int): (y: nat)
    ensures y == x || y == -x
  {
    if x < 0 then -x else x
  }

  /**
   * C's `n / 8` on an `int`, which truncates toward zero: the quotient whose
   * product with 8 lies between 0 and `n` and misses `n` by less than 8.
   */
  function TruncDiv8(n: int): (q: int)
    ensures n >= 0 ==> 0 <= 8 * q <= n < 8 * q + 8
    ensures n < 0 ==> 8 * q - 8 < n <= 8 * q <= 0
  {
    if n >= 0 then n / 8 else -((-n) / 8)
  }

  /** Truncating division commutes with negation (Euclidean or floor division would not). */
  lemma TruncDiv8Negate(n: int)
    ensures TruncDiv8(-n) == -TruncDiv8(n)
  {
  }
}
