/** Integers modulo powers of two. */
module Arithmetic {
  /** What a shift leaves of a number: 32 bits with a sign. */
  function Int32(n: int): int {
    (n + 0x8000_0000) % 0x1_0000_0000 - 0x8000_0000
  }

  /** It is the number of 32 bits with a sign that differs by a multiple of 2^32. */
  lemma Int32Is(n: int)
    ensures -0x8000_0000 <= Int32(n) < 0x8000_0000 && (n - Int32(n)) % 0x1_0000_0000 == 0
  {
  }

  lemma Same256(a: int, b: int, k: int)
    requires a == b + 256 * k
    ensures a % 256 == b % 256
  {
  }
}
