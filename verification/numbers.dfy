/** The fixed-width unsigned integers of the C++ source, as ranges of
    unbounded integers, and powers of two. */
module Numbers {
  const Pow32: nat := 0x1_0000_0000
  const Pow64: nat := 0x1_0000_0000_0000_0000

  /** `uint32_t` and `uint64_t`. */
  type U32 = x: nat | x < 0x1_0000_0000
  type U64 = x: nat | x < 0x1_0000_0000_0000_0000

  /** A non-zero power of two (`isPowerOf2_32`, `has_single_bit`). */
  predicate IsPowerOfTwo(n: nat)
    decreases n
  {
    n == 1 || (n >= 2 && n % 2 == 0 && IsPowerOfTwo(n / 2))
  }

  /** 2 to the power `k`. */
  function Pow2(k: nat): (r: nat)
    ensures r >= 1 && IsPowerOfTwo(r)
  {
    if k == 0 then 1 else 2 * Pow2(k - 1)
  }
}
