/**
 * The C++ unsigned types the tile library works with. Shifts and masks on them are
 * written as arithmetic: x << k is x * 2^k reduced to the width, x >> k is x / 2^k,
 * and x & 0xFF is x % 256.
 */
module FixedWidth {
  /** unsigned char */
  type byte = x: int | 0 <= x < 0x100

  /** uint32_t */
  type u32 = x: int | 0 <= x < 0x1_0000_0000

  /** std::min on int */
  function Min(a: int, b: int): int {
    if a < b then a else b
  }

  /** std::max on int */
  function Max(a: int, b: int): int {
    if a < b then b else a
  }

  /** Euclidean division is determined by its defining equation: helper for the bit-field proofs. */
  lemma DivModUnique(n: int, d: int, q: int, r: int)
    requires d > 0 && n == d * q + r && 0 <= r < d
    ensures n / d == q && n % d == r
  {
    var k := n / d - q;
    assert d * (n / d) + n % d == n;
    assert d * k == d * (n / d) - d * q;
    assert d * k == r - n % d;
  }
}
