/** Go's `uint64`: unsigned 64-bit integers whose `+` and `*` wrap around silently. */
module UInt64 {

  const MAX: int := 0xFFFF_FFFF_FFFF_FFFF
  const MODULUS: int := 0x1_0000_0000_0000_0000

  type U64 = x: int | 0 <= x <= MAX

  /** `a + b` on uint64: the sum reduced modulo 2^64, so it wraps at most once. */
  function Add(a: U64, b: U64): (r: U64)
    ensures a + b <= MAX ==> r == a + b
    ensures a + b > MAX ==> r == a + b - MODULUS
  {
    (a + b) % MODULUS
  }

  /** `a * b` on uint64: the product reduced modulo 2^64. */
  function Mul(a: U64, b: U64): (r: U64)
    ensures a * b <= MAX ==> r == a * b
    ensures (r - a * b) % MODULUS == 0
  {
    (a * b) % MODULUS
  }

  /** Wrapping addition is commutative and associative, so a sum does not depend on the order of its terms. */
  lemma AddSwap(a: U64, b: U64, c: U64)
    ensures Add(a, Add(b, c)) == Add(b, Add(a, c))
    ensures Add(a, b) == Add(b, a)
    ensures Add(Add(a, b), c) == Add(a, Add(b, c))
  {
  }
}
