/** The signed 64-bit integers of the `long` package. */
module Longs {

  const TWO_63: int := 0x8000_0000_0000_0000
  const TWO_64: int := 0x1_0000_0000_0000_0000

  type Long = x: int | -0x8000_0000_0000_0000 <= x < 0x8000_0000_0000_0000

  /** The non-negative values an entity ID accepts for shard, realm and num. */
  type IdPart = x: int | 0 <= x < 0x8000_0000_0000_0000

  /** The 64-bit two's-complement value with the same low 64 bits as `x`. */
  function Wrap(x: int): (r: Long)
    ensures -TWO_63 <= x < TWO_63 ==> r == x
    ensures r == x - Carry(x) * TWO_64
  {
    (x + TWO_63) % TWO_64 - TWO_63
  }

  /** How many times `x` overflows the signed 64-bit range. */
  ghost function Carry(x: int): int
  {
    (x + TWO_63) / TWO_64
  }

  function Add(a: Long, b: Long): (r: Long)
  {
    Wrap(a + b)
  }

  /** Equal modulo 2^64. */
  ghost predicate Congruent(a: int, b: int)
  {
    (a - b) % TWO_64 == 0
  }

  lemma MultipleApart(a: int, b: int, k: int)
    requires a == b + k * TWO_64
    ensures Congruent(a, b)
    ensures -TWO_63 <= a < TWO_63 ==> a == Wrap(b)
  {
  }
}
