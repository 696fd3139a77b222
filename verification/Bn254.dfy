/** The BN254 scalar field, as the circuit and the program use it. */
module Bn254 {

  /** Order of the scalar field. */
  const P: int := 21888242871839275222246405745257275088548364400416034343698204186575808495617

  /** A canonical field element. */
  type Element = x: nat | x < P

  /** A 32-byte big-endian word, read as a number. Two byte arrays are equal exactly when their words are. */
  const WORD_BOUND: nat := 0x1_0000000000000000_0000000000000000_0000000000000000_0000000000000000
  type Word = x: nat | x < WORD_BOUND

  /** Output amounts are range-checked to 248 bits. */
  const AMOUNT_BOUND: nat := 0x1_00000000000000_0000000000000000_0000000000000000_0000000000000000

  const U64_MAX: nat := 0xFFFF_FFFF_FFFF_FFFF
  const I64_MIN: int := -0x8000_0000_0000_0000
  const I64_MAX: int := 0x7FFF_FFFF_FFFF_FFFF

  type U64 = x: nat | x <= U64_MAX
  type I64 = x: int | I64_MIN <= x <= I64_MAX

  /** Reduction modulo the field order, for any integer (negative ones wrap upwards). */
  function Reduce(x: int): (e: Element) {
    x % P
  }

  function Magnitude(x: int): nat {
    if x >= 0 then x else -x
  }

  function Pow2(n: nat): (p: nat)
    ensures p > 0
  {
    if n == 0 then 1 else 2 * Pow2(n - 1)
  }
}
