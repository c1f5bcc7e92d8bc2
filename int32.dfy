/**
 Go's 32-bit signed integers. Arithmetic on `int32` in Go wraps around
 modulo 2^32 (two's complement); this module states that wrap-around
 explicitly over Dafny's unbounded integers.
 */
module Int32 {

  const Modulus: int := 0x1_0000_0000
  const Half: int := 0x8000_0000

  newtype int32 = x: int | -0x8000_0000 <= x < 0x8000_0000

  /** The int32 value Go ends up with when the mathematical result is `x`. */
  function Wrap(x: int): int32
  {
    ((x + Half) % Modulus - Half) as int32
  }

  /** Wrapping keeps the residue modulo 2^32 and leaves in-range values alone. */
  lemma WrapCongruent(x: int)
    ensures (Wrap(x) as int - x) % Modulus == 0
    ensures -Half <= x < Half ==> Wrap(x) as int == x
  {
  }

  /** Go's `a + b` on two int32 operands. */
  function Add(a: int32, b: int32): int32
  {
    Wrap(a as int + b as int)
  }

  /**
   Adding to a wrapped running total wraps the mathematical total: a running
   int32 sum equals the wrapped mathematical sum.
   */
  lemma AddWrapped(x: int, b: int32)
    ensures Add(Wrap(x), b) == Wrap(x + b as int)
  {
  }
}
