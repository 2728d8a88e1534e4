/**
  Rust's fixed-width unsigned integers and the `wrapping_*` operations on
  them, written out over unbounded integers: a `u64` is an integer in
  [0, 2^64) and a wrapping operation reduces the exact result modulo 2^64.
 */
module Wrapping {

  /** 2^64, the modulus of every `u64` operation. */
  const MODULUS: int := 0x1_0000_0000_0000_0000

  newtype u8 = x: int | 0 <= x < 0x100

  newtype u64 = x: int | 0 <= x < 0x1_0000_0000_0000_0000

  /** `a.wrapping_mul(b)`: the product reduced modulo 2^64. It never fails,
      and it is the exact product whenever that fits in 64 bits. */
  function WrappingMul(a: u64, b: u64): (r: u64)
    ensures (a as int * b as int - r as int) % MODULUS == 0
    ensures a as int * b as int < MODULUS ==> r as int == a as int * b as int
  {
    var p := a as int * b as int;
    Reduce(p);
    (p % MODULUS) as u64
  }

  /** `a.wrapping_add(b)`: the sum reduced modulo 2^64. It never fails, and it
      is the exact sum whenever that fits in 64 bits. */
  function WrappingAdd(a: u64, b: u64): (r: u64)
    ensures (a as int + b as int - r as int) % MODULUS == 0
    ensures a as int + b as int < MODULUS ==> r as int == a as int + b as int
    ensures a as int + b as int >= MODULUS ==> r as int == a as int + b as int - MODULUS
  {
    var p := a as int + b as int;
    Reduce(p);
    (p % MODULUS) as u64
  }

  /** Reducing a non-negative integer modulo 2^64 subtracts a multiple of
      2^64, and nothing at all from an integer that already fits. */
  lemma Reduce(p: int)
    ensures (p - p % MODULUS) % MODULUS == 0
    ensures 0 <= p < MODULUS ==> p % MODULUS == p
  {
    assert p - p % MODULUS == (p / MODULUS) * MODULUS;
  }

  /** Two integers that differ by a multiple of 2^64 leave the same
      remainder modulo 2^64. */
  lemma ModCongruent(u: int, v: int)
    requires (u - v) % MODULUS == 0
    ensures u % MODULUS == v % MODULUS
  {
  }

  /** Reducing the operands of `x * k + y` modulo 2^64 first does not change
      the result modulo 2^64. */
  lemma ModMulAdd(x: int, k: int, y: int)
    ensures ((x % MODULUS) * k + y % MODULUS) % MODULUS == (x * k + y) % MODULUS
  {
    var qx, qy := x / MODULUS, y / MODULUS;
    assert x == qx * MODULUS + x % MODULUS;
    assert x * k == (x % MODULUS) * k + (qx * k) * MODULUS;
    ModCongruent(x * k + y, (x % MODULUS) * k + y % MODULUS);
  }
}
