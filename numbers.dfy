/** The machine numbers that appear in the two value models. */
module Numbers {

  const MinInt64: int := -0x8000_0000_0000_0000
  const MaxInt64: int := 0x7FFF_FFFF_FFFF_FFFF
  const MaxUInt64: int := 0xFFFF_FFFF_FFFF_FFFF
  /** 2^64, the modulus of 64-bit arithmetic. */
  const Modulus64: int := 0x1_0000_0000_0000_0000

  /** Rust's `i64`. */
  type Int64 = x: int | MinInt64 <= x <= MaxInt64

  /** Rust's `u64`. */
  type UInt64 = x: int | 0 <= x <= MaxUInt64

  /** Rust's `f64`, held as its IEEE-754 bit pattern. The model never computes
      with a float: it only stores one, or hands one to the formatter. */
  type Float64 = bv64

  /** Rust's `u as i64` for a `u64`: the same 64 bits read as two's complement.
      It wraps, it does not clamp: every `u` comes back as the one `i64` that is
      congruent to it modulo 2^64. */
  function WrapToInt64(u: UInt64): (r: Int64)
    ensures r % Modulus64 == u
    ensures u <= MaxInt64 ==> r == u
    ensures MaxInt64 < u ==> r < 0
  {
    if u <= MaxInt64 then u else u - Modulus64
  }

  /** The cast is the only `i64` with the bits of `u`, and no two `u64`s share one. */
  lemma WrapToInt64Injective(u: UInt64, v: UInt64, r: Int64)
    requires r % Modulus64 == u
    ensures r == WrapToInt64(u)
    ensures WrapToInt64(v) == WrapToInt64(u) ==> v == u
  {
  }
}
