/** Shared vocabulary: the failure-compatible wrappers and Rust's fixed-width
    unsigned integers with the wrapping arithmetic the endpoint relies on. */
module Prelude {

  datatype Option<+T> = None | Some(value: T)

  datatype Result<+T, +E> = Ok(value: T) | Err(error: E)

  const MOD32: int := 0x1_0000_0000

  type u8 = x: int | 0 <= x < 0x100
  type u16 = x: int | 0 <= x < 0x1_0000
  type u32 = x: int | 0 <= x < 0x1_0000_0000

  /** `u32::wrapping_add`: the sum taken modulo 2^32. */
  function WrappingAdd(a: u32, b: u32): (r: u32)
    ensures a + b < MOD32 ==> r == a + b
    ensures a + b >= MOD32 ==> r == a + b - MOD32
  {
    (a + b) % MOD32
  }

  /** `u32::wrapping_sub`: the difference taken modulo 2^32. */
  function WrappingSub(a: u32, b: u32): (r: u32)
    ensures b <= a ==> r == a - b
    ensures a < b ==> r == a - b + MOD32
  {
    (a - b) % MOD32
  }

  /** Forward distance in sequence space: how many steps of +1 (mod 2^32)
      lead from `from` to `to`, i.e. (to - from) mod 2^32. */
  function Dist(from: u32, to: u32): (d: u32)
    ensures WrappingAdd(from, d) == to
    ensures d == 0 <==> from == to
  {
    (to - from) % MOD32
  }

  /** The forward distance is the only offset in [0, 2^32) that reaches `to`. */
  lemma DistUnique(from: u32, to: u32, d: u32)
    requires WrappingAdd(from, d) == to
    ensures Dist(from, to) == d
  {
    if from <= to {
      assert d == to - from;
    } else {
      assert d == to - from + MOD32;
    }
  }
}
