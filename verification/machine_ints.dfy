/** The fixed-width integer types of the x86_64 target, as ranges of `int`,
    and the `as` casts the code relies on, written out explicitly. */
module MachineInts {

  const TWO_32: int := 0x1_0000_0000
  const TWO_64: int := 0x1_0000_0000_0000_0000

  type u8 = x: int | 0 <= x < 0x100
  type u16 = x: int | 0 <= x < 0x1_0000
  type u32 = x: int | 0 <= x < 0x1_0000_0000
  type u64 = x: int | 0 <= x < 0x1_0000_0000_0000_0000
  /** `usize` on the 64-bit target. */
  type usize = u64
  type u128 = x: int | 0 <= x < 0x1_0000_0000_0000_0000_0000_0000_0000_0000
  type i32 = x: int | -0x8000_0000 <= x < 0x8000_0000
  type i64 = x: int | -0x8000_0000_0000_0000 <= x < 0x8000_0000_0000_0000
  /** `isize` on the 64-bit target. */
  type isize = i64

  /** `v as u32` for an `i32`: the same 32 bits read as unsigned. */
  function I32AsU32(v: i32): (r: u32)
    ensures (r - v) % TWO_32 == 0
    ensures v >= 0 ==> r == v
    ensures v < 0 <==> r >= 0x8000_0000
  {
    if v < 0 then v + TWO_32 else v
  }

  /** Different `i32` values stay different after the cast. */
  lemma I32AsU32Injective(a: i32, b: i32)
    requires I32AsU32(a) == I32AsU32(b)
    ensures a == b
  {
  }

  /** `v as i64` for a `u128`: the low 64 bits read as two's complement. */
  function U128AsI64(v: u128): (r: i64)
    ensures (r - v) % TWO_64 == 0
    ensures v < TWO_64 / 2 ==> r == v
  {
    var low := v % TWO_64;
    if low < TWO_64 / 2 then low else low - TWO_64
  }
}
