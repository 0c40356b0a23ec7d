/**
 * Rust's fixed-width integer semantics, as far as the codec needs them.
 * A Rust `i32` is held as its two's-complement bit pattern (`bv32`), so
 * `+` and `-` wrap exactly as the machine does; signed comparison and the
 * `as` casts the codec performs between integer widths are written out.
 */
module RustInt {

  /** `a <= b` on `i32`: flipping the sign bit maps two's complement order onto unsigned order. */
  predicate SignedLe(a: bv32, b: bv32) {
    (a ^ 0x8000_0000) <= (b ^ 0x8000_0000)
  }

  /** `v as u64` for an `i32` v: sign extension to 64 bits. */
  function I32ToU64(v: bv32): (w: bv64)
    ensures w & 0xFFFF_FFFF == v as bv64
    ensures SignedLe(0, v) ==> w == v as bv64
    ensures !SignedLe(0, v) ==> w >> 32 == 0xFFFF_FFFF
  {
    if v & 0x8000_0000 == 0 then v as bv64 else (v as bv64) | 0xFFFF_FFFF_0000_0000
  }

  /** `v as u16` for an `i32` v: keeps the low 16 bits. */
  function I32ToU16(v: bv32): (w: bv16)
    ensures w as bv32 == v & 0xFFFF
    ensures SignedLe(0, v) && SignedLe(v, 0xFFFF) ==> w as bv32 == v
  {
    (v & 0xFFFF) as bv16
  }
}
