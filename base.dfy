/**
 * Shared machine vocabulary: the optional result the kernel signals with a
 * NULL pointer, and unsigned 64-bit integers as they are held in `uint64_t`.
 */
module Base {

  /** A value that may be absent, as a C pointer that may be NULL. */
  datatype Option<+T> = None | Some(value: T)

  /** 2^64, the modulus of `uint64_t` arithmetic. */
  const U64_MODULUS: int := 0x1_0000_0000_0000_0000

  /** The values of a `uint64_t`. */
  type u64 = x: int | 0 <= x < U64_MODULUS

  /** The values of a `uint8_t`. */
  type u8 = x: int | 0 <= x < 0x100

  /** The values of a `uint16_t`. */
  type u16 = x: int | 0 <= x < 0x1_0000

  /** The values of a `uint32_t`. */
  type u32 = x: int | 0 <= x < 0x1_0000_0000

  /** `uint64_t` addition and subtraction wrap around modulo 2^64. */
  function Wrap64(x: int): (r: u64)
    ensures 0 <= x < U64_MODULUS ==> r == x
    ensures (r - x) % U64_MODULUS == 0
  {
    x % U64_MODULUS
  }
}
