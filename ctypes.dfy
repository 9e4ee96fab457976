/** The fixed-width unsigned integer types of the source, as bounded
    integers. Conversions into them are written out as reductions modulo
    the type's range where the source converts. */
module CTypes {

  const U32_RANGE: nat := 0x1_0000_0000
  const U64_RANGE: nat := 0x1_0000_0000_0000_0000

  /** uint32_t / DWORD */
  type uint32 = x: int | 0 <= x < 0x1_0000_0000

  /** uint64_t / size_t on a 64-bit target */
  type uint64 = x: int | 0 <= x < 0x1_0000_0000_0000_0000

  /** Conversion of any integer (signed or wider) to uint32_t: the value
      modulo 2^32, as two's-complement hardware keeps the low 32 bits. */
  function ToU32(x: int): (r: uint32)
    ensures 0 <= x < U32_RANGE ==> r == x
    ensures (r - x) % U32_RANGE == 0
  {
    x % U32_RANGE
  }

  /** Conversion of any integer to a 64-bit unsigned type. */
  function ToU64(x: int): (r: uint64)
    ensures 0 <= x < U64_RANGE ==> r == x
    ensures (r - x) % U64_RANGE == 0
  {
    x % U64_RANGE
  }
}
