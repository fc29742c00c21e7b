/** Go's fixed-width integers, as ranges of int with the wrap-around written out. */
module GoInts {

  const TWO_32: int := 0x1_0000_0000
  const TWO_63: int := 0x8000_0000_0000_0000
  const TWO_64: int := 0x1_0000_0000_0000_0000

  /** Go's uint32, uint64 and int64. */
  type U32 = n: int | 0 <= n < 0x1_0000_0000
  type U64 = n: int | 0 <= n < 0x1_0000_0000_0000_0000
  type I64 = n: int | -0x8000_0000_0000_0000 <= n < 0x8000_0000_0000_0000

  /** Conversion of any integer to uint64: keep the low 64 bits. */
  function ToU64(i: int): U64 {
    i % TWO_64
  }

  /** Conversion of any integer to a 64-bit int: keep the low 64 bits, read as two's complement. */
  function ToInt64(i: int): int {
    if i % TWO_64 < TWO_63 then i % TWO_64 else i % TWO_64 - TWO_64
  }
}
