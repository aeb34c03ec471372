/** Bytes and 32-bit unsigned numbers. */
module MachineBytes {
  type Byte = b: int | 0 <= b < 256

  /** One more than the largest unsigned int. */
  const UINT_LIMIT := 0x1_0000_0000
}
