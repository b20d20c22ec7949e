/**
 What several components use: optional values and the range of unsigned 64-bit integers.
 */
module Common {
  datatype Option<+T> = None | Some(value: T)

  const UINT64: nat := 0x1_0000_0000_0000_0000
}
