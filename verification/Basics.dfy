/** Types and constants shared by the whole model. */
module Basics {

  datatype Option<+T> = None | Some(value: T)

  type Octet = x: int | 0 <= x < 256

  const TWO16: nat := 0x1_0000
  const TWO32: nat := 0x1_0000_0000
  const TWO64: nat := 0x1_0000_0000_0000_0000
  const UINT32_MAX: nat := 0xFFFF_FFFF
}
