/** What several modules share: optional values, bytes and 32-bit words. */
module Basics {
  datatype Option<+T> = None | Some(value: T)

  type byte = x: int | 0 <= x < 256

  const UINT32 := 0x1_0000_0000

  /** Two bytes as a number, high byte first. */
  function Pair(high: int, low: int): int {
    256 * high + low
  }
}
