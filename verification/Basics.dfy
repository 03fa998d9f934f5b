/** What many modules need: octets, 32-bit quantities, the smaller of two numbers, values that may be missing. */
module Basics {
  /** The unit of every buffer and of every stored number. */
  type Byte = x: int | 0 <= x < 0x100

  const WORD: nat := 0x1_0000_0000

  type u32 = x: int | 0 <= x < WORD

  datatype Option<T> = None | Some(value: T)

  function Min(a: nat, b: nat): (r: nat) {
    if a < b then a else b
  }
}
