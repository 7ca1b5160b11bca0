/** Datatypes shared by the modules: optional values and 32-bit quantities. */
module Wrappers {

  datatype Option<+T> = None | Some(value: T)

  const U32 := 0x1_0000_0000

  /** `usize`, `u32` and `uintptr_t` of the 32-bit target. */
  type u32 = x: int | 0 <= x < 0x1_0000_0000

  type byte = x: int | 0 <= x < 0x100

  function Min(a: int, b: int): int {
    if a < b then a else b
  }

  function Max(a: int, b: int): int {
    if a > b then a else b
  }

  /** Subtraction on unsigned 32-bit operands, which wraps. */
  function Sub32(a: u32, b: u32): u32 {
    if a >= b then a - b else a - b + U32
  }
}
