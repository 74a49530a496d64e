/** Types shared by every component: optional values, results and the machine's integer widths. */
module Prelude {
  datatype Option<+T> = None | Some(value: T)

  datatype Result<+T, +E> = Ok(value: T) | Err(error: E)

  const TWO64: nat := 0x1_0000_0000_0000_0000

  type u8 = x: int | 0 <= x < 0x100
  type u16 = x: int | 0 <= x < 0x1_0000
  type u32 = x: int | 0 <= x < 0x1_0000_0000
  type u64 = x: int | 0 <= x < 0x1_0000_0000_0000_0000

  /** Rust's `checked_add` on u64/usize. */
  function CheckedAdd(a: u64, b: nat): Option<u64> {
    if a + b < TWO64 then Some(a + b) else None
  }

  /** A little-endian 16-bit value out of two bytes. */
  function Word(low: u8, high: u8): u16 {
    low + 0x100 * high
  }
}
