/** Types shared by every part of the model. */
module Prelude {
  datatype Option<+T> = None | Some(value: T)

  /** The two ways a shared-memory or adapter call ends. */
  datatype Result<+T, +E> = Ok(value: T) | Err(error: E)

  /** An unsigned byte, as the mapping, the serial port and the CAN payloads store it. */
  type byte = x: int | 0 <= x < 256

  const U16_MAX: int := 0xFFFF
  const U32_MAX: int := 0xFFFF_FFFF
  const U64_MAX: int := 0xFFFF_FFFF_FFFF_FFFF

  type u32 = x: int | 0 <= x <= U32_MAX
  type u64 = x: int | 0 <= x <= U64_MAX

  function Min(a: int, b: int): int { if a <= b then a else b }

  /** Rust's checked `usize` arithmetic on a 64-bit target: `None` is overflow. */
  function CheckedAdd(a: nat, b: nat): Option<nat> {
    if a + b <= U64_MAX then Some(a + b) else None
  }

  function CheckedMul(a: nat, b: nat): Option<nat> {
    if a * b <= U64_MAX then Some(a * b) else None
  }
}
