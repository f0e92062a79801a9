/** Small shared types: the nullable value of a column slot and the
    unsigned 32-bit integers that categorical codes are stored as. */
module Wrappers {

  /** A nullable slot: `None` is a null entry of the column. */
  datatype Option<+T> = None | Some(value: T)

  const U32_MAX: int := 0xFFFF_FFFF

  /** An unsigned 32-bit integer (Rust `u32`). */
  type u32 = x: int | 0 <= x <= 0xFFFF_FFFF
}
