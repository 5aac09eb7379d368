/** Option and Result: the model's null values, thrown errors and Rust results; and the integers SQLite stores. */
module Wrappers {
  /** 2^63: an INTEGER column or an i64 parameter holds less. */
  const I64_LIMIT: nat := 0x8000_0000_0000_0000

  datatype Option<+T> = None | Some(value: T)

  datatype Result<+T, +E> = Ok(value: T) | Err(error: E)
}
