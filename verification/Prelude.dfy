/** Types shared by the components. */
module Prelude {

  datatype Option<+T> = None | Some(value: T)

  datatype Result<+T, +E> = Ok(value: T) | Err(error: E)

  type byte = b: int | 0 <= b < 256

  const TWO_TO_63: int := 0x8000_0000_0000_0000
  const TWO_TO_64: int := 0x1_0000_0000_0000_0000

  type int64 = n: int | -TWO_TO_63 <= n < TWO_TO_63

  /** Conversion of an arithmetic result to a signed 64-bit integer, with wrap-around. */
  function Wrap64(n: int): int64 {
    (n + TWO_TO_63) % TWO_TO_64 - TWO_TO_63
  }
}
