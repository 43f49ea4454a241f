/** Small shared vocabulary: an optional value, the `u8` byte, and integer helpers. */
module Common {

  /** An optional value, as Rust's `Option`. */
  datatype Option<+T> = None | Some(value: T)

  /** The source's `u8`. */
  type Byte = b: int | 0 <= b < 256

  function Abs(n: int): nat
  {
    if n < 0 then -n else n
  }

  function Max(a: int, b: int): int
  {
    if a < b then b else a
  }

  function Min(a: int, b: int): int
  {
    if a < b then a else b
  }
}
