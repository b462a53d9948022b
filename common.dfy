// Shared vocabulary of the viewer: raw bytes and optional values.

module Common {

  /** One raw input byte (a Python `int` taken from a `bytes` object). */
  type byte = b: int | 0 <= b < 0x100

  /** A present-or-absent value; used for decode results and the held byte. */
  datatype Option<T> = None | Some(value: T)

  function Max(a: int, b: int): int
  {
    if a < b then b else a
  }
}
