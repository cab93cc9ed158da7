/** Bytes, and values that may be absent. */
module Bytes {

  type byte = n: int | 0 <= n < 256

  datatype Option<T> = None | Some(value: T)
}
