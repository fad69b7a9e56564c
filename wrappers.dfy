/** Small shared helpers: a value that may be absent, and the smaller of two integers. */
module Wrappers {
  datatype Option<T> = None | Some(value: T)

  function Min(a: int, b: int): int {
    if a <= b then a else b
  }
}
