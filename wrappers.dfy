/** An optional value: a C pointer that may be NULL, a lookup that may fail. */
module Wrappers {

  datatype Option<+T> = None | Some(value: T)

  function Min(a: int, b: int): int {
    if a < b then a else b
  }
}
