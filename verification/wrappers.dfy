/** Nullable references and small numeric helpers shared by the queue model. */
module Wrappers {

  /** A C pointer that may be NULL: `None` is NULL, `Some(p)` is the address `p`. */
  datatype Option<+T> = None | Some(value: T)

  function Min(a: int, b: int): int
  {
    if a <= b then a else b
  }
}
