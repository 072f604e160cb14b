/** Optional values and success-or-error results, standing in for Go's nil
    pointers and `(value, error)` return pairs. */
module Outcomes {

  datatype Option<+T> = None | Some(value: T)

  /** `Ok(v)` is a Go call that returned `v, nil`; `Err(e)` one that returned
      `nil, e` (or panicked with `e`, where the model says so). */
  datatype Result<+T, +E> = Ok(value: T) | Err(error: E)

  function Min(a: int, b: int): int
  {
    if a <= b then a else b
  }

  function Max(a: int, b: int): int
  {
    if a >= b then a else b
  }
}
