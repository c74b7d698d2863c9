/** Optional values and results with an error, used wherever the source returns
    `null`/`undefined` or throws. */
module Wrappers {
  datatype Option<+T> = None | Some(value: T)

  datatype Result<+R, +E> = Success(value: R) | Failure(error: E)

  function Max(a: int, b: int): int { if a >= b then a else b }

  type PositiveInt = n: int | n > 0 witness 1
}
