/** Result types for the source's `(value, ok)` returns, nil slices and error returns. */
module Wrappers {

  /** `None` stands for Go's `nil` slice or a `false` ok flag. */
  datatype Option<+T> = None | Some(value: T)

  /** A Go `(value, error)` pair where exactly one side is meaningful. */
  datatype Result<+R, +E> = Success(value: R) | Failure(error: E)
}
