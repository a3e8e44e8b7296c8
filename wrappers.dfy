/** Go's `nil`-or-value results, as datatypes. */
module Wrappers {

  /** An optional value: `None` plays the part of Go's `nil`. */
  datatype Option<+T> = None | Some(value: T)

  /** A value or the error that took its place: Go's `(*T, error)` pair. */
  datatype Result<+T, +E> = Success(value: T) | Failure(error: E)
}
