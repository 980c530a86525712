/** Option and outcome types shared by the reservation model. */
module Wrappers {

  /** A value that may be absent: a lookup that found nothing, or text that did not parse. */
  datatype Option<+T> = None | Some(value: T)

  /** The result of an operation that either completes with a value or raises an error. */
  datatype Outcome<+T, +E> = Success(value: T) | Failure(error: E)
}
