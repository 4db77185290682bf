/** The optional value and the result type used for the error paths of the
    program (a raised ValueError, an IndexError, a division that yields no
    number). */
module Wrappers {

  datatype Option<+T> = None | Some(value: T)

  datatype Result<+R, +E> = Success(value: R) | Failure(error: E)
}
