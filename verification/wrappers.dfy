/** Option and Result values used where the game's code either has "no value"
    (a board without a falling piece) or raises. */
module Wrappers {

  datatype Option<+T> = None | Some(value: T)

  datatype Result<+R, +E> = Success(value: R) | Failure(error: E)
}
