/** Failure-carrying wrappers shared by the model: an optional value (the
    source's `std::optional`) and a success-or-error result (a callback that
    aborts the parse). */
module Wrappers {

  datatype Option<+T> = None | Some(value: T)

  datatype Result<+T, +E> = Success(value: T) | Failure(error: E)
}
