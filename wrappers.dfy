/** Outcomes of operations that may raise: a value, or the Python exception
    class the source raises on that path. `NotANumber` is not an exception:
    it marks a value numpy computes as NaN without raising, beyond which the
    model does not follow the computation. */
module Wrappers {

  datatype Error =
    | ValueError
    | ZeroDivisionError
    | IndexError
    | NotImplementedError
    | NotANumber

  datatype Result<T> = Ok(value: T) | Err(error: Error)

  datatype Option<T> = None | Some(value: T)
}
