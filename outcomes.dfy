/** The value-or-error shape used for the exceptions the rankers and the loader raise. */
module Outcomes {

  datatype Result<+T, +E> = Ok(value: T) | Err(error: E)
}
