/** The error path of the classifier: a computation either yields a value or
    fails with the reason the source would raise. */
module Outcomes {

  datatype Result<T, E> = Ok(value: T) | Err(error: E)

}
