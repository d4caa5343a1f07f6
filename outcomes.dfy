/** Error-returning results, standing for Go's `(value, error)` pairs. */
module Outcomes {

  datatype Result<+T, +E> = Ok(value: T) | Err(error: E)
}
