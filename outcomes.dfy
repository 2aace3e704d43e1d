/** The fatal `sys.exit(1)` of the source's `except` blocks, surfaced as a value. */
module Outcomes {

  datatype Option<+T> = None | Some(value: T)

  datatype Result<+T, +E> = Ok(value: T) | Err(error: E)

}
