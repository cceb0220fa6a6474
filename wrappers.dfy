/** Option and Result types shared by the model. Python exceptions that the
    pipeline can raise are modelled as `Err` values rather than excluded by
    preconditions. */
module Wrappers {

  datatype Option<T> = None | Some(value: T)

  /** The Python exceptions the pipeline can raise on malformed strings. */
  datatype Error =
    | IndexError   // a list index out of range, e.g. `parts[1]` on a one-element split
    | ValueError   // a failed tuple unpacking, e.g. `a, b = s.split(", ")`

  datatype Result<T> = Ok(value: T) | Err(error: Error)
}
