/** The optional value used for the source's failure paths (a failed
    assertion, a division by zero, a dictionary lookup that misses). */
module Wrappers {
  datatype Option<T> = None | Some(value: T)
}
