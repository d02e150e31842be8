/** The optional value used wherever the source has a nullable reference or
    an operation that raises an exception. */
module Wrappers {

  datatype Option<+T> = None | Some(value: T)
}
