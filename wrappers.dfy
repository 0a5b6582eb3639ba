/** Small helper datatypes shared by the modules of the model. */
module Wrappers {

  /** A value that may be absent: Go's nil pointer, a missing map entry, or no error. */
  datatype Option<+T> = None | Some(value: T)
}
