/** The optional value used for Go's nil pointers and failed decodes. */
module Wrappers {
  datatype Option<T> = None | Some(value: T)
}
