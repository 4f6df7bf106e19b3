/** A value that may be missing, such as what a null pointer points to. */
module Wrappers {
  datatype Option<T> = None | Some(value: T)
}
