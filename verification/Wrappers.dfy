/** A value that may be missing: a null pointer, an empty callback, a failed call. */
module Wrappers {

  datatype Option<+T> = None | Some(value: T)
}
