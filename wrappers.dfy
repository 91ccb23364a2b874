/** A value that may be absent: the model's stand-in for `null` and for a thrown error. */
module Wrappers {

  datatype Option<+T> = None | Some(value: T)
}
