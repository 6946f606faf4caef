/** A value that may be absent (`None` in the program). */
module Wrappers {
  datatype Option<T> = None | Some(value: T)
}
