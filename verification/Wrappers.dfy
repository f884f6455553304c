// The optional value of the standard idiom.
module Wrappers {
  datatype Option<+T> = None | Some(value: T)
}
