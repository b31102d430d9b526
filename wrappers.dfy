/** The optional value used wherever the scripts either find something or do not. */
module Wrappers {
  datatype Option<+T> = None | Some(value: T)
}
