/** The optional value returned by the reflective lookups the model replaces. */
module Wrappers {
  datatype Option<+T> = None | Some(value: T)
}
