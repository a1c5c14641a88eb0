/** Option, standing for a Java reference that may be null or a lookup that may throw. */
module Wrappers {
  datatype Option<+T> = None | Some(value: T)
}
