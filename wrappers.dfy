/** An optional value, used for nullable pointers. */
module Wrappers {
  datatype Option<T> = None | Some(value: T)
}
