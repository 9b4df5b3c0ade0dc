/** A value that may be absent: the NULL pointer or the missing entry of
    the C++ code. */
module Wrappers {
  datatype Option<T> = None | Some(value: T)
}
