/** A value that may be missing: how the model stands for a lookup that
    raises or a library call that fails. */
module Wrappers {
  datatype Option<T> = None | Some(value: T)
}
