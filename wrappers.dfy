/** A value that may be missing: JavaScript's `undefined` or `null` result. */
module Wrappers {
  datatype Option<T> = None | Some(value: T)
}
