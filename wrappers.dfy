/** Small shared datatypes. */
module Wrappers {

  /** A value that may be missing: JavaScript's `undefined`, or an operation that did not complete. */
  datatype Option<T> = None | Some(value: T)
}
