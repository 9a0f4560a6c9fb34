/** The optional value used where the source has `None` or a failed operation. */
module Wrappers {
  datatype Option<T> = None | Some(value: T)
}
