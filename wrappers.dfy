/** The optional value used where the source uses `None`. */
module Wrappers {
  datatype Option<T> = None | Some(value: T)
}
