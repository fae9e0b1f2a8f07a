/** The optional value used for the source's `Option<T>` returns and slots. */
module Wrappers {
  datatype Option<+T> = None | Some(value: T)
}
