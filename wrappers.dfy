/** The optional value used for `Option<T>` in the program. */
module Wrappers {

  datatype Option<+T> = None | Some(value: T)
}
