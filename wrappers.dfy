/** The optional value used for the source's `Option<T>` results and links. */
module Wrappers {

  datatype Option<+T> = None | Some(value: T)
}
