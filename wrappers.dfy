/** The optional value used by the project's partial functions. */
module Wrappers {

  datatype Option<T> = None | Some(value: T)
}
