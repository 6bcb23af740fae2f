/** The optional result of an operation that may raise instead of returning. */
module Wrappers {

  datatype Option<T> = None | Some(value: T)
}
