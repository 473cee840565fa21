/** The optional value shared by the argument front end and the debug
    dispatch. */
module Wrappers {
  datatype Option<T> = None | Some(value: T)
}
