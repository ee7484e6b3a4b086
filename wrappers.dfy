/** The optional value used wherever the scene's code may come back with `undefined`. */
module Wrappers {
  datatype Option<T> = None | Some(value: T)
}
