/** The optional value used where the service may hand back `undefined`. */
module Wrappers {

  datatype Option<+T> = None | Some(value: T)
}
