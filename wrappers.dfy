/** Option, the model of a JavaScript lookup that may answer `undefined`. */
module Wrappers {

  datatype Option<+T> = None | Some(value: T)
}
