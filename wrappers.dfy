/** The optional value used wherever a JavaScript property or lookup result may be `undefined`. */
module Wrappers {
  datatype Option<+T> = None | Some(value: T)
}
