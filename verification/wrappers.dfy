/** The optional value used wherever script.js yields `null` or a falsy result. */
module Wrappers {
  datatype Option<+T> = None | Some(value: T)
}
