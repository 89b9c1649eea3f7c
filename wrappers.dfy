/** The optional value used for "this call produced nothing usable". */
module Wrappers {

  datatype Option<+T> = None | Some(value: T)
}
