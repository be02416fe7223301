/** The optional value used for "no victim", "no core record" and "no fault". */
module Wrappers {

  datatype Option<+T> = None | Some(value: T)
}
