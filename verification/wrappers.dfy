/** The optional value used wherever JavaScript would hold `null`. */
module Wrappers {

  datatype Option<+T> = None | Some(value: T)
}
