/** The Option type used for nullable cells and for "no matching row". */
module Wrappers {

  datatype Option<+T> = None | Some(value: T)
}
