/** Option, used for partial results (a parse that may fail, a cut that may panic). */
module Wrappers {
  datatype Option<+T> = None | Some(value: T)
}
