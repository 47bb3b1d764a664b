/** The optional-value type used where the source returns `null`. */
module Wrappers {

  datatype Option<+T> = None | Some(value: T)
}
