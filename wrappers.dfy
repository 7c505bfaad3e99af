/** The optional-value datatype used for every step that can fail. */
module Wrappers {

  datatype Option<+T> = None | Some(value: T)
}
