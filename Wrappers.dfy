/** The optional-value datatype used for Go's `(value, ok)` and `error`-or-nil returns. */
module Wrappers {

  datatype Option<+T> = None | Some(value: T)

}
