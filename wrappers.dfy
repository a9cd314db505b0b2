/** The optional value the model uses where the extension may produce nothing. */
module Wrappers {

  datatype Option<+T> = None | Some(value: T)
}
