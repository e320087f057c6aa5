/** The one optional-value type the models share. */
module Wrappers {
  datatype Option<+T> = None | Some(value: T)
}
