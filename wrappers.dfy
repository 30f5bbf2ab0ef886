/** The optional-value datatype used for the selected row and for the id an insert hands out. */
module Wrappers {

  datatype Option<+T> = None | Some(value: T)
}
