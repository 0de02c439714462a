/** The optional-value datatype the rest of the model uses for `null`,
    `undefined` and "not found". */
module Wrappers {

  datatype Option<+T> = None | Some(value: T)
}
