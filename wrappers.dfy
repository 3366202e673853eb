/** The optional value used throughout the model: a form entry or a record
    field that may be absent. */
module Wrappers {

  datatype Option<+T> = None | Some(value: T)
}
