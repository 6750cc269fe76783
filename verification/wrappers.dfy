/** The optional-value datatype used across the model: an absent JavaScript
    property, a failed parse, or a falsy return value is `None`. */
module Wrappers {

  datatype Option<+T> = None | Some(value: T)
}
