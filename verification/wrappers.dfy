/** The optional-value datatype the rest of the model uses for JavaScript's
    `undefined`: a missing header, an unset environment variable, an absent
    body field, an array element past the end. */
module Wrappers {

  datatype Option<+T> = None | Some(value: T)
}
