/** The conventional optional-value datatype, used for the `string | undefined`
    fields and results of the writing assistant. */
module Wrappers {

  datatype Option<+T> = None | Some(value: T)
}
