/** The optional-value type used for absent record fields and absent fetch results. */
module Wrappers {

  datatype Option<+T> = None | Some(value: T)
}
