/** The optional-value datatype used for every Python `Optional[...]` field. */
module Wrappers {

  datatype Option<+T> = None | Some(value: T)

}
