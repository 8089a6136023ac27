/** The optional value used for "a match was found" / "no match". */
module Wrappers {

  datatype Option<+T> = None | Some(value: T)
}
