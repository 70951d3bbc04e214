/** The optional value the recognition core passes around where Python uses None. */
module Wrappers {

  datatype Option<+T> = None | Some(value: T)

}
