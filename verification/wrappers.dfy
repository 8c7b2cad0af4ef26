/** The optional value used for lookups that may find nothing. */
module Wrappers {

  /** Either nothing (`None`) or exactly one value (`Some`). */
  datatype Option<+T> = None | Some(value: T)
}
