/** The optional value used for "the pattern may not match" and for a run that stops on a missing store. */
module Wrappers {

  datatype Option<+T> = None | Some(value: T)
}
