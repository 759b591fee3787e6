/** The Option datatype used for a service reply that may be an exception
    and for a batch result that may be missing. */
module Wrappers {

  datatype Option<+T> = None | Some(value: T)
}
