/** The optional value used for the registry's lobby slot and for
    computations that may panic. */
module Wrappers {

  datatype Option<+T> = None | Some(value: T)
}
