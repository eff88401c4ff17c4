/** An optional value, standing for the source's `null` and for a result
    that may be missing. */
module Wrappers {

  datatype Option<+T> = None | Some(value: T)
}
