/** A JavaScript value that may be `undefined`, and the answer of a call that may throw,
    are both an `Option`: `None` stands for the missing value or the failed call. */
module Wrappers {

  datatype Option<+T> = None | Some(value: T)
}
