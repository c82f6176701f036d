/** A value that may be missing: the model of a pandas cell that may hold NaN,
    and of a Python function that may return None. */
module Wrappers {

  datatype Option<+T> = None | Some(value: T)
}
