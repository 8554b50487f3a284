/** The optional value used wherever the source has `undefined`, a missing
    document field or an operation that can fail. */
module Wrappers {

  datatype Option<+T> = None | Some(value: T)
}
