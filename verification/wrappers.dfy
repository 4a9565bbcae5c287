/** The optional-value datatype used wherever the source returns a sentinel
    (`str.find`'s -1) or `None`. */
module Wrappers {

  datatype Option<+T> = None | Some(value: T)
}
