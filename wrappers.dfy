/** The absent-or-present value the extractor returns (`undefined` or a string in the source). */
module Wrappers {

  datatype Option<+T> = None | Some(value: T)
}
