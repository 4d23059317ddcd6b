/** The optional-value datatype shared by the parsers and the searches. */
module Wrappers {

  /** Python's `None` or a present value. */
  datatype Option<+T> = None | Some(value: T)
}
