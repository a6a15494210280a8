/** The optional-value datatype shared by the parsers of this model. */
module Wrappers {

  /** `None` stands for a string that does not have the expected shape. */
  datatype Option<+T> = None | Some(value: T)
}
