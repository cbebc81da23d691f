/** The optional-value datatype shared by every module of the model. */
module Wrappers {

  /**
   * A value that may be absent: a file that does not exist, a text `parseInt` refuses, a path
   * without a directory part, or draws that ran out.
   */
  datatype Option<+T> = None | Some(value: T)
}
