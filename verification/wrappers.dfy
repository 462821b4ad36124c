/** The absence-or-value type every lookup of the repository returns. */
module Wrappers {

  /** `None` stands for the source's `None` return: a row that is not there
      (or not the caller's) is reported, never raised. */
  datatype Option<+T> = None | Some(value: T)
}
