/** The source's NULL-or-value returns, as a datatype. */
module Wrappers {

  /** `None` stands for a NULL pointer (or an absent entry); `Some(v)` for a value. */
  datatype Option<+T> = None | Some(value: T)
}
