/** An optional value; `None` stands for an exception the call raises. */
module Wrappers {

  /** `None` stands for an exception propagating out of the source's call. */
  datatype Option<+T> = None | Some(value: T)
}
