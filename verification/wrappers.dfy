/** Failure-carrying result used where the analysed program raises an exception. */
module Wrappers {

  /** `None` stands for a raised exception (a failed lookup or index), `Some` for a normal return. */
  datatype Option<+T> = None | Some(value: T)
}
