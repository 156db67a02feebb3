/** Small result types shared by the modules of the brand-extraction model. */
module Wrappers {

  /** Python's `Optional[T]`: `None` or a value. */
  datatype Option<+T> = None | Some(value: T)

  /** The outcome of a call that may raise an exception nobody catches:
      the value it returned, or the fact that it raised. */
  datatype Outcome<+T> = Returned(value: T) | Raised
}
