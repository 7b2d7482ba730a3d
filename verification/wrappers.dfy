/** An optional result for operations that consume supplied random draws. */
module Wrappers {

  /** An optional result: None when the supplied random draws ran out before the operation could finish. */
  datatype Option<+T> = None | Some(value: T)
}
