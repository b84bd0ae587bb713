/** An optional value: JavaScript's `null` (or "no result") versus a present value. */
module Wrappers {

  datatype Option<+T> = None | Some(value: T)
}
