/** Values that may be absent, and calls that may panic. */
module Wrappers {

  datatype Option<+T> = None | Some(value: T)

  /** What a call that can panic (assert, expect, overflow check) comes back with. */
  datatype Outcome<+T> = Returned(value: T) | Panicked
}
