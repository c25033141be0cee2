/** Calls to the outside world. */
module Upstream {
  /** Any value at all, or an error. */
  datatype Answer<+T> = Got(value: T) | Failure
}
