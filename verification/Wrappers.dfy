/** Results that may be missing; Go's second "ok" or "err" result. */
module Wrappers {
  datatype Option<+T> = None | Some(value: T)
}
