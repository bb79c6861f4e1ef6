/** Optional values and the outcome of a call that may throw. */
module Wrappers {

  /** A value that may be absent: JavaScript `null` or `undefined`. */
  datatype Option<T> = None | Some(value: T)

  /** The outcome of a computation that reads a property of `undefined` on some inputs: in
      JavaScript such a read throws a `TypeError`, which ends the whole call. */
  datatype Result<T> = Ok(value: T) | TypeError
}
