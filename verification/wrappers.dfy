/** Optional values and the outcome of a JavaScript expression that may throw. */
module Wrappers {

  /** A value that may be missing: a JavaScript property that is `undefined` or `null`. */
  datatype Option<+T> = None | Some(value: T) {

    /** The value, or `default` when there is none (a JavaScript default parameter). */
    function GetOr(default: T): T {
      match this
      case Some(v) => v
      case None => default
    }
  }

  /** The result of evaluating JavaScript code that either returns a value or
      throws a `TypeError` by reading a property of `undefined` or `null`. */
  datatype Outcome<+T> = Returns(value: T) | Throws {

    predicate IsFailure() {
      Throws?
    }

    function PropagateFailure<U>(): Outcome<U>
      requires Throws?
    {
      Throws
    }

    function Extract(): T
      requires Returns?
    {
      value
    }
  }
}
