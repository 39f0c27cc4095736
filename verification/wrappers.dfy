/** Failure-compatible wrappers used across the model: an optional value
    (Go's nil pointer) and a value-or-error result (Go's `(T, error)` pair),
    and the set of keys a request names. */
module Wrappers {

  datatype Option<+T> = None | Some(value: T) {
    /** The wrapped value, or `default` when there is none. */
    function GetOr(default: T): T {
      if Some? then value else default
    }
  }

  datatype Result<+T, +E> = Success(value: T) | Failure(error: E) {
    predicate IsFailure() {
      Failure?
    }

    function PropagateFailure<U>(): Result<U, E>
      requires Failure?
    {
      Failure(error)
    }

    function Extract(): T
      requires Success?
    {
      value
    }
  }

  /** The distinct keys of a key list. */
  function KeySet(keys: seq<string>): set<string> {
    set k | k in keys
  }
}
