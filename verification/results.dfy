/** Failure-compatible wrappers used across the notebook model: an absent
    dialog answer is `None`, an operation the application refuses is `Err`. */
module Results {

  datatype Option<+T> = None | Some(value: T) {

    /** The value, or `default` when absent. */
    function GetOr(default: T): T {
      match this
      case Some(v) => v
      case None => default
    }
  }

  datatype Result<+T, +E> = Ok(value: T) | Err(error: E) {

    predicate IsFailure() {
      Err?
    }

    function PropagateFailure<U>(): Result<U, E>
      requires Err?
    {
      Err(error)
    }

    function Extract(): T
      requires Ok?
    {
      value
    }
  }

  /** Python's truthiness of an optional string: `not s` holds for `None` and for "". */
  predicate Blank(s: Option<string>) {
    s.None? || s.value == []
  }
}
