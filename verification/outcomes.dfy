/** Absent-or-present values and success-or-error results, used wherever the source
    returns `null`/`undefined`, a lookup may find nothing, or a step may fail. */
module Outcomes {

  datatype Option<+T> = None | Some(value: T) {

    /** The carried value, or `default` when there is none (JavaScript's `x || default`
        when every present value is truthy). */
    function GetOr(default: T): T {
      match this
      case Some(v) => v
      case None => default
    }
  }

  /** A step that either produces a value or fails with a message (a thrown error or an
      `error` field returned by the database client). */
  datatype Result<+T> = Ok(value: T) | Failure(error: string)
}
