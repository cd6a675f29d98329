/** Failure-compatible result types shared by every module of the model. */
module Wrappers {

  datatype Option<+T> = None | Some(value: T) {
    /** The value, or `default` when absent (Pydantic's field defaults). */
    function GetOr(default: T): T {
      match this
      case Some(v) => v
      case None => default
    }
  }

  datatype Result<+R, +E> = Success(value: R) | Failure(error: E) {
    predicate IsFailure() { Failure? }

    function PropagateFailure<U>(): Result<U, E>
      requires Failure?
    {
      Failure(error)
    }

    function Extract(): R
      requires Success?
    {
      value
    }
  }
}

/** The three error conditions the recommender reports to its callers. */
module Errors {

  datatype Error =
    | NotFound(tmdbId: int)     // ValueError: the id is not a key of the index
    | EmptyResult(tmdbId: int)  // LookupError: no candidate passed the filters
    | ValidationError           // a request or response field violates its schema
}
