/** Failure-compatible wrappers used throughout the model: an `Option` for a
    pattern that may not match and a `Result` for a call that may raise. Both
    support the `:-` operator. */
module Wrappers {

  datatype Option<+T> = None | Some(value: T) {

    predicate IsFailure() {
      None?
    }

    function PropagateFailure<U>(): Option<U>
      requires None?
    {
      None
    }

    function Extract(): T
      requires Some?
    {
      value
    }
  }

  datatype Result<+R, +E> = Success(value: R) | Failure(error: E) {

    predicate IsFailure() {
      Failure?
    }

    function PropagateFailure<U>(): Result<U, E>
      requires Failure?
    {
      Failure(error)
    }

    function Extract(): R
      requires Success?
    {
      value
    }
  }

  /** The zero-or-one element sequence holding the content of `o`. */
  function OptionToSeq<T>(o: Option<T>): (s: seq<T>)
    ensures |s| <= 1
    ensures o.Some? <==> |s| == 1
    ensures o.Some? ==> s[0] == o.value
  {
    match o
    case None => []
    case Some(v) => [v]
  }
}
