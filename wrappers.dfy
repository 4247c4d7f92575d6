// Option and exception-carrying results, used wherever the Java code returns
// null / Optional.empty() or throws.
module Wrappers {

  datatype Option<T> = None | Some(value: T)

  /** The Java exceptions the modelled code throws. */
  datatype JavaException =
    | NoSuchElement
    | IllegalState
    | IllegalArgument
    | IndexOutOfBounds
    | UnsupportedOperation

  datatype Result<T> = Ok(value: T) | Throws(exception: JavaException)
  {
    predicate IsOk() { Ok? }
  }

  /** `Optional.orElseGet` / the nullable-or-fallback idiom. */
  function GetOrElse<T>(o: Option<T>, fallback: T): (r: T)
    ensures o.Some? ==> r == o.value
    ensures o.None? ==> r == fallback
  {
    match o
    case Some(v) => v
    case None => fallback
  }
}
