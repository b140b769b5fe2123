/** Option and Result: the stand-ins for java.util.Optional and for the
    exceptions the service throws. */
module Wrappers {

  /** java.util.Optional: a value that may be absent. */
  datatype Option<+T> = None | Some(value: T) {

    /** Optional.or: this value if present, otherwise the alternative. */
    function Or(alternative: Option<T>): (r: Option<T>)
      ensures Some? ==> r == this
      ensures None? ==> r == alternative
    {
      if Some? then this else alternative
    }

    /** Optional.orElse / orElseGet: the value if present, otherwise the fallback. */
    function OrElse(fallback: T): (r: T)
      ensures Some? ==> r == value
      ensures None? ==> r == fallback
    {
      if Some? then value else fallback
    }
  }

  /** A computation that either returns a value or throws an error. */
  datatype Result<+R, +E> = Ok(value: R) | Err(error: E)
}
