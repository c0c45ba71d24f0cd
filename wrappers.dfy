/** Option and Result, the two shapes the service code uses for "maybe a value"
    (Java's Optional and nullable references) and for "a value or an exception". */
module Wrappers {

  /** Java's Optional<T>; `None` also stands for a null reference. */
  datatype Option<+T> = None | Some(value: T) {

    /** Optional.map with a function that never returns null. */
    function Map<U>(f: T -> U): (r: Option<U>)
      ensures r.Some? <==> Some?
      ensures r.Some? ==> r.value == f(value)
    {
      match this
      case None => None
      case Some(v) => Some(f(v))
    }

    /** Optional.map with a function that may return null: a null result
        (here `None`) empties the optional. */
    function MapNullable<U>(f: T -> Option<U>): (r: Option<U>)
      ensures r.Some? <==> Some? && f(value).Some?
      ensures r.Some? ==> r == f(value)
    {
      match this
      case None => None
      case Some(v) => f(v)
    }

    /** Optional.filter: keeps the value only when it satisfies `p`. */
    function Filter(p: T -> bool): (r: Option<T>)
      ensures r.Some? <==> Some? && p(value)
      ensures r.Some? ==> r.value == value
    {
      match this
      case None => None
      case Some(v) => if p(v) then Some(v) else None
    }
  }

  /** The outcome of an operation that either returns a value or throws. */
  datatype Result<+T, +E> = Ok(value: T) | Err(error: E)
}
