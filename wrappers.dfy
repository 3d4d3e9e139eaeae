/** Option and Result, with the one Result combinator the extension relies on, `map_err`. */
module Wrappers {

  /** Rust's `Option<T>`: a slot that is empty or holds one value. */
  datatype Option<+T> = None | Some(value: T)

  /** Rust's `Result<R, E>`. */
  datatype Result<+R, +E> = Ok(value: R) | Err(error: E) {

    /** `Result::map_err`: keeps an `Ok` as it is and passes the error of an `Err` through `f`. */
    function MapErr<E2>(f: E -> E2): (r: Result<R, E2>)
      ensures Ok? <==> r.Ok?
      ensures Ok? ==> r.value == value
      ensures Err? ==> r.error == f(error)
    {
      match this
      case Ok(v) => Ok(v)
      case Err(e) => Err(f(e))
    }

    /**
     * `map_err` together with the number of times it applies `f`: the count
     * is produced in the same arm that applies `f`, so it is one exactly
     * when the error is mapped.
     */
    function MapErrCounted<E2>(f: E -> E2): (r: (Result<R, E2>, nat))
      ensures r.0 == MapErr(f)
      ensures Ok? ==> r.1 == 0
      ensures Err? ==> r.1 == 1
    {
      match this
      case Ok(v) => (Ok(v), 0)
      case Err(e) => (Err(f(e)), 1)
    }
  }
}
