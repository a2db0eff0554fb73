/** Option and Result, the shapes used for the source's `None` returns and raised errors. */
module Common {

  datatype Option<+T> = None | Some(value: T)

  datatype Result<+T, +E> = Success(value: T) | Failure(error: E)

  /** An optional value as a sequence of at most one element: what a loop appends for it. */
  function Emitted<T>(o: Option<T>): seq<T>
  {
    match o
    case None => []
    case Some(x) => [x]
  }
}
