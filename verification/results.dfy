/** Nullable values and failure-carrying results shared by every layer of the model. */
module Results {

  /** A value that may be absent: the `T?` of the services and entities. */
  datatype Option<+T> = None | Some(value: T)

  /** The outcome of a service call: a value, or the ordered list of error
      messages that made the call fail. */
  datatype Result<+T> = Ok(value: T) | Fail(errors: seq<string>)

  /** What a service call leaves behind: the store it produces and its result. */
  datatype Outcome<+S, +T> = Outcome(state: S, result: Result<T>)

  /** The null-coalescing assignment `x ??= fallback`: a present value is kept,
      an absent one is replaced. */
  function Coalesce<T>(o: Option<T>, fallback: T): (r: Option<T>)
    ensures r.Some?
    ensures o.Some? ==> r == o
    ensures o.None? ==> r.value == fallback
  {
    match o
    case Some(_) => o
    case None => Some(fallback)
  }
}
