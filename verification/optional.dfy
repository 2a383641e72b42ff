/** Arguments a request may leave out. */
module Optional {

  /** A value, or Python's `None` for an argument the client did not send. */
  datatype Option<T> = None | Some(value: T)

  /** The sent value, or `fallback` when the argument was left out. */
  function ValueOr<T>(o: Option<T>, fallback: T): T {
    if o.Some? then o.value else fallback
  }
}
