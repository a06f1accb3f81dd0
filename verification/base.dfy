/** Shared vocabulary of the trust-router model: optional values, names, and the
    outcome of code that may fail to terminate. */
module Base {

  /** A value that may be absent; stands in for a C pointer that may be NULL. */
  datatype Option<+T> = None | Some(value: T)

  /** A TR_NAME: an immutable, length-delimited identifier compared byte by byte. */
  type Name = seq<char>

  /** The outcome of running a piece of code as written: it returns a value, loops
      forever, or dereferences a NULL pointer. Used only for the members that model
      source defects. */
  datatype Run<+T> = Returns(result: T) | Loops | Faults
}
