/** Optional values and results with an error, shared by the two passes. */
module Wrappers {

  /** A value that may be absent (a markup node that is missing, a name still unbound). */
  datatype Option<+T> = None | Some(value: T)

  /** The outcome of a run: a value, or the exception that ended it. */
  datatype Result<+T, +E> = Ok(value: T) | Err(error: E)

  /** The zero- or one-element sequence holding an optional value. */
  function OptionToSeq<T>(o: Option<T>): seq<T> {
    match o
    case None => []
    case Some(v) => [v]
  }
}
