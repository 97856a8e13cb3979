/** Nullable references and exception-carrying results, as used throughout the model.
    `None` stands for a Java `null`; `Failure` stands for a thrown exception. */
module Wrappers {

  datatype Option<+T> = None | Some(value: T) {

    /** The value, or `default` when this is `None`. */
    function GetOr(default: T): T {
      match this
      case Some(v) => v
      case None => default
    }
  }

  datatype Result<+R, +E> = Success(value: R) | Failure(error: E)

  /** How Java's `PrintWriter.print (String)` and `StringBuilder.append (String)`
      render a possibly-null string: a null prints as the four letters "null". */
  function JavaText(s: Option<string>): (r: string)
    ensures s.Some? ==> r == s.value
    ensures s.None? ==> r == "null"
  {
    match s
    case Some(v) => v
    case None => "null"
  }
}
