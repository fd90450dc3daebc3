/** Optional values, results, and the exceptions the window code can raise. */
module Results {

  /** A value that may be absent; stands for a C# reference that may be null. */
  datatype Option<+T> = None | Some(value: T) {
    function GetOr(default: T): T {
      match this
      case Some(v) => v
      case None => default
    }
  }

  datatype Result<+T, +E> = Success(value: T) | Failure(error: E)

  /** The .NET exceptions that end a handler or a worker thread in the window code. */
  datatype Error =
    | RequestFailed(statusCode: int, content: string)  // the spelling service answered with a non-success status
    | NullArgument                                     // ArgumentNullException (a null list or a null dictionary key)
    | EmptyOldValue                                    // ArgumentException from String.Replace("", ...)
    | FileNotFound(path: string)                       // File.ReadAllText on a path that is not on disk
    | DuplicateKey(path: string)                       // Dictionary.Add with a key already present
}
