/** Small value types shared by the queue and the two command-line tools. */
module Common {

  /** An optional value: `None` stands for a C call that failed (a NULL
      pointer, a -1 return) where the caller only needs to know that it did. */
  datatype Option<+T> = None | Some(value: T)

  /** A value or the reason it could not be produced. */
  datatype Result<+T, +E> = Success(value: T) | Failure(error: E)

  /** Why a command line is rejected: both tools stop with `err(1, ...)`. */
  datatype ArgError =
    | Usage                          // fewer than one argument after the program name
    | InvalidThreadCount(arg: string) // the value given to -n parses below 1
}
