/** Failure-compatible result types standing for the source's `Option`, `io::Result` and `anyhow::Result`. */
module Wrappers {
  datatype Option<+T> = None | Some(value: T)

  /** The error values the readers and writers distinguish. */
  datatype Error =
    | Einval
    | Enoent
    | Ebadf
    | Eof
    | Other

  datatype Result<+T> = Ok(value: T) | Err(error: Error) {
    predicate IsFailure() { Err? }

    function PropagateFailure<U>(): Result<U>
      requires Err?
    {
      Err(error)
    }

    function Extract(): T
      requires Ok?
    {
      value
    }
  }
}
