/** Failure-compatible result types and the kernel error numbers the model uses. */
module Wrappers {

  /** An optional value, standing for Rust's `Option`. */
  datatype Option<+T> = None | Some(value: T)

  /** A value or an error, standing for Rust's `Result`. */
  datatype Result<+T, +E> = Ok(value: T) | Err(error: E) {

    predicate IsFailure() {
      Err?
    }

    function PropagateFailure<U>(): Result<U, E>
      requires Err?
    {
      Err(error)
    }

    function Extract(): T
      requires Ok?
    {
      value
    }
  }

  /** The error numbers raised by the modelled code. Errors produced by
      collaborators outside the model (path resolution, filesystems, reading
      user memory) are carried as `Other`. */
  datatype Errno =
    | EINVAL
    | ENOTDIR
    | ENOENT
    | EADDRNOTAVAIL
    | Other(code: nat)
}
