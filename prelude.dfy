/**
 * Small shared vocabulary: optional values, fallible results and the
 * compilation target that the source selects with `cfg!`.
 */
module Prelude {

  /** Rust's `Option<T>`. */
  datatype Option<T> = None | Some(value: T)

  /** Rust's `Result<T, E>` for an operation that yields a value. */
  datatype Result<T, E> = Success(value: T) | Failure(error: E)

  /** Rust's `Result<(), E>`: success carries nothing. */
  datatype Outcome<E> = Pass | Fail(error: E)

  /** The operating systems the program is built for; `cfg!(target_os = ...)` becomes a parameter. */
  datatype TargetOs = Linux | MacOS
}
