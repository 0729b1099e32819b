/** Outcome types shared by every component: absent values, error returns, and a Rust panic. */
module Results {

  /** A value that may be absent (Rust `Option`, a JavaScript `undefined`). */
  datatype Option<T> = None | Some(value: T)

  /** A Rust `Result`, or a JavaScript call that either returns or throws. */
  datatype Result<T, E> = Ok(value: T) | Err(error: E)

  /** How a Rust call ends: it panics (a slice index out of range), or it returns. */
  datatype Outcome<T> = Panic | Return(value: T)
}
