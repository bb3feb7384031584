/** Rust's `Option` and `Result`, the only failure-carrying types the
    authentication layer uses. */
module Results {

  datatype Option<+T> = None | Some(value: T)

  datatype Result<+T, +E> = Ok(value: T) | Err(error: E)
}
