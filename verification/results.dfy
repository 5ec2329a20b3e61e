/** Failure-compatible wrappers used by the model: `Option` stands for Rust's
    `Option` and `Result` for `Result<T, E>`. */
module Results {

  datatype Option<T> = None | Some(value: T)

  datatype Result<T, E> = Ok(value: T) | Err(error: E)
}
