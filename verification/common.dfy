/** Failure-carrying values shared by every part of the embedder model:
    `Option` for Rust's `Option<T>` and `Result` for `anyhow::Result<T>`. */
module Common {

  datatype Option<+T> = None | Some(value: T)

  datatype Result<+T, +E> = Ok(value: T) | Err(error: E)
}
