/** Failure-carrying values shared by the whole model.

    The extension's host API returns `Result<T, String>`: a value or a
    human-readable message. `Option` stands for Rust's `Option`. */
module Results {

  datatype Option<+T> = None | Some(value: T)

  /** A value or an error message, as in the host API's `Result<T>`. */
  datatype Result<+T> = Ok(value: T) | Err(error: string)
}
