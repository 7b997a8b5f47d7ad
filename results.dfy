/** Outcome types shared by the modules of the model. */
module Results {

  datatype Option<T> = None | Some(value: T)

  /** A computation that either yields a value or stops with an error. */
  datatype Result<T, E> = Ok(value: T) | Err(error: E)
}
