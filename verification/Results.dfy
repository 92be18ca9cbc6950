/** Result shapes shared by the models of the repository's components. */
module Results {
  datatype Option<+T> = None | Some(value: T)

  /** A returned value, or the failure the source throws or rejects with. */
  datatype Result<+T, +E> = Ok(value: T) | Err(error: E)
}
