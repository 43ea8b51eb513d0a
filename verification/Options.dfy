/** The optional values of the source (`X | None`), and what a call that may raise returns. */
module Options {
  datatype Option<+T> = None | Some(value: T)
  datatype Result<+T, +E> = Ok(value: T) | Err(error: E)
}
