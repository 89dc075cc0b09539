/** Option and Result values: the model's stand-ins for `None` and for raised exceptions. */
module Results {

  datatype Option<+T> = None | Some(value: T)

  datatype Result<+T, +E> = Ok(value: T) | Err(error: E)
}
