/** Result shapes shared by the model: an optional value, and the three ways a
    calculator call can end (a value, the `(None, message)` error pair, or an
    exception that escapes to the caller). */
module Results {

  datatype Option<+T> = None | Some(value: T)

  /** `Ok(v)` is the source's `(v, None)`, `Err(m)` its `(None, m)`, and
      `Raised(e)` an exception the function does not catch. */
  datatype Outcome<+T> = Ok(value: T) | Err(message: string) | Raised(exception: string)
}
