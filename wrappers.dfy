/** Value wrappers shared by the model: a field that may be missing, a check
    that may fail, a computation that may raise. */
module Wrappers {

  /** A scraped field: `None` stands for the `np.nan` the scraper writes when a
      field is missing. */
  datatype Option<+T> = None | Some(value: T)

  /** The outcome of a check that either passes or raises an error. */
  datatype Outcome<+E> = Pass | Fail(error: E)

  /** A value, or the error that was raised instead of computing it. */
  datatype Result<+T, +E> = Ok(value: T) | Err(error: E)
}
