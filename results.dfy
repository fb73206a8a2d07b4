/** Option and Result types standing in for Python's exceptions. */
module Results {

  datatype Option<+T> = None | Some(value: T)

  /** The two ways the reflow engine raises `ValueError`. */
  datatype Error =
    | NoBreakAfter(offset: nat)   // `min()` of an empty generator in split_into_lines
    | DelimiterMismatch           // strip_delimiters on text without the markers

  datatype Result<+T> = Ok(value: T) | Err(error: Error)
}
