/** The outcome of an operation that indexes a NumPy array and can stop with
    an `IndexError`. */
module IndexErrors {

  /** A value, or the `IndexError` of an access at `index` into an array of
      `size` entries. */
  datatype Result<T> = Ok(value: T) | IndexOutOfRange(index: int, size: nat)
}
