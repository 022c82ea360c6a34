/** Small value types shared by the detector, the reconstruction and the pipeline object. */
module Common {

  /** A slot or a field that may still be unset (`None` in the source). */
  datatype Option<+T> = None | Some(value: T)

  /** The outcome of a stage: its value, or the exception the source raises. */
  datatype Result<+T, +E> = Ok(value: T) | Err(error: E)

  /** The exceptions the pipeline can raise. */
  datatype Error =
    | PriceUnavailable      // "Efficient price is not available"
    | ExitTimesUnavailable  // "Exit times are not available"
    | IndexOutOfRange       // an IndexError from reading or writing past the end of a list

  function Abs(r: real): (a: real)
    ensures a >= 0.0 && (a == r || a == -r)
  {
    if r < 0.0 then -r else r
  }

  function Max(a: int, b: int): (m: int)
    ensures m >= a && m >= b && (m == a || m == b)
  {
    if a < b then b else a
  }
}
