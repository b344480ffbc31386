/** Small wrapper types shared by every module of the model. */
module Common {

  /** A pointer that may be null, or a value that may be absent (SQL NULL). */
  datatype Option<+T> = None | Some(value: T)

  /** The outcome of an operation that either returns a value or raises a status error. */
  datatype Result<+T, +E> = Ok(value: T) | Err(error: E)

  /** The outcome of an operation that returns nothing or raises a status error. */
  datatype Outcome<+E> = Pass | Fail(error: E)

  function Abs(x: int): (r: nat)
    ensures r == x || r == -x
  {
    if x < 0 then -x else x
  }
}
