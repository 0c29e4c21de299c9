/** Types shared by the models. */
module Wrappers {
  type u8 = x: int | 0 <= x < 0x100

  datatype Option<+T> = None | Some(value: T)

  datatype Result<+T, +E> = Ok(value: T) | Err(error: E)

  /** What a poll function answers: an outcome, or "not now". */
  datatype Poll<+T, +E> = Pending | Ready(result: Result<T, E>)
}
