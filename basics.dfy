/** Small shared vocabulary: optional values, error-carrying results, numpy's uint8. */
module Basics {

  datatype Option<T> = None | Some(value: T)

  /** A computation that either produces a value or stops with the error Python would raise. */
  datatype Result<T, E> = Ok(value: T) | Err(error: E)

  /** numpy's `np.dtype('B')`: an unsigned byte. */
  type uint8 = x: int | 0 <= x < 256

  /** A file path as Python's `str`. */
  type Path = string

  /** An (rgb image path, mask image path) training sample. */
  type Sample = (Path, Path)

  function Min(a: int, b: int): int
  {
    if a <= b then a else b
  }
}
