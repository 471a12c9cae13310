/** Optional values and results with an error, shared by the modules of the mosaic model. */
module Options {

  /** A value that may be absent, such as the result of decoding a file that is not an image. */
  datatype Option<+T> = None | Some(value: T)

  /** Either a value or the error that stopped the computation. */
  datatype Result<+T, +E> = Success(value: T) | Failure(error: E)
}
