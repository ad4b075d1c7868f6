/** Option and Result values, and the Java exceptions the fetcher can raise. */
module Wrappers {

  datatype Option<+T> = None | Some(value: T)

  datatype Result<+T, +E> = Ok(value: T) | Err(error: E)

  /** How a Java `void` method returns: normally or by throwing. */
  datatype Outcome<+E> = Normal | Thrown(error: E)

  /**
   * The exceptions that escape the modelled Java code, by kind.
   * `NetworkFailure` is the `IOException` that `URL.openStream` or the copy from
   * it raises; `FileNotFound` is the one opening a missing file raises.
   */
  datatype Exception =
    | IOException(message: string)
    | NetworkFailure(url: string)
    | FileNotFound(path: string)
    | NullPointerException
    | IndexOutOfBounds(index: int, length: nat)
    | RuntimeException(message: string)
}
