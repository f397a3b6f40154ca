/** Shared vocabulary of the model: bytes, optional values, results, and the
    outcome of one Unity web request as the client coroutines classify it. */
module Base {

  /** One octet of a request or response body. */
  newtype byte = x: int | 0 <= x < 256

  type Bytes = seq<byte>

  /** A value that may be absent (a C# `null` string field, a failed lookup). */
  datatype Option<+T> = None | Some(value: T)

  /** Either a value or the error that stopped the computation (an exception in the source). */
  datatype Result<+T, +E> = Success(value: T) | Failure(error: E)

  /** `UnityWebRequest.Result` once a request has finished. */
  datatype HttpResult = Succeeded | ConnectionError | ProtocolError | DataProcessingError

  /** The test both coroutines use to decide whether a request failed: only a
      connection error or an HTTP error status counts; a data-processing error
      takes the success branch. */
  predicate IsRequestError(r: HttpResult) {
    r == ConnectionError || r == ProtocolError
  }

  /** Every character of `s` satisfies `p`. */
  predicate All(s: string, p: char -> bool) {
    forall i :: 0 <= i < |s| ==> p(s[i])
  }

  /** A character below U+0080: one byte in UTF-8. */
  predicate IsAscii(c: char) {
    (c as int) < 0x80
  }
}
