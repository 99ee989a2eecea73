/** Failure-carrying values shared by the other modules: an optional value, a
    value-or-error result, and the DOMException names through which the web
    platform reports the failures that reach the caller of the envelope code. */
module Results {

  datatype Option<+T> = None | Some(value: T)

  datatype Result<+T, +E> = Success(value: T) | Failure(error: E)

  /** The two DOMException names the envelope code can let escape:
      `atob` throws InvalidCharacterError on text that is not Base64,
      `crypto.subtle.decrypt` rejects with OperationError when AES-GCM
      authentication fails. The envelope code catches neither. */
  datatype DomException = InvalidCharacterError | OperationError
}
