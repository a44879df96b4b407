/** Failure results of the modelled data path.

    On this path the Python code never catches anything: every failure is a
    `ValueError` raised by the cryptography library, which ends the request
    before any output file is written. The variants name the three places
    where the library raises it; there is no other error taxonomy. */
module Outcomes {

  datatype Error =
    | InvalidIvSize      // modes.CBC: the IV is not one 16-byte block
    | NotBlockAligned    // CBC decryptor finalize: the data is not a whole number of blocks
    | InvalidPadding     // PKCS7 unpadder finalize: the padding bytes do not check out

  /** A value, or the error that stopped the computation; usable with `:-`. */
  datatype Result<+T> = Success(value: T) | Failure(error: Error) {

    predicate IsFailure() {
      Failure?
    }

    function PropagateFailure<U>(): Result<U>
      requires Failure?
    {
      Failure(error)
    }

    function Extract(): T
      requires Success?
    {
      value
    }
  }
}
