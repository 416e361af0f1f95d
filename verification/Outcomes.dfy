/** The library's result type and the error variants the modelled operations return. */
module Outcomes {
  datatype Option<+T> = None | Some(value: T)

  datatype CryptoError =
    | InvalidGroupSize
    | MessageTooLarge
    | TreeDepthExceeded
    | MessageCounterTooOld
    | EpochMismatch(expected: nat, received: nat)
    | MalformedMessage
    | DecryptionFailed
    | DecapsulationFailed
    | InvalidCiphertext
    | AeadAuthenticationFailed
    | InvalidSignature
    | SignatureVerificationFailed
    | InvalidContextLength(actual: nat, max: nat)
    | SigningFailed
    | KeyGenerationFailed
    // A reached `expect`: the Rust call aborts instead of returning.
    | Panicked

  datatype Result<+T> = Ok(value: T) | Err(error: CryptoError) {
    predicate IsFailure() { Err? }
    function PropagateFailure<U>(): Result<U>
      requires Err?
    {
      Err(error)
    }
    function Extract(): T
      requires Ok?
    {
      value
    }
  }
}
