/** The error texts of message decryption and the rule that sorts a
    caught error into the fixed key-failure text or the generic prefixed
    form. */
module CryptoErrors {
  import opened JsString

  const InvalidEncryptedData := "Invalid encrypted data"
  const InvalidIv := "Invalid IV " + "(must be 12 " + "bytes for AES-GCM)"
  const DecryptionFailed := "Decryption failed - " + "the message may have been encrypted with a different key, " +
                            "corrupted, or sent before the secure connection was established"
  const FailurePrefix := "Failed to decrypt message: "
  const UnknownError := "Unknown error"

  /** What a failing step throws: an `Error` with its message, or a value
      that is not an `Error`. */
  datatype Thrown = ErrorObject(message: string) | NonError

  function ErrorMessage(t: Thrown): string {
    match t
    case ErrorObject(m) => m
    case NonError => UnknownError
  }

  /** The messages `decryptMessage` reports as a key or integrity failure. */
  predicate IsDecryptFailure(msg: string) {
    Includes(msg, "OperationError") || Includes(msg, "decrypt") || Includes(msg, "operation-specific")
  }

  /** The message of the error `decryptMessage` rethrows for `t`. */
  function Rethrown(t: Thrown): (r: string)
    ensures r == DecryptionFailed || r == FailurePrefix + ErrorMessage(t)
  {
    var m := ErrorMessage(t);
    if IsDecryptFailure(m) then DecryptionFailed else FailurePrefix + m
  }

  /** A message with no `O` and no `p` cannot name any of the three markers. */
  lemma NotDecryptFailureWithoutOp(msg: string)
    requires 'O' !in msg && 'p' !in msg
    ensures !IsDecryptFailure(msg)
  {
    NotIncludesByChar(msg, "OperationError", 0);
    NotIncludesByChar(msg, "operation-specific", 1);
    NotIncludesByChar(msg, "decrypt", 5);
  }

  /** A message with no `O`, no `o` and no `d` directly followed by `e`
      cannot name any of the three markers. */
  lemma NotDecryptFailureWithoutDe(msg: string)
    requires 'O' !in msg && 'o' !in msg
    requires forall i :: 0 <= i < |msg| - 1 ==> !(msg[i] == 'd' && msg[i + 1] == 'e')
    ensures !IsDecryptFailure(msg)
  {
    NotIncludesByChar(msg, "OperationError", 0);
    NotIncludesByChar(msg, "operation-specific", 0);
    NotIncludesByPair(msg, "decrypt", 0);
  }

  /** The invalid-data message does not read as a key failure, so it is
      rethrown behind the generic prefix. */
  lemma InvalidDataNotDecryptFailure()
    ensures !IsDecryptFailure(InvalidEncryptedData)
  {
    NotDecryptFailureWithoutDe(InvalidEncryptedData);
  }

  /** The IV message does not read as a key failure either. */
  lemma InvalidIvNotDecryptFailure()
    ensures !IsDecryptFailure(InvalidIv)
  {
    NotDecryptFailureWithoutOp(InvalidIv);
  }

  /** The generic form can never be mistaken for the fixed text: they differ
      in their first character. */
  lemma PrefixedIsNotFixedText(m: string)
    ensures FailurePrefix + m != DecryptionFailed
  {
    assert (FailurePrefix + m)[0] == 'F';
  }
}
