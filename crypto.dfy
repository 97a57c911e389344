/** The byte and string plumbing around the Web Crypto calls of the crypto
    library: base64 of byte buffers through binary strings, the input checks
    and error mapping of message decryption, and the IV of message
    encryption. AES-GCM itself, RSA-OAEP and key handling are the functions
    passed in as parameters; `K` stands for a `CryptoKey`. */
module Crypto {
  import opened Wrappers
  import opened Base64
  import opened CryptoErrors
  import Utf8

  /** The AES-GCM IV length, in bytes, that encryption uses and decryption
      insists on. */
  const IvLength: nat := 12

  /** `arrayBufferToBase64`: a binary string with one code unit per byte,
      equal to the byte, then `btoa` of it. */
  method ArrayBufferToBase64(buffer: array<byte>) returns (s: string)
    ensures s == Encode(buffer[..])
  {
    var binary := "";
    var i := 0;
    while i < buffer.Length
      invariant 0 <= i <= buffer.Length
      invariant binary == BinaryString(buffer[..i])
    {
      binary := binary + [buffer[i] as char];
      i := i + 1;
    }
    assert buffer[..i] == buffer[..];
    BinaryBytesOfBinaryString(buffer[..]);
    s := Btoa(binary).value;
  }

  /** `base64ToArrayBuffer`: `atob`, then a buffer as long as the decoded
      binary string whose bytes are its code units. `None` where `atob`
      throws. */
  method Base64ToArrayBuffer(base64: string) returns (r: Option<array<byte>>)
    ensures r.None? <==> Atob(base64).None?
    ensures r.Some? ==> fresh(r.value) && r.value.Length == |Atob(base64).value|
    ensures r.Some? ==> forall i :: 0 <= i < r.value.Length ==> r.value[i] == Atob(base64).value[i] as int
    ensures r.Some? ==> ForgivingDecode(base64) == Some(r.value[..])
  {
    var decoded := Atob(base64);
    if decoded.None? {
      return None;
    }
    var binary := decoded.value;
    var bytes := new byte[|binary|];
    var i := 0;
    while i < |binary|
      invariant 0 <= i <= |binary|
      invariant forall k :: 0 <= k < i ==> bytes[k] == binary[k] as int
    {
      bytes[i] := binary[i] as int;
      i := i + 1;
    }
    assert BinaryString(bytes[..]) == binary;
    BinaryStringInjective(bytes[..], ForgivingDecode(base64).value);
    return Some(bytes);
  }

  lemma BinaryStringInjective(a: seq<byte>, b: seq<byte>)
    requires BinaryString(a) == BinaryString(b)
    ensures a == b
  {
    assert |a| == |b|;
    forall i | 0 <= i < |a| ensures a[i] == b[i] {
      assert BinaryString(a)[i] == BinaryString(b)[i];
    }
  }

  lemma BinaryBytesOfBinaryString(b: seq<byte>)
    ensures BinaryBytes(BinaryString(b)) == b
  {
    BinaryStringInjective(BinaryBytes(BinaryString(b)), b);
  }

  /** Any buffer comes back from `base64ToArrayBuffer(arrayBufferToBase64(buffer))`. */
  method ArrayBufferRoundTrip(buffer: array<byte>) returns (back: Option<array<byte>>)
    ensures back.Some? && back.value[..] == buffer[..]
  {
    var s := ArrayBufferToBase64(buffer);
    DecodeEncode(buffer[..]);
    back := Base64ToArrayBuffer(s);
  }

  /** The steps inside `decryptMessage`'s `try`: decode both inputs, check
      them, decrypt, decode the plaintext as UTF-8; or what was thrown. */
  function DecryptSteps<K>(encrypted: string, iv: string, key: K,
                           aesGcmDecrypt: (K, seq<byte>, seq<byte>) -> Result<seq<byte>, Thrown>,
                           atobError: Thrown): Result<string, Thrown>
  {
    match ForgivingDecode(encrypted)
    case None => Err(atobError)
    case Some(data) =>
      match ForgivingDecode(iv)
      case None => Err(atobError)
      case Some(ivData) =>
        if |data| == 0 then Err(ErrorObject(InvalidEncryptedData))
        else if |ivData| != IvLength then Err(ErrorObject(InvalidIv))
        else match aesGcmDecrypt(key, ivData, data)
          case Err(t) => Err(t)
          case Ok(plain) => Ok(Utf8.TextDecode(plain))
  }

  /** `decryptMessage(encrypted, iv, key)`; `atobError` is what `atob` throws
      on malformed input, which differs between browsers. */
  function DecryptMessage<K>(encrypted: string, iv: string, key: K,
                             aesGcmDecrypt: (K, seq<byte>, seq<byte>) -> Result<seq<byte>, Thrown>,
                             atobError: Thrown): (r: Result<string, string>)
    ensures r.Ok? ==>
              var data, ivData := ForgivingDecode(encrypted), ForgivingDecode(iv);
              data.Some? && ivData.Some? && |data.value| > 0 && |ivData.value| == IvLength &&
              aesGcmDecrypt(key, ivData.value, data.value).Ok? &&
              r.value == Utf8.TextDecode(aesGcmDecrypt(key, ivData.value, data.value).value)
  {
    match DecryptSteps(encrypted, iv, key, aesGcmDecrypt, atobError)
    case Ok(text) => Ok(text)
    case Err(t) => Err(Rethrown(t))
  }

  /** A ciphertext that decodes to no bytes is rejected with the
      invalid-data message, whatever the key and the cipher. */
  lemma EmptyCiphertextRejected<K>(encrypted: string, iv: string, key: K,
                                   aesGcmDecrypt: (K, seq<byte>, seq<byte>) -> Result<seq<byte>, Thrown>,
                                   atobError: Thrown)
    requires ForgivingDecode(encrypted) == Some([]) && ForgivingDecode(iv).Some?
    ensures DecryptMessage(encrypted, iv, key, aesGcmDecrypt, atobError) == Err(FailurePrefix + InvalidEncryptedData)
  {
    InvalidDataNotDecryptFailure();
  }

  /** A non-empty ciphertext with an IV that does not decode to 12 bytes is
      rejected with the IV message, whatever the key and the cipher. */
  lemma WrongIvLengthRejected<K>(encrypted: string, iv: string, key: K,
                                 aesGcmDecrypt: (K, seq<byte>, seq<byte>) -> Result<seq<byte>, Thrown>,
                                 atobError: Thrown)
    requires ForgivingDecode(encrypted).Some? && |ForgivingDecode(encrypted).value| > 0
    requires ForgivingDecode(iv).Some? && |ForgivingDecode(iv).value| != IvLength
    ensures DecryptMessage(encrypted, iv, key, aesGcmDecrypt, atobError) == Err(FailurePrefix + InvalidIv)
  {
    InvalidIvNotDecryptFailure();
  }

  /** An input that `atob` refuses, the ciphertext or the IV, ends in the
      catch with what `atob` threw, before any length check or decryption. */
  lemma AtobFailureRethrown<K>(encrypted: string, iv: string, key: K,
                               aesGcmDecrypt: (K, seq<byte>, seq<byte>) -> Result<seq<byte>, Thrown>,
                               atobError: Thrown)
    requires ForgivingDecode(encrypted).None? || ForgivingDecode(iv).None?
    ensures DecryptMessage(encrypted, iv, key, aesGcmDecrypt, atobError) == Err(Rethrown(atobError))
  {
  }

  /** A cipher failure whose message names an operation error, a decrypt or
      an operation-specific reason becomes the fixed key-failure text; any
      other failure keeps its message behind the generic prefix. */
  lemma CipherFailureMapping<K>(encrypted: string, iv: string, key: K,
                                aesGcmDecrypt: (K, seq<byte>, seq<byte>) -> Result<seq<byte>, Thrown>,
                                atobError: Thrown, t: Thrown)
    requires ForgivingDecode(encrypted).Some? && |ForgivingDecode(encrypted).value| > 0
    requires ForgivingDecode(iv).Some? && |ForgivingDecode(iv).value| == IvLength
    requires aesGcmDecrypt(key, ForgivingDecode(iv).value, ForgivingDecode(encrypted).value) == Err(t)
    ensures IsDecryptFailure(ErrorMessage(t)) <==>
              DecryptMessage(encrypted, iv, key, aesGcmDecrypt, atobError) == Err(DecryptionFailed)
    ensures !IsDecryptFailure(ErrorMessage(t)) ==>
              DecryptMessage(encrypted, iv, key, aesGcmDecrypt, atobError) == Err(FailurePrefix + ErrorMessage(t))
  {
    if !IsDecryptFailure(ErrorMessage(t)) {
      PrefixedIsNotFixedText(ErrorMessage(t));
    }
  }

  /** What `encryptMessage` returns: ciphertext and IV, both in base64. */
  datatype Envelope = Envelope(encrypted: string, iv: string)

  /** `encryptMessage(message, key)`: the UTF-8 bytes of the message under
      AES-GCM with 12 random bytes as the IV. `randomByte(i)` is the `i`-th
      value `getRandomValues` produces. */
  function EncryptMessage<K>(message: string, key: K, randomByte: nat -> byte,
                             aesGcmEncrypt: (K, seq<byte>, seq<byte>) -> seq<byte>): Envelope
  {
    var ivBytes := seq(IvLength, i requires 0 <= i < IvLength => randomByte(i));
    Envelope(Encode(aesGcmEncrypt(key, ivBytes, Utf8.Encode(message))), Encode(ivBytes))
  }

  /** The IV of an encrypted message decodes to exactly `IvLength` bytes,
      the random ones it was made from, so the receiving side's IV check
      passes. */
  lemma EncryptedIvLength<K>(message: string, key: K, randomByte: nat -> byte,
                             aesGcmEncrypt: (K, seq<byte>, seq<byte>) -> seq<byte>)
    ensures var iv := EncryptMessage(message, key, randomByte, aesGcmEncrypt).iv;
            ForgivingDecode(iv) == Some(seq(IvLength, i requires 0 <= i < IvLength => randomByte(i))) &&
            |ForgivingDecode(iv).value| == IvLength
  {
    DecodeEncode(seq(IvLength, i requires 0 <= i < IvLength => randomByte(i)));
  }

  /** If the cipher decrypts what it encrypts under the same key and IV, and
      its output is never empty (an AES-GCM ciphertext carries its tag),
      then decrypting an encrypted message gives the message back, less the
      U+FEFF at its front if it has one, which `TextDecoder` takes for a
      byte order mark. */
  lemma MessageRoundTrip<K>(message: string, key: K, randomByte: nat -> byte,
                            aesGcmEncrypt: (K, seq<byte>, seq<byte>) -> seq<byte>,
                            aesGcmDecrypt: (K, seq<byte>, seq<byte>) -> Result<seq<byte>, Thrown>,
                            atobError: Thrown)
    requires forall iv, p :: |aesGcmEncrypt(key, iv, p)| > 0 && aesGcmDecrypt(key, iv, aesGcmEncrypt(key, iv, p)) == Ok(p)
    ensures var e := EncryptMessage(message, key, randomByte, aesGcmEncrypt);
            (|message| == 0 || message[0] != Utf8.Bom) ==>
              DecryptMessage(e.encrypted, e.iv, key, aesGcmDecrypt, atobError) == Ok(message)
    ensures var e := EncryptMessage(message, key, randomByte, aesGcmEncrypt);
            |message| > 0 && message[0] == Utf8.Bom ==>
              DecryptMessage(e.encrypted, e.iv, key, aesGcmDecrypt, atobError) == Ok(message[1..])
  {
    var ivBytes := seq(IvLength, i requires 0 <= i < IvLength => randomByte(i));
    var plain := Utf8.Encode(message);
    var data := aesGcmEncrypt(key, ivBytes, plain);
    DecodeEncode(ivBytes);
    DecodeEncode(data);
    Utf8.TextRoundTrip(message);
  }
}
