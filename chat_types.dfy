/** The records the relay stores and the client keeps: the key record and
    stored message of the two API routes and of the storage layer, and the
    interfaces of the chat types module. */
module ChatTypes {
  import opened Wrappers

  /** A client-chosen identity, sent in the `x-user-id` header. */
  type UserId = string

  /** One directory record: the exported public key, a pending encrypted
      session key addressed to this identity, and the registration time. */
  datatype KeyRecord = KeyRecord(publicKey: string, encryptedAESKey: Option<string>, timestamp: int)

  /** One queued envelope: ciphertext and IV in base64, the relay's id and
      timestamp, and the identity that posted it. */
  datatype StoredMessage = StoredMessage(id: string, encrypted: string, iv: string, timestamp: int, senderId: UserId)

  /** An envelope as the client hands it to decryption. */
  datatype EncryptedMessage = EncryptedMessage(encrypted: string, iv: string, encryptedKey: string, timestamp: int)

  datatype Sender = Me | Other

  /** One line of the local chat history. */
  datatype ChatMessage = ChatMessage(id: string, text: string, sender: Sender, timestamp: int, encrypted: bool)

  datatype KeyExchange = KeyExchange(publicKey: string, timestamp: int)
}
