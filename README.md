# Encrypted two-party chat: relay and client core

This project models the core of a browser chat in which two users relay
end-to-end encrypted messages through a small server.

**The server.** The server holds two module-level maps:
- a key directory from identity to key record;
- message queues from identity to waiting envelopes.

`/api/keys` registers public keys and delivers a wrapped session key to a
target. It also answers lookups by public key, and lists the other users' keys
while handing the caller's pending session key over once. `/api/messages`
fans a posted envelope out to every other existing queue, and drains the
caller's queue. The storage layer is the same pair of maps behind an async
interface; its Redis branch keeps only the newest 100 envelopes of a queue.

**The client.** The chat window:
- generates an RSA key pair and registers the exported public key;
- polls for keys. The side whose public key is the smaller string, by
  code-unit order, makes an AES-GCM session key, wraps it and delivers it.
  The other side waits for it;
- polls for messages, and admits each drained envelope through a
  duplicate / structure / staleness filter before decrypting it;
- sends a trimmed line only once a session key is recorded.

The key-sharing panel builds a link that carries the public key, and checks
a key that is typed in. The crypto library turns bytes into base64 through
binary strings, validates its decryption inputs and maps errors onto fixed
message texts.

**Conventions of the model.**
- A JavaScript `Map` is a Dafny `map` plus an `order: seq` of first
  insertion. The listing order, the first lookup hit, and the `keys[0]` the
  window picks all depend on it.
- JavaScript truthiness is written out: `""` is falsy, and so is an
  establishment time of `0`.
- A React handler reads state from the render it was created in. Each
  window step therefore takes a `snap: Session` for what it reads and
  updates a live `Session`. The two refs (processed ids and establishment
  time) and the functional history update are read live.
- `DeliveryFilter` states the admission rule of the message loop.
- `Crypto.DecryptMessage` is the library function. The window receives
  it as a `MessageDecryptor` parameter, and `ChatWindow.LibraryDecryptor`
  instantiates it.

**Opaque operations.** Web Crypto operations, the clock, `Math.random`, ids
and network answers all become parameters:
- ciphers and key wrapping are functions;
- `importOk`, `generateOk`, `wrapOk` and `deliveryOk` record whether an await succeeds;
- a reply datatype stands for what a `fetch` answered.

## Model

| member | source | states |
|---|---|---|
| KeysRoute.KeyDirectory.Post | app/api/keys/route.ts:19-59 | A body with a truthy encrypted key and target is a delivery: it sets only that target's pending key, or answers 404 when the target has no record. Otherwise a missing public key answers 400, and a public key replaces the caller's whole record with no pending key. The map order stays well formed. |
| KeysRoute.KeyDirectory.Get | app/api/keys/route.ts:62-118 | A truthy `lookup` answers the first other user in map order who holds that public key, and changes nothing. Otherwise the reply lists exactly the other users' keys in map order, and the caller's pending key is returned once and cleared. |
| KeysRoute.OtherKeysSamePublicKeys | app/api/keys/route.ts:89-105 | Clearing a pending key does not change the listing, which depends only on the public keys. |
| KeysRoute.DeliverThenFetchTwice | app/api/keys/route.ts:25-95 | A delivered payload reaches the target's next GET, and the GET after that returns none. |
| KeysRoute.ReregisterDropsPending | app/api/keys/route.ts:46-49 | If the target registers its key again between a delivery and its GET, the payload is lost. |
| KeyTable.OrderAfterSetWellOrdered | app/api/keys/route.ts:46-49 | `Map.set` keeps every key listed exactly once in insertion order. |
| KeyTable.OtherKeysMembership | app/api/keys/route.ts:98-105 | An entry is listed if and only if it is another user's record with that user's own public key. |
| KeyTable.OtherKeysDistinct | app/api/keys/route.ts:98-105 | No user is listed twice. |
| KeyTable.FirstOwner | app/api/keys/route.ts:70-78 | A hit is a user who holds the key and is not the excluded caller, and no earlier user in map order qualifies. A miss means no such user exists. |
| KeyTable.CollectOtherKeys | app/api/keys/route.ts:98-105 | The listing loop builds the listing specified by `OtherKeys`. |
| KeyTable.FindOwner | app/api/keys/route.ts:70-78 | The search loop returns the owner specified by `FirstOwner`. |
| MessagesRoute.AfterPost | app/api/messages/route.ts:43-54 | The sender gets a queue, unchanged if it had one. Every other existing queue gains the envelope at its end. No other identity gets a queue. |
| MessagesRoute.MessageRelay.Post | app/api/messages/route.ts:22-67 | A falsy ciphertext or IV answers 400 and touches nothing. Otherwise the envelope, stamped with the caller, the id and the time, is fanned out as in `AfterPost`. |
| MessagesRoute.MessageRelay.Get | app/api/messages/route.ts:70-86 | The reply is the caller's queue as it was (empty if it had none), and the caller then holds an empty queue. |
| MessagesRoute.StepQueue | app/api/messages/route.ts:44-76 | A GET by `u` empties `u`'s queue. A POST by someone else appends to it if it exists. Nothing else touches it. |
| MessagesRoute.DeliveryConservation | app/api/messages/route.ts:44-76 | Over any run of requests, what `u` drained plus what still waits equals `u`'s starting queue plus every envelope others posted while `u` held a queue. It is in posting order, with nothing lost or duplicated. |
| MessagesRoute.StepConserves | app/api/messages/route.ts:44-76 | For one request, what `u` is handed followed by what is left equals what was there followed by what the request adds for `u`. |
| MessagesRoute.InboundExcludesOwn | app/api/messages/route.ts:50-54 | Nobody is sent their own envelopes. |
| MessagesRoute.NoBackfill | app/api/messages/route.ts:44-57 | An identity without a queue receives nothing posted before its first GET. |
| MessagesRoute.DrainPostDrain | app/api/messages/route.ts:50-76 | After one drain, another user's post reaches the caller exactly once. |
| Storage.KeyMap.Set | lib/storage.ts:58 | `Map.prototype.set`, as `setKey` applies it to the store and the routes to the map `getAllKeys` returns: the record is replaced in place, and a new id goes to the end of the insertion order. |
| Storage.MemoryStorage.SetKey | lib/storage.ts:54-60 | It replaces the record and leaves the queues alone. |
| Storage.MemoryStorage.GetKey | lib/storage.ts:62-69 | The result is present if and only if the id has a record, and then it is that record. |
| Storage.MemoryStorage.GetAllKeys | lib/storage.ts:71-86 | The result is a new map with the same entries in the same order. Its records are shared with the store (see Left out). |
| Storage.MemoryStorage.FindKeyByPublicKey | lib/storage.ts:88-96 | The result is the first record in map order with that public key. It is `None` if and only if no record has it. No caller is excluded. |
| Storage.MemoryStorage.AddMessage | lib/storage.ts:99-118 | The message is appended to the user's queue, which is created if missing. |
| Storage.MemoryStorage.GetMessages | lib/storage.ts:120-131 | The result is the queue as it was, and the queue is then empty. |
| Storage.MemoryStorage.BroadcastMessage | lib/storage.ts:133-140 | Every user with a key record other than the sender gets one copy at the end of their queue. Nobody else's queue changes. |
| Storage.KeepNewest | lib/storage.ts:106 | `slice(-100)` keeps a suffix of length `min(n, 100)`. |
| Storage.RedisAppend | lib/storage.ts:99-111 | The result is at most 100 long and ends with the new message. Below the bound it is a plain append. |
| Storage.RedisAppendAllKeepsNewest | lib/storage.ts:99-111 | Any number of trimmed appends leaves the newest 100 of everything appended, in order. |
| Storage.SetThenGet | lib/storage.ts:54-69 | `getKey` after `setKey` returns the stored record. Other ids are unaffected. |
| Storage.CopyIsDetached | lib/storage.ts:71-86 | A `set` on the map `getAllKeys` returned does not change the store's records or their order. |
| Storage.GetMessagesTwice | lib/storage.ts:120-131 | Two reads give the queue, then nothing. |
| Crypto.ArrayBufferToBase64 | lib/crypto.ts:210-217 | The binary-string loop gives the standard base64 of the buffer's bytes. |
| Crypto.Base64ToArrayBuffer | lib/crypto.ts:219-226 | It fails exactly where `atob` throws. It returns a fresh buffer whose bytes are the decoded code units, equal to the forgiving decode of the input. |
| Crypto.ArrayBufferRoundTrip | lib/crypto.ts:210-226 | Every buffer comes back from base64. |
| Crypto.DecryptMessage | lib/crypto.ts:153-207 | On success, both inputs decode, the data is non-empty, the IV is 12 bytes, the cipher succeeds, and the text is `TextDecoder`'s decoding of its output, without a leading byte order mark. |
| Crypto.AtobFailureRethrown | lib/crypto.ts:153-207 | A ciphertext or IV that `atob` refuses yields the prefixed or mapped text of what `atob` threw. |
| Crypto.EmptyCiphertextRejected | lib/crypto.ts:163-165 | Empty data is rejected with the prefixed invalid-data message. |
| Crypto.WrongIvLengthRejected | lib/crypto.ts:166-168 | An IV that is not 12 bytes is rejected with the prefixed IV message. |
| Crypto.CipherFailureMapping | lib/crypto.ts:181-206 | A cipher error becomes the fixed key-failure text if and only if its message names an operation error, a decrypt, or an operation-specific reason. Any other error gets the generic prefix. |
| Crypto.EncryptedIvLength | lib/crypto.ts:128-150 | The IV field of an encrypted message decodes to exactly the 12 random bytes it was made from. |
| Crypto.MessageRoundTrip | lib/crypto.ts:128-207 | For a cipher that inverts itself, decrypting an encrypted message gives the message back. A message that starts with U+FEFF comes back without that character. |
| CryptoErrors.Rethrown | lib/crypto.ts:182-205 | The rethrown message is the fixed text or the prefixed original. |
| CryptoErrors.InvalidDataNotDecryptFailure | lib/crypto.ts:201-205 | The invalid-data text is not read as a key failure. |
| CryptoErrors.InvalidIvNotDecryptFailure | lib/crypto.ts:201-205 | The IV text is not read as a key failure. |
| CryptoErrors.PrefixedIsNotFixedText | lib/crypto.ts:201-205 | The two rethrown forms never coincide. |
| Base64.Encode | lib/crypto.ts:216 | `btoa` output has length `4*ceil(n/3)` and uses only the alphabet and `=`. |
| Base64.RemoveAsciiWhitespace | lib/crypto.ts:220 | `atob` ignores ASCII whitespace: the result has none, and input without whitespace is unchanged. |
| Base64.DecodeEncode | lib/crypto.ts:210-226 | Forgiving decoding inverts encoding. |
| Base64.BinaryString | lib/crypto.ts:212-215 | The binary string has one code unit per byte. |
| Base64.BinaryBytes | lib/crypto.ts:221-224 | `charCodeAt` reads back bytes. |
| Base64.Atob | lib/crypto.ts:220 | `atob` throws if and only if the forgiving decode fails. Otherwise it returns a binary string whose bytes are the decoded bytes. |
| Base64.AtobBtoa | lib/crypto.ts:210-226 | `atob(btoa(s))` gives `s` back for a binary string. |
| Utf8.EncodeChar | lib/crypto.ts:132-133 | Each character of the text is encoded as one to four bytes. |
| Utf8.DecodeEncode | lib/crypto.ts:132-180 | Strict decoding inverts encoding. |
| Utf8.DecodeReplacingWellFormed | lib/crypto.ts:179-180 | On well-formed input, the replacing decoder agrees with the strict one. |
| Utf8.TextDecode | lib/crypto.ts:179-180 | `TextDecoder` decodes with replacement after dropping the bytes of a leading byte order mark. Without one, it is the replacing decode. |
| Utf8.EncodeStartsWithBom | lib/crypto.ts:132-180 | A text encodes to bytes that start with a byte order mark if and only if it starts with U+FEFF. |
| Utf8.TextRoundTrip | lib/crypto.ts:132-180 | `TextDecoder` undoes `TextEncoder` for a text that does not start with U+FEFF. For one that does, it gives the text without that first character. |
| JsString.Trim | components/KeyShare.tsx:45 | `trim()` removes a whitespace prefix and suffix and leaves an unpadded middle. |
| JsString.TrimEmptyIff | components/KeyShare.tsx:45-49 | A trimmed text is empty if and only if every character is whitespace. |
| JsString.TrimIdempotent | components/KeyShare.tsx:45 | Trimming twice changes nothing. |
| JsString.TrimOfTrimmed | components/KeyShare.tsx:45 | Text with no outer whitespace is its own trim. |
| JsString.LexLessIrreflexive | components/ChatWindow.tsx:313 | No key is smaller than itself. |
| JsString.LexLessTrichotomy | components/ChatWindow.tsx:313 | Of two distinct keys, exactly one is the smaller. |
| JsString.LexLessTransitive | components/ChatWindow.tsx:313 | String `<` is transitive. |
| JsString.IncludesIff | lib/crypto.ts:201 | `includes` holds if and only if the substring occurs at some index. |
| DeliveryFilter.Classify | components/ChatWindow.tsx:202-234 | An envelope is admitted if and only if its id is new, it has ciphertext and IV, and it is not stale. |
| DeliveryFilter.AdmittedAreValid | components/ChatWindow.tsx:202-243 | Every admitted envelope was drained, is new, well formed and fresh. |
| DeliveryFilter.AdmittedIdsDistinct | components/ChatWindow.tsx:202-207 | No id is admitted twice in one drain. |
| DeliveryFilter.RepeatIsDuplicate | components/ChatWindow.tsx:204-207 | A later envelope with an id already seen in the drain is a duplicate. This holds even when the first one was malformed, because ids are marked before the structure check. |
| DeliveryFilter.ThresholdIff | components/ChatWindow.tsx:224-233 | With a recorded time `T`, a fresh, well-formed envelope is admitted if and only if its stamp is at least `T - 10000`. |
| DeliveryFilter.NoTimeFilterUnrecorded | components/ChatWindow.tsx:224-234 | With no recorded (truthy) time, there is no time filter. |
| Uri.EncodeUriComponent | components/KeyShare.tsx:34 | The encoding contains no `&`, `=`, `+`, `?` or `#`. |
| Uri.DecodeWithoutPercent | components/ChatWindow.tsx:54 | `decodeURIComponent` leaves text without `%` unchanged. |
| Uri.FormBytesOfEncoding | components/ChatWindow.tsx:49-50 | The form parser reads an encoded string back as its UTF-8 bytes. |
| Uri.FormDecodeOfEncoding | components/ChatWindow.tsx:49-50 | The form decoding of an encoded string is the string. |
| Uri.SearchParamOfEncoded | components/ChatWindow.tsx:49-50 | `URLSearchParams.get` returns a value exactly as it was encoded. |
| KeyShare.ShareLink | components/KeyShare.tsx:30-41 | A link exists if and only if the user's key is truthy. |
| KeyShare.ShareLinkCarriesKey | components/KeyShare.tsx:34 | The opener's `get("key")` on the link returns the sharer's key unchanged. |
| KeyShare.KeySharePanel.SubmitKey | components/KeyShare.tsx:43-61 | The trimmed entry is forwarded if and only if it is non-blank and `atob` accepts it. On success the field is cleared and closed. A blank entry gets the first error text, and non-base64 input gets the second. A rejected entry is kept. |
| KeyShare.ForwardedKeyIsStable | components/KeyShare.tsx:45-55 | A forwarded key passes the check again unchanged. |
| KeyShare.ExportedKeyAccepted | components/KeyShare.tsx:51-55 | Any exported key is accepted exactly as typed. |
| KeyShare.BlankEntryRejected | components/KeyShare.tsx:45-49 | All-whitespace input is never forwarded. |
| ChatWindow.Outgoing | components/ChatWindow.tsx:405-429 | An envelope is posted if and only if the send guards pass: the trimmed text is non-blank, a key is held, a peer key is set, and a truthy establishment time is recorded. |
| ChatWindow.Window.constructor | components/ChatWindow.tsx:31-44 | The initial state of every `useState` and ref. |
| ChatWindow.Window.AddMessage | components/ChatWindow.tsx:394-403 | One line is appended to the history, and nothing else changes. |
| ChatWindow.Window.Initialize | components/ChatWindow.tsx:63-103 | Key generation, export and registration, following `AfterInitialize`. |
| ChatWindow.Window.ReceivePublicKey | components/ChatWindow.tsx:268-356 | `handleReceivePublicKey`, following `AfterReceivePublicKey` over the render it reads. |
| ChatWindow.Window.DecideKey | components/ChatWindow.tsx:310-350 | The key decision follows `AfterKeyDecision`: without a session key, the side with the smaller key makes, wraps and delivers one, and the other waits. |
| ChatWindow.Window.PollForKeys | components/ChatWindow.tsx:110-170 | One key poll, following `AfterPollForKeys`. |
| ChatWindow.Window.TakeSessionKeyOffer | components/ChatWindow.tsx:133-152 | The first branch of a key poll follows `AfterSessionKeyOffer`: a pending wrapped key is adopted if it unwraps, and otherwise only the status changes. |
| ChatWindow.Window.ReceiveMessage | components/ChatWindow.tsx:364-392 | The history gains the plaintext when the envelope decrypts, and is otherwise unchanged. |
| ChatWindow.Window.PollForMessages | components/ChatWindow.tsx:186-249 | The admission loop leaves the marked ids and the history that `AfterPollForMessages` specifies. |
| ChatWindow.Window.Send | components/ChatWindow.tsx:405-451 | The posted envelope is `Outgoing`, and the new state is `AfterSend`. |
| ChatWindow.Window.OpenSharedLink | components/ChatWindow.tsx:47-60 | The link effect over the first render, following `AfterOpenSharedLink`. |
| ChatWindow.ConnectionIsKept | components/ChatWindow.tsx:270-272 | A render that holds a key and a peer key ignores any received public key. |
| ChatWindow.InitiatorEstablishes | components/ChatWindow.tsx:310-348 | A new session key appears if and only if this side initiates and key generation succeeds. A time is recorded and the ids are cleared if and only if it also wraps and delivers the key. |
| ChatWindow.ExactlyOneInitiator | components/ChatWindow.tsx:310-315 | Of two windows with distinct keys that receive each other's keys, exactly one makes the session key. |
| ChatWindow.UnresolvedPeerStops | components/ChatWindow.tsx:276-301 | A key that fails to import or is not found leaves no session key and no peer id, with the matching status. |
| ChatWindow.ReceiveKeepsHeldKey | components/ChatWindow.tsx:310-336 | No key exchange records a time without a key, and none replaces a session key the render holds. |
| ChatWindow.PollForKeysKeepsHeldKey | components/ChatWindow.tsx:133-162 | The same holds for a whole key poll: a key the render holds survives it. |
| ChatWindow.KnownPeerOnlyTakesOffers | components/ChatWindow.tsx:155-166 | Once a peer key is known, a poll only takes pending session keys. |
| ChatWindow.OfferedKeyAdopted | components/ChatWindow.tsx:134-151 | An offered key that unwraps becomes the key, records the time and clears the ids. If it fails to unwrap, only the status changes. |
| ChatWindow.SamePollShowsWaiting | components/ChatWindow.tsx:133-166 | A responder that gets the key and first sees the peer in the same poll ends connected, but shows the waiting status. |
| ChatWindow.SamePollReplacesOfferedKey | components/ChatWindow.tsx:133-162 | A key poll that unwraps an offered key and first lists a peer with a larger key replaces the offered key with a freshly generated one. |
| ChatWindow.ExportedKeyDecodesToItself | components/ChatWindow.tsx:54 | An exported key survives `decodeURIComponent`. |
| ChatWindow.SharedLinkKey | components/ChatWindow.tsx:49-54 | The link handler receives exactly the sharer's key. |
| ChatWindow.SharedLinkStalls | components/ChatWindow.tsx:47-60 | As written, the opener never makes the session key. A sharer with the larger key waits for it (see Findings). |
| ChatWindow.IntendedLinkPairs | components/ChatWindow.tsx:47-60 | With the corrected handler, exactly one side makes the key, and the opener takes the sharer under the identity the server names. |
| ChatWindow.IntendedOpenerResolves | components/ChatWindow.tsx:47-60 | With the corrected handler, the opener takes the sharer's key under the identity the server names. It makes the session key if and only if its own key is the smaller. |
| ChatWindow.ListedPeerInitiates | components/ChatWindow.tsx:154-162 | A key poll with no pending offer that first lists a peer takes that peer's key. It makes the session key if and only if its own key is the smaller. |
| ChatWindow.Plaintexts | components/ChatWindow.tsx:202-243 | There are no more plaintexts than admitted envelopes. |
| ChatWindow.ReceivedLines | components/ChatWindow.tsx:394-403 | There is one line per text. |
| ChatWindow.ReadAllAppends | components/ChatWindow.tsx:202-243 | Reading only appends: one line from the other user per admitted envelope that decrypts, in drain order. |
| ChatWindow.PlaintextsFromAdmitted | components/ChatWindow.tsx:202-243 | Every plaintext is the reading of some admitted envelope. |
| ChatWindow.PollReadsOnlyAdmitted | components/ChatWindow.tsx:186-249 | A message poll marks every drained id and keeps the old history in front. Each appended line carries the decryption of a drained envelope that was new, well formed and fresh. |
| ChatWindow.NothingAdmittedTwice | components/ChatWindow.tsx:204-207 | A batch whose every id is marked admits nothing. |
| ChatWindow.RedeliveryIgnored | components/ChatWindow.tsx:202-207 | Reading the same batch twice equals reading it once. |
| ChatWindow.PollForMessagesKeepsKeys | components/ChatWindow.tsx:186-249 | Reading does not touch the key, the peer or the time. |
| ChatWindow.SendKeepsKeys | components/ChatWindow.tsx:405-451 | Sending does not touch them either. |
| ChatWindow.SendRecordsOnlyDelivered | components/ChatWindow.tsx:405-451 | A guarded send clears the input and shows the line if and only if the relay answered ok; otherwise it shows the failure status. A blocked send changes neither the history nor the input. |
| ChatWindow.SentEnvelopeReadable | components/ChatWindow.tsx:377-381 | A sent envelope has both fields. It decrypts to its text, less a leading U+FEFF. |
| ChatWindow.PeerReadsSentText | components/ChatWindow.tsx:424-446 | A peer holding the same key reads exactly the sender's trimmed line. |
| ChatWindow.ReadyWhateverRegistration | components/ChatWindow.tsx:82-96 | The window shows ready whatever the registration answered, so a failure status is overwritten. |

## Findings

| source | as written | input that shows it | evidently intended | confidence | as-written member | corrected member |
|---|---|---|---|---|---|---|
| components/ChatWindow.tsx:47-60 | The link effect runs once, with the first render's state, where the window has no public key yet. It passes an invented target `user-<now>`. The opener therefore never makes the session key, yet it records the sharer's key, which turns off its own key-listing branch. | The opener's exported key sorts before the sharer's. | The opener resolves the sharer, and exactly one of the two makes the key, as for keys found by polling or typed in. | medium, not executed | ChatWindow.SharedLinkStalls | ChatWindow.AfterOpenSharedLinkIntended, with ChatWindow.IntendedLinkPairs |

In the stalled case the sharer waits after seeing the opener's key
(`SharedLinkStalls`). From then on both windows know a peer key, so by
`KnownPeerOnlyTakesOffers` their polls only take offers, and neither
window makes one. `AfterOpenSharedLinkIntended` reads the render current
once the window's own key exists, and lets the server lookup name the
sharer. `IntendedLinkPairs` proves that exactly one side then makes the
key. `Window.OpenSharedLink` keeps the as-written behaviour.

## Left out

- Web Crypto (RSA-OAEP, AES-GCM, key generation, import and export) is left
  out. Those operations are function parameters or success flags; only the
  byte and string plumbing around them is modelled. A failed
  `generateAESKey` is the `generateOk` flag: no key is set and the handler
  shows the invalid-key status.
- The key poll's two branches both read the render's empty session key.
  A key adopted from an offer can therefore be replaced in the same poll by
  a freshly generated one, as `SamePollReplacesOfferedKey` shows; the
  "held key" lemmas cover only a key the render already holds.
- `fetch`, JSON parsing, HTTP responses and `NextResponse` are left out.
  Replies are datatypes, and each route's 500 `catch` is not modelled
  because no modelled step throws.
- Timers, intervals, effect scheduling and concurrent interleavings of
  async steps are left out. Each handler runs as one atomic step over the
  render it was created in, and `pollCount` is a parameter.
- `Date.now`, `Math.random`, both `getUserId` functions, `localStorage` and
  the `x-user-id` header are parameters. The client's id generation is not
  modelled.
- `userSessions` in the messages route is never used, and is not modelled.
- The Redis branch of storage is modelled only for its keep-newest-100
  trim. TTLs, `keys('key:*')` order and JSON round trips are left out.
- Strings are sequences of Unicode scalar values, not UTF-16 code units.
  For the base64 keys the comparison order is the same.
  `Utf8.DecodeReplacing` maps each ill-formed byte to U+FFFD, which
  approximates TextDecoder's maximal-subpart rule.
- Storage.MemoryStorage.GetKey and Storage.MemoryStorage.GetAllKeys: key
  records are values. So the model does not capture that `getKey` returns
  the stored object itself, or that `new Map(inMemoryKeys)` copies only the
  map and shares its records. In the source, writing a field of a returned
  record changes the store. The routes never do this; they call `set`
  after every change.
- Storage.CopyIsDetached covers only a `set` on the copy. A write to a field
  of a shared record would reach the store.
- What `atob` throws is browser-specific, so it is the parameter
  `atobError`.
- Console logging, the UI, QR codes, the clipboard and `handleCopy` are
  left out.
- `URLSearchParams` is modelled for a query string without `#`.
  `window.location` parts are parameters.
- `encryptMessage` cannot throw in the model.
  `ChatWindow.SendRecordsOnlyDelivered`: the send failure is shown only
  when the relay answers not ok, not when encryption throws.
- `ChatWindow.Window.ReceiveMessage` and `ChatWindow.Window.PollForMessages`
  take `decryptMessage` as a parameter, the library's being
  `LibraryDecryptor`. `ChatWindow.PeerReadsSentText` uses the library
  function itself.
- `ChatWindow.SharedLinkStalls` states the stall for one poll of each side.
  That later polls stay stalled follows from `KnownPeerOnlyTakesOffers`;
  no lemma about a whole run states it.
