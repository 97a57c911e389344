/** The chat window's side of the protocol. Its React state and refs are the
    fields of `Window`; each handler is a method proved against a function
    from the state before it to the state after it.

    A handler reads React state through the render it was created in, the
    snapshot `snap`, and sees a setter's effect only in later renders, while
    it reads and writes the refs (`processedIds`, `establishedAt`) and the
    functional update of the history live. Each step is taken as a whole:
    the awaits inside a handler are not interleaved with other handlers.
    Web Crypto and the server's answers are parameters: `ExchangeEnv` for a
    key exchange, the replies of the polls, and the AES-GCM functions. */
module ChatWindow {
  import opened Wrappers
  import opened ChatTypes
  import opened JsString
  import opened DeliveryFilter
  import opened CryptoErrors
  import Crypto
  import Utf8
  import Base64
  import Uri
  import KeyShare
  import KeyTable

  /** Stands for a `CryptoKey` the window holds. */
  type KeyHandle = nat

  /** AES-GCM decryption and encryption under a session key. */
  type Decryptor = (KeyHandle, seq<byte>, seq<byte>) -> Result<seq<byte>, Thrown>
  type Encryptor = (KeyHandle, seq<byte>, seq<byte>) -> seq<byte>

  /** `decryptMessage(encrypted, iv, key)` as the window calls it: the
      plaintext or the message of what it throws. */
  type MessageDecryptor = (string, string, KeyHandle) -> Result<string, string>

  /** The library's `decryptMessage` over the cipher `decrypt`, `atob`
      throwing `atobError`. */
  function LibraryDecryptor(decrypt: Decryptor, atobError: Thrown): MessageDecryptor {
    (encrypted: string, iv: string, key: KeyHandle) => Crypto.DecryptMessage(encrypted, iv, key, decrypt, atobError)
  }

  const InitialStatus := "Initializing encryption..."
  const GeneratingStatus := "Generating RSA key pair..."
  const RegisterFailedStatus := "Failed to register with server. " + "Please refresh."
  const ServerUnreachableStatus := "Failed to connect to server. " + "Please check your connection."
  const ReadyStatus := "Ready - " + "Share your public key or wait for connection..."
  const InitFailedStatus := "Failed to initialize encryption"
  const EstablishingStatus := "Establishing secure connection..."
  const InvalidKeyStatus := "Failed to establish connection - " + "Invalid public key"
  const NotFoundStatus := "User not found on server. " + "They need to be connected first."
  const LookupFailedStatus := "Failed to find user on server"
  const EstablishedStatus := "Secure connection established - " + "You can now send messages"
  const EstablishFailedStatus := "Failed to establish connection"
  const AwaitingKeyStatus := "Waiting for secure key exchange..."
  const DecryptingKeyStatus := "Decrypting shared key..."
  const KeyDecryptFailedStatus := "Failed to decrypt shared key"
  const WaitingPeerStatus := "Waiting for another user... " + "Share your public key or wait for connection"
  const NoPeerStatus := "Please wait for other user to connect"
  const NotSecureStatus := "Please wait for secure connection to be established"
  const SendFailedStatus := "Failed to send message"

  /** After this many key polls without a peer the window says it waits. */
  const QuietPolls: nat := 5

  /** Everything the window keeps: its state (`hasKeyPair` for `myKeyPair`)
      and the two refs the protocol uses. */
  datatype Session = Session(
    myPublicKey: Option<string>,
    hasKeyPair: bool,
    otherPublicKey: Option<string>,
    otherUserId: Option<UserId>,
    aesKey: Option<KeyHandle>,
    establishedAt: Option<int>,
    processedIds: set<string>,
    messages: seq<ChatMessage>,
    inputValue: string,
    status: string,
    isInitializing: bool)

  function InitialSession(): Session {
    Session(None, false, None, None, None, None, {}, [], "", InitialStatus, true)
  }

  /** `aesKey && otherPublicKey`: the guard that keeps a connection. */
  predicate Connected(snap: Session) {
    snap.aesKey.Some? && Truthy(snap.otherPublicKey)
  }

  /** A recorded establishment time belongs to a held session key. */
  predicate Consistent(s: Session) {
    s.establishedAt.Some? ==> s.aesKey.Some?
  }

  /** The answer to `GET /api/keys?lookup=…`: it could not be read, or it
      says whether the key was found and whose it is. */
  datatype LookupReply = LookupFailed | LookupAnswer(found: bool, userId: Option<UserId>)

  /** What a key exchange meets: whether the key imports, the lookup answer,
      the fresh AES key, whether wrapping it under the other key succeeds,
      whether the server accepts the delivery, and the clock. */
  datatype ExchangeEnv = ExchangeEnv(importOk: bool, lookup: LookupReply, generateOk: bool, freshKey: KeyHandle,
                                     wrapOk: bool, deliveryOk: bool, now: int)

  /** `handleReceivePublicKey(publicKey, target)`. */
  function AfterReceivePublicKey(snap: Session, s: Session, publicKey: string, target: Option<UserId>,
                                 env: ExchangeEnv): Session
  {
    if Connected(snap) then s
    else if !env.importOk then s.(status := InvalidKeyStatus)
    else
      var s1 := s.(otherPublicKey := Some(publicKey), status := EstablishingStatus);
      if Truthy(target) then AfterTargetKnown(snap, s1, publicKey, target.value, env)
      else match env.lookup
        case LookupFailed => s1.(status := LookupFailedStatus)
        case LookupAnswer(found, userId) =>
          if found && Truthy(userId) then AfterTargetKnown(snap, s1, publicKey, userId.value, env)
          else s1.(status := NotFoundStatus)
  }

  /** The part of `handleReceivePublicKey` after the other user is known. */
  function AfterTargetKnown(snap: Session, s: Session, publicKey: string, target: UserId, env: ExchangeEnv): Session {
    AfterKeyDecision(snap, s.(otherUserId := Some(target)), publicKey, env)
  }

  /** Who makes the session key: the side whose public key is smaller makes,
      wraps and sends it, the other side waits for it. */
  function AfterKeyDecision(snap: Session, s: Session, publicKey: string, env: ExchangeEnv): Session {
    if snap.aesKey.Some? || !Truthy(snap.myPublicKey) then s
    else if !LexLess(snap.myPublicKey.value, publicKey) then s.(status := AwaitingKeyStatus)
    else if !env.generateOk then s.(status := InvalidKeyStatus)
    else
      var s1 := s.(aesKey := Some(env.freshKey));
      if !env.wrapOk then s1.(status := InvalidKeyStatus)
      else if !env.deliveryOk then s1.(status := EstablishFailedStatus)
      else s1.(establishedAt := Some(env.now), processedIds := {}, status := EstablishedStatus)
  }

  /** The answer to `GET /api/keys`: it could not be read, or the listing of
      other keys and the pending session key addressed to this window. */
  datatype KeysReply = KeysUnavailable | KeysListing(keys: seq<KeyTable.KeyEntry>, encryptedAESKey: Option<string>)

  /** One run of `pollForKeys`, the `pollCount`-th. `unwrapped` is what
      `decryptAESKeyWithRSA` gives for the pending session key (`None` where
      it throws) and `now` the time it returns. */
  function AfterPollForKeys(snap: Session, s: Session, reply: KeysReply, pollCount: nat,
                            unwrapped: Option<KeyHandle>, now: int, env: ExchangeEnv): Session
  {
    if !Truthy(snap.myPublicKey) || !snap.hasKeyPair || reply.KeysUnavailable? then s
    else
      var s1 := AfterSessionKeyOffer(snap, s, reply.encryptedAESKey, unwrapped, now);
      if |reply.keys| > 0 && !Truthy(snap.otherPublicKey) then
        if snap.aesKey.None? then
          var first := reply.keys[0];
          AfterReceivePublicKey(snap, s1.(otherUserId := Some(first.userId)), first.publicKey, Some(first.userId), env)
        else s1
      else if !Truthy(snap.otherPublicKey) && pollCount > QuietPolls then s1.(status := WaitingPeerStatus)
      else s1
  }

  /** The first branch of `pollForKeys`: a pending session key is taken only
      when none is held. */
  function AfterSessionKeyOffer(snap: Session, s: Session, encryptedAESKey: Option<string>,
                                unwrapped: Option<KeyHandle>, now: int): Session
  {
    if !Truthy(encryptedAESKey) || snap.aesKey.Some? || !snap.hasKeyPair then s
    else match unwrapped
      case Some(k) => s.(aesKey := Some(k), establishedAt := Some(now), processedIds := {}, status := EstablishedStatus)
      case None => s.(status := KeyDecryptFailedStatus)
  }

  /** The envelope `pollForMessages` hands to `handleReceiveMessage`. */
  function EnvelopeOf(m: Incoming): EncryptedMessage {
    EncryptedMessage(m.encrypted.GetOr(""), m.iv.GetOr(""), "", m.timestamp)
  }

  /** What `handleReceiveMessage(e)` hands to `addMessage`: the plaintext,
      or `None` where it returns early or decryption throws. */
  function Reading(snap: Session, e: EncryptedMessage, decryptMessage: MessageDecryptor): Option<string> {
    if !snap.hasKeyPair || snap.aesKey.None? then None
    else if e.encrypted == "" || e.iv == "" then None
    else match decryptMessage(e.encrypted, e.iv, snap.aesKey.value)
      case Ok(text) => Some(text)
      case Err(_) => None
  }

  /** `handleReceiveMessage(e)` with `addMessage`: the history with the
      plaintext appended when `e` decrypts, unchanged otherwise. The new
      line's id and time are `id` and `now`. */
  function AfterReceiveMessage(snap: Session, history: seq<ChatMessage>, e: EncryptedMessage,
                               decryptMessage: MessageDecryptor, id: string, now: int): seq<ChatMessage>
  {
    match Reading(snap, e, decryptMessage)
    case Some(text) => history + [ChatMessage(id, text, Other, now, true)]
    case None => history
  }

  /** The history after the admitted envelopes are read in order; the line
      added at history length `n` gets id `localId(n)` and time `clock(n)`. */
  function ReadAll(snap: Session, history: seq<ChatMessage>, admitted: seq<Incoming>, decryptMessage: MessageDecryptor, localId: nat -> string, clock: nat -> int): seq<ChatMessage>
    decreases |admitted|
  {
    if |admitted| == 0 then history
    else
      var h := ReadAll(snap, history, admitted[..|admitted| - 1], decryptMessage, localId, clock);
      AfterReceiveMessage(snap, h, EnvelopeOf(admitted[|admitted| - 1]), decryptMessage, localId(|h|), clock(|h|))
  }

  /** The answer to `GET /api/messages`: it could not be read, or the drained
      envelopes. */
  datatype MessagesReply = MessagesUnavailable | MessagesListing(messages: seq<Incoming>)

  /** One run of `pollForMessages`: every drained id is marked, and the
      admitted envelopes are read in order. */
  function AfterPollForMessages(snap: Session, s: Session, reply: MessagesReply, decryptMessage: MessageDecryptor, localId: nat -> string, clock: nat -> int): Session
  {
    if snap.aesKey.None? || !snap.hasKeyPair || reply.MessagesUnavailable? then s
    else
      var admitted := AdmittedOf(s.processedIds, s.establishedAt, reply.messages);
      s.(processedIds := Processed(s.processedIds, reply.messages),
         messages := ReadAll(snap, s.messages, admitted, decryptMessage, localId, clock))
  }

  /** `handleSend` gets past its guards: there is text, a session key, a
      peer, and a recorded establishment time. */
  predicate SendAllowed(snap: Session, s: Session) {
    Trim(snap.inputValue) != [] && snap.aesKey.Some? && Truthy(snap.otherPublicKey) && Recorded(s.establishedAt)
  }

  /** The envelope `handleSend` posts, if it gets that far. */
  function Outgoing(snap: Session, s: Session, randomByte: nat -> byte, encrypt: Encryptor): (r: Option<Crypto.Envelope>)
    ensures r.Some? <==> SendAllowed(snap, s)
  {
    if SendAllowed(snap, s) then
      Some(Crypto.EncryptMessage(Trim(snap.inputValue), snap.aesKey.value, randomByte, encrypt))
    else None
  }

  /** The status a refused `handleSend` leaves: no peer, no session key
      or no recorded time say so, and blank text changes nothing. */
  function RefusedSendStatus(snap: Session, s: Session): string {
    if !Truthy(snap.otherPublicKey) then NoPeerStatus
    else if snap.aesKey.None? then NotSecureStatus
    else if Trim(snap.inputValue) == [] then s.status
    else NotSecureStatus
  }

  /** `handleSend`: `relayOk` is whether the POST answered ok; `id` and
      `now` are the new line's id and time. */
  function AfterSend(snap: Session, s: Session, relayOk: bool, id: string, now: int): Session {
    if !SendAllowed(snap, s) then s.(status := RefusedSendStatus(snap, s))
    else if relayOk then
      s.(inputValue := "", messages := s.messages + [ChatMessage(id, Trim(snap.inputValue), Me, now, true)])
    else s.(inputValue := "", status := SendFailedStatus)
  }

  /** How the registration POST of `initialize` ends. */
  datatype Registration = Registered | Rejected | Unreachable

  /** `initialize`: `generated` is whether the RSA pair is made, `exported`
      its exported public key (`None` where export throws). */
  function AfterInitialize(s: Session, generated: bool, exported: Option<string>, registration: Registration): Session {
    if !generated then s.(status := InitFailedStatus)
    else if exported.None? then s.(hasKeyPair := true, status := InitFailedStatus)
    else s.(hasKeyPair := true, myPublicKey := exported, status := ReadyStatus, isInitializing := false)
  }

  /** The decimal digits of `n`, as a template literal prints a time. */
  function DecimalString(n: nat): (r: string)
    ensures |r| > 0
    decreases n
  {
    var d := ['0' + (n % 10) as char];
    if n < 10 then d else DecimalString(n / 10) + d
  }

  /** The identity the link handler invents for the sharer. */
  function SyntheticId(now: nat): UserId {
    "user-" + DecimalString(now)
  }

  /** The effect that reads a shared link, `search` being the page's query
      string. It runs once, after the first render, so its handler sees the
      initial state. */
  function AfterOpenSharedLink(s: Session, search: string, now: nat, env: ExchangeEnv): Session {
    var snap := InitialSession();
    var keyFromUrl := Uri.SearchParam(search, KeyShare.KeyParameter);
    if !Truthy(keyFromUrl) || Truthy(snap.otherPublicKey) then s
    else match Uri.DecodeUriComponent(keyFromUrl.value)
      case None => s
      case Some(decoded) => AfterReceivePublicKey(snap, s, decoded, Some(SyntheticId(now)), env)
  }

  /** The link handler as it was evidently meant to work: it reads the
      render current once the window's own key exists, and lets the server
      lookup name the sharer instead of inventing an identity. */
  function AfterOpenSharedLinkIntended(snap: Session, s: Session, search: string, env: ExchangeEnv): Session {
    var keyFromUrl := Uri.SearchParam(search, KeyShare.KeyParameter);
    if !Truthy(keyFromUrl) || Truthy(snap.otherPublicKey) then s
    else match Uri.DecodeUriComponent(keyFromUrl.value)
      case None => s
      case Some(decoded) => AfterReceivePublicKey(snap, s, decoded, None, env)
  }

  /** One more drained envelope: it is marked, and it is read exactly when
      `Classify` admits it against the ids marked before it. */
  lemma ReadAllStep(snap: Session, start: Session, msgs: seq<Incoming>, i: nat, decryptMessage: MessageDecryptor, localId: nat -> string, clock: nat -> int)
    requires i < |msgs|
    ensures Processed(start.processedIds, msgs[..i + 1]) == Processed(start.processedIds, msgs[..i]) + {msgs[i].id}
    ensures var h := ReadAll(snap, start.messages, AdmittedOf(start.processedIds, start.establishedAt, msgs[..i]),
                             decryptMessage, localId, clock);
            ReadAll(snap, start.messages, AdmittedOf(start.processedIds, start.establishedAt, msgs[..i + 1]),
                    decryptMessage, localId, clock) ==
              if Classify(Processed(start.processedIds, msgs[..i]), start.establishedAt, msgs[i]) == Admitted
              then AfterReceiveMessage(snap, h, EnvelopeOf(msgs[i]), decryptMessage, localId(|h|), clock(|h|))
              else h
  {
    var pre := msgs[..i];
    assert msgs[..i + 1] == pre + [msgs[i]];
    assert (pre + [msgs[i]])[..i] == pre;
    ProcessedSnoc(start.processedIds, pre, msgs[i]);
    var a := AdmittedOf(start.processedIds, start.establishedAt, pre);
    if Classify(Processed(start.processedIds, pre), start.establishedAt, msgs[i]) == Admitted {
      assert (a + [msgs[i]])[..|a|] == a;
    } else {
      assert a + [] == a;
    }
  }

  class Window {
    var myPublicKey: Option<string>
    var hasKeyPair: bool
    var otherPublicKey: Option<string>
    var otherUserId: Option<UserId>
    var aesKey: Option<KeyHandle>
    var establishedAt: Option<int>
    var processedIds: set<string>
    var messages: seq<ChatMessage>
    var inputValue: string
    var status: string
    var isInitializing: bool

    function State(): Session
      reads this
    {
      Session(myPublicKey, hasKeyPair, otherPublicKey, otherUserId, aesKey, establishedAt,
              processedIds, messages, inputValue, status, isInitializing)
    }

    constructor ()
      ensures State() == InitialSession()
    {
      myPublicKey := None;
      hasKeyPair := false;
      otherPublicKey := None;
      otherUserId := None;
      aesKey := None;
      establishedAt := None;
      processedIds := {};
      messages := [];
      inputValue := "";
      status := InitialStatus;
      isInitializing := true;
    }

    /** `addMessage(text, sender, encrypted)`. */
    method AddMessage(text: string, sender: Sender, encrypted: bool, id: string, now: int)
      modifies this
      ensures State() == old(State()).(messages := old(messages) + [ChatMessage(id, text, sender, now, encrypted)])
    {
      messages := messages + [ChatMessage(id, text, sender, now, encrypted)];
    }

    method Initialize(generated: bool, exported: Option<string>, registration: Registration)
      modifies this
      ensures State() == AfterInitialize(old(State()), generated, exported, registration)
    {
      status := GeneratingStatus;
      if !generated {
        status := InitFailedStatus;
        return;
      }
      hasKeyPair := true;
      if exported.None? {
        status := InitFailedStatus;
        return;
      }
      myPublicKey := exported;
      match registration {
        case Rejected => status := RegisterFailedStatus;
        case Unreachable => status := ServerUnreachableStatus;
        case Registered =>
      }
      status := ReadyStatus;
      isInitializing := false;
    }

    method ReceivePublicKey(snap: Session, publicKey: string, target: Option<UserId>, env: ExchangeEnv)
      modifies this
      ensures State() == AfterReceivePublicKey(snap, old(State()), publicKey, target, env)
    {
      if snap.aesKey.Some? && Truthy(snap.otherPublicKey) {
        return;
      }
      status := EstablishingStatus;
      if !env.importOk {
        status := InvalidKeyStatus;
        return;
      }
      otherPublicKey := Some(publicKey);
      var actualTarget := target;
      if !Truthy(actualTarget) {
        match env.lookup {
          case LookupFailed =>
            status := LookupFailedStatus;
            return;
          case LookupAnswer(found, userId) =>
            if found && Truthy(userId) {
              actualTarget := userId;
            } else {
              status := NotFoundStatus;
              return;
            }
        }
      }
      if Truthy(actualTarget) {
        otherUserId := actualTarget;
      }
      DecideKey(snap, publicKey, env);
    }

    /** The key decision at the end of `handleReceivePublicKey`. */
    method DecideKey(snap: Session, publicKey: string, env: ExchangeEnv)
      modifies this
      ensures State() == AfterKeyDecision(snap, old(State()), publicKey, env)
    {
      if snap.aesKey.None? && Truthy(snap.myPublicKey) {
        if LexLess(snap.myPublicKey.value, publicKey) {
          if !env.generateOk {
            status := InvalidKeyStatus;
            return;
          }
          aesKey := Some(env.freshKey);
          if !env.wrapOk {
            status := InvalidKeyStatus;
            return;
          }
          if env.deliveryOk {
            establishedAt := Some(env.now);
            processedIds := {};
            status := EstablishedStatus;
          } else {
            status := EstablishFailedStatus;
          }
        } else {
          status := AwaitingKeyStatus;
        }
      }
    }

    method PollForKeys(snap: Session, reply: KeysReply, pollCount: nat, unwrapped: Option<KeyHandle>, now: int,
                       env: ExchangeEnv)
      modifies this
      ensures State() == AfterPollForKeys(snap, old(State()), reply, pollCount, unwrapped, now, env)
    {
      if !Truthy(snap.myPublicKey) || !snap.hasKeyPair || reply.KeysUnavailable? {
        return;
      }
      TakeSessionKeyOffer(snap, reply.encryptedAESKey, unwrapped, now);
      if |reply.keys| > 0 && !Truthy(snap.otherPublicKey) {
        var otherKeyData := reply.keys[0];
        if snap.aesKey.None? {
          otherUserId := Some(otherKeyData.userId);
          ReceivePublicKey(snap, otherKeyData.publicKey, Some(otherKeyData.userId), env);
        }
      } else if !Truthy(snap.otherPublicKey) && pollCount > QuietPolls {
        status := WaitingPeerStatus;
      }
    }

    /** The first branch of `pollForKeys`: unwrap a pending session key. */
    method TakeSessionKeyOffer(snap: Session, encryptedAESKey: Option<string>, unwrapped: Option<KeyHandle>, now: int)
      modifies this
      ensures State() == AfterSessionKeyOffer(snap, old(State()), encryptedAESKey, unwrapped, now)
    {
      if Truthy(encryptedAESKey) && snap.aesKey.None? && snap.hasKeyPair {
        status := DecryptingKeyStatus;
        match unwrapped {
          case Some(k) =>
            aesKey := Some(k);
            establishedAt := Some(now);
            processedIds := {};
            status := EstablishedStatus;
          case None =>
            status := KeyDecryptFailedStatus;
        }
      }
    }

    method ReceiveMessage(snap: Session, e: EncryptedMessage, decryptMessage: MessageDecryptor, id: string, now: int)
      modifies this
      ensures State() == old(State()).(messages := AfterReceiveMessage(snap, old(messages), e, decryptMessage, id, now))
    {
      if !snap.hasKeyPair || snap.aesKey.None? {
        return;
      }
      if e.encrypted == "" || e.iv == "" {
        return;
      }
      var decrypted := decryptMessage(e.encrypted, e.iv, snap.aesKey.value);
      if decrypted.Ok? {
        AddMessage(decrypted.value, Other, true, id, now);
      }
    }

    method PollForMessages(snap: Session, reply: MessagesReply, decryptMessage: MessageDecryptor,
                           localId: nat -> string, clock: nat -> int)
      modifies this
      ensures State() == AfterPollForMessages(snap, old(State()), reply, decryptMessage, localId, clock)
    {
      if snap.aesKey.None? || !snap.hasKeyPair || reply.MessagesUnavailable? {
        return;
      }
      var msgs := reply.messages;
      ghost var start := State();
      var i := 0;
      while i < |msgs|
        invariant 0 <= i <= |msgs|
        invariant processedIds == Processed(start.processedIds, msgs[..i])
        invariant messages == ReadAll(snap, start.messages, AdmittedOf(start.processedIds, start.establishedAt, msgs[..i]),
                                      decryptMessage, localId, clock)
        invariant myPublicKey == start.myPublicKey && hasKeyPair == start.hasKeyPair
        invariant otherPublicKey == start.otherPublicKey && otherUserId == start.otherUserId
        invariant aesKey == start.aesKey && establishedAt == start.establishedAt
        invariant inputValue == start.inputValue && status == start.status && isInitializing == start.isInitializing
      {
        var msg := msgs[i];
        ReadAllStep(snap, start, msgs, i, decryptMessage, localId, clock);
        ghost var verdict := Classify(processedIds, establishedAt, msg);
        if msg.id !in processedIds {
          processedIds := processedIds + {msg.id};
          if Truthy(msg.encrypted) && Truthy(msg.iv) && snap.aesKey.Some? {
            if !(Recorded(establishedAt) && msg.timestamp - (establishedAt.value - ClockSkewAllowance) < 0) {
              assert verdict == Admitted;
              ReceiveMessage(snap, EnvelopeOf(msg), decryptMessage, localId(|messages|), clock(|messages|));
            } else {
              assert verdict == Stale;
            }
          } else {
            assert verdict == Malformed;
          }
        } else {
          assert verdict == Duplicate;
        }
        i := i + 1;
      }
      assert msgs[..i] == msgs;
    }

    method Send(snap: Session, randomByte: nat -> byte, encrypt: Encryptor, relayOk: bool, id: string, now: int)
      returns (posted: Option<Crypto.Envelope>)
      modifies this
      ensures posted == Outgoing(snap, old(State()), randomByte, encrypt)
      ensures State() == AfterSend(snap, old(State()), relayOk, id, now)
    {
      if Trim(snap.inputValue) == [] || snap.aesKey.None? || !Truthy(snap.otherPublicKey) {
        if !Truthy(snap.otherPublicKey) {
          status := NoPeerStatus;
          return None;
        }
        if snap.aesKey.None? {
          status := NotSecureStatus;
          return None;
        }
        return None;
      }
      if !Recorded(establishedAt) {
        status := NotSecureStatus;
        return None;
      }
      var messageText := Trim(snap.inputValue);
      inputValue := "";
      var envelope := Crypto.EncryptMessage(messageText, snap.aesKey.value, randomByte, encrypt);
      posted := Some(envelope);
      if relayOk {
        AddMessage(messageText, Me, true, id, now);
      } else {
        status := SendFailedStatus;
      }
    }

    method OpenSharedLink(search: string, now: nat, env: ExchangeEnv)
      modifies this
      ensures State() == AfterOpenSharedLink(old(State()), search, now, env)
    {
      var snap := InitialSession();
      var keyFromUrl := Uri.SearchParam(search, KeyShare.KeyParameter);
      if Truthy(keyFromUrl) && !Truthy(snap.otherPublicKey) {
        var decodedKey := Uri.DecodeUriComponent(keyFromUrl.value);
        if decodedKey.Some? {
          ReceivePublicKey(snap, decodedKey.value, Some(SyntheticId(now)), env);
        }
      }
    }
  }

  // Properties of the key exchange.

  /** A connection is kept: once the render holds a session key and a peer
      key, a received public key changes nothing. */
  lemma ConnectionIsKept(snap: Session, s: Session, publicKey: string, target: Option<UserId>, env: ExchangeEnv)
    requires Connected(snap)
    ensures AfterReceivePublicKey(snap, s, publicKey, target, env) == s
  {
  }

  /** The other user is known: given, or found by the lookup. */
  predicate TargetResolved(target: Option<UserId>, env: ExchangeEnv) {
    Truthy(target) || (env.lookup.LookupAnswer? && env.lookup.found && Truthy(env.lookup.userId))
  }

  /** This side makes the session key: not connected, the key imports, the
      other user is known, no key is held, and its own public key is the
      smaller. */
  predicate Initiates(snap: Session, publicKey: string, target: Option<UserId>, env: ExchangeEnv) {
    !Connected(snap) && env.importOk && TargetResolved(target, env) &&
    snap.aesKey.None? && Truthy(snap.myPublicKey) && LexLess(snap.myPublicKey.value, publicKey)
  }

  /** A received public key yields a new session key exactly when this side
      initiates, and a recorded connection exactly when it also wraps and
      delivers the key; only then are the examined ids forgotten. */
  lemma InitiatorEstablishes(snap: Session, s: Session, publicKey: string, target: Option<UserId>, env: ExchangeEnv)
    ensures var r := AfterReceivePublicKey(snap, s, publicKey, target, env);
            (Initiates(snap, publicKey, target, env) && env.generateOk ==> r.aesKey == Some(env.freshKey)) &&
            (!(Initiates(snap, publicKey, target, env) && env.generateOk) ==> r.aesKey == s.aesKey) &&
            (Initiates(snap, publicKey, target, env) && env.generateOk && env.wrapOk && env.deliveryOk ==>
               r.establishedAt == Some(env.now) && r.processedIds == {} && r.status == EstablishedStatus) &&
            (!(Initiates(snap, publicKey, target, env) && env.generateOk && env.wrapOk && env.deliveryOk) ==>
               r.establishedAt == s.establishedAt && r.processedIds == s.processedIds)
  {
  }

  /** Of two windows that receive each other's distinct public keys with no
      session key yet, exactly one makes the session key. */
  lemma ExactlyOneInitiator(snapA: Session, sA: Session, targetA: Option<UserId>, envA: ExchangeEnv,
                            snapB: Session, sB: Session, targetB: Option<UserId>, envB: ExchangeEnv)
    requires Truthy(snapA.myPublicKey) && Truthy(snapB.myPublicKey) && snapA.myPublicKey != snapB.myPublicKey
    requires snapA.aesKey.None? && sA.aesKey.None? && snapB.aesKey.None? && sB.aesKey.None?
    requires envA.importOk && envB.importOk && envA.generateOk && envB.generateOk && Truthy(targetA) && Truthy(targetB)
    ensures AfterReceivePublicKey(snapA, sA, snapB.myPublicKey.value, targetA, envA).aesKey.Some? !=
            AfterReceivePublicKey(snapB, sB, snapA.myPublicKey.value, targetB, envB).aesKey.Some?
  {
    LexLessTrichotomy(snapA.myPublicKey.value, snapB.myPublicKey.value);
  }

  /** A key neither imports nor is found on the server: the exchange stops
      with no session key and no peer identity. */
  lemma UnresolvedPeerStops(snap: Session, s: Session, publicKey: string, target: Option<UserId>, env: ExchangeEnv)
    requires !Connected(snap) && !TargetResolved(target, env)
    ensures var r := AfterReceivePublicKey(snap, s, publicKey, target, env);
            r.aesKey == s.aesKey && r.otherUserId == s.otherUserId && r.establishedAt == s.establishedAt &&
            r.otherPublicKey == (if env.importOk then Some(publicKey) else s.otherPublicKey) &&
            r.status == (if !env.importOk then InvalidKeyStatus
                         else if env.lookup.LookupFailed? then LookupFailedStatus
                         else NotFoundStatus)
  {
  }

  /** No key exchange records an establishment time without a session
      key, and none replaces a session key the render holds. */
  lemma ReceiveKeepsHeldKey(snap: Session, s: Session, publicKey: string, target: Option<UserId>, env: ExchangeEnv)
    requires Consistent(s)
    ensures var r := AfterReceivePublicKey(snap, s, publicKey, target, env);
            Consistent(r) && (snap.aesKey.Some? ==> r.aesKey == s.aesKey)
  {
    InitiatorEstablishes(snap, s, publicKey, target, env);
  }

  /** The same for a whole key poll. */
  lemma PollForKeysKeepsHeldKey(snap: Session, s: Session, reply: KeysReply, pollCount: nat,
                                unwrapped: Option<KeyHandle>, now: int, env: ExchangeEnv)
    requires Consistent(s)
    ensures var r := AfterPollForKeys(snap, s, reply, pollCount, unwrapped, now, env);
            Consistent(r) && (snap.aesKey.Some? ==> r.aesKey == s.aesKey)
  {
    if Truthy(snap.myPublicKey) && snap.hasKeyPair && reply.KeysListing? {
      var s1 := AfterSessionKeyOffer(snap, s, reply.encryptedAESKey, unwrapped, now);
      assert Consistent(s1) && (snap.aesKey.Some? ==> s1 == s);
      if |reply.keys| > 0 && !Truthy(snap.otherPublicKey) && snap.aesKey.None? {
        var first := reply.keys[0];
        ReceiveKeepsHeldKey(snap, s1.(otherUserId := Some(first.userId)), first.publicKey, Some(first.userId), env);
      }
    }
  }

  /** With a peer key already known, a key poll only ever takes a pending
      session key; the listing is not looked at. */
  lemma KnownPeerOnlyTakesOffers(snap: Session, s: Session, reply: KeysReply, pollCount: nat,
                                 unwrapped: Option<KeyHandle>, now: int, env: ExchangeEnv)
    requires Truthy(snap.otherPublicKey) && Truthy(snap.myPublicKey) && snap.hasKeyPair && reply.KeysListing?
    ensures AfterPollForKeys(snap, s, reply, pollCount, unwrapped, now, env) ==
            AfterSessionKeyOffer(snap, s, reply.encryptedAESKey, unwrapped, now)
  {
  }

  /** A pending session key is taken when none is held and it unwraps: it
      becomes the key, the time is recorded and the examined ids are
      forgotten. If it does not unwrap nothing but the status changes. */
  lemma OfferedKeyAdopted(snap: Session, s: Session, encryptedAESKey: Option<string>, unwrapped: Option<KeyHandle>, now: int)
    requires Truthy(encryptedAESKey) && snap.aesKey.None? && snap.hasKeyPair
    ensures var r := AfterSessionKeyOffer(snap, s, encryptedAESKey, unwrapped, now);
            (unwrapped.Some? ==> r.aesKey == unwrapped && r.establishedAt == Some(now) && r.processedIds == {}) &&
            (unwrapped.None? ==> r == s.(status := KeyDecryptFailedStatus))
  {
  }

  /** The responder that, in one key poll, both receives the session key
      and first sees the initiator in the listing ends connected but showing
      the waiting status: the second branch runs with the render's empty
      key and overwrites the established status. */
  lemma SamePollShowsWaiting(snap: Session, s: Session, reply: KeysReply, pollCount: nat, k: KeyHandle, now: int,
                             env: ExchangeEnv)
    requires Truthy(snap.myPublicKey) && snap.hasKeyPair && snap.aesKey.None? && !Truthy(snap.otherPublicKey)
    requires reply.KeysListing? && Truthy(reply.encryptedAESKey) && |reply.keys| > 0
    requires reply.keys[0].userId != "" && reply.keys[0].publicKey != "" && env.importOk
    requires LexLess(reply.keys[0].publicKey, snap.myPublicKey.value)
    ensures var r := AfterPollForKeys(snap, s, reply, pollCount, Some(k), now, env);
            r.aesKey == Some(k) && r.establishedAt == Some(now) && Connected(r) && r.status == AwaitingKeyStatus
  {
    var my, theirs := snap.myPublicKey.value, reply.keys[0].publicKey;
    LexLessIrreflexive(my);
    if my != theirs {
      LexLessTrichotomy(my, theirs);
    }
  }

  // Properties of shared links.

  /** An exported public key, the base64 of a non-empty byte string, is
      not empty and has no `%`, so `decodeURIComponent` leaves it alone. */
  lemma ExportedKeyDecodesToItself(spki: seq<byte>)
    requires |spki| > 0
    ensures Base64.Encode(spki) != "" && Uri.DecodeUriComponent(Base64.Encode(spki)) == Some(Base64.Encode(spki))
  {
    var sk := Base64.Encode(spki);
    assert '%' !in sk by {
      forall i | 0 <= i < |sk| ensures sk[i] != '%' {
        assert Base64.IsBase64Char(sk[i]) || sk[i] == '=';
      }
    }
    Uri.DecodeWithoutPercent(sk);
  }

  /** The key a shared link carries reaches the opener's handler intact. */
  lemma SharedLinkKey(origin: string, pathname: string, spki: seq<byte>)
    requires |spki| > 0 && '?' !in origin + pathname
    ensures var sk := Base64.Encode(spki);
            var link := KeyShare.ShareLink(origin, pathname, Some(sk));
            link.Some? && Uri.SearchParam(KeyShare.Search(link.value), KeyShare.KeyParameter) == Some(sk) &&
            Uri.DecodeUriComponent(sk) == Some(sk)
  {
    ExportedKeyDecodesToItself(spki);
    KeyShare.ShareLinkCarriesKey(origin, pathname, Base64.Encode(spki));
  }

  /** The initiator that, in one key poll, both unwraps a pending session
      key and first sees a peer with the larger key keeps neither: the second
      branch runs with the render's empty key, generates a fresh key and
      overwrites the one just taken from the offer. */
  lemma SamePollReplacesOfferedKey(snap: Session, s: Session, reply: KeysReply, pollCount: nat, k: KeyHandle, now: int,
                                   env: ExchangeEnv)
    requires Truthy(snap.myPublicKey) && snap.hasKeyPair && snap.aesKey.None? && !Truthy(snap.otherPublicKey)
    requires reply.KeysListing? && Truthy(reply.encryptedAESKey) && |reply.keys| > 0
    requires reply.keys[0].userId != "" && env.importOk && env.generateOk
    requires LexLess(snap.myPublicKey.value, reply.keys[0].publicKey)
    ensures AfterSessionKeyOffer(snap, s, reply.encryptedAESKey, Some(k), now).aesKey == Some(k)
    ensures AfterPollForKeys(snap, s, reply, pollCount, Some(k), now, env).aesKey == Some(env.freshKey)
  {
    var first := reply.keys[0];
    var s1 := AfterSessionKeyOffer(snap, s, reply.encryptedAESKey, Some(k), now);
    InitiatorEstablishes(snap, s1.(otherUserId := Some(first.userId)), first.publicKey, Some(first.userId), env);
  }

  /** The link handler as written: whatever the two keys, the opener takes
      the sharer's key, invents the identity `user-<now>` for it and makes
      no session key. The sharer, seeing the opener's key in a poll while
      holding the larger key, waits for one. From then on both windows know
      a peer key, so their key polls only take offers, and neither makes
      one: the session never forms. */
  lemma SharedLinkStalls(origin: string, pathname: string, spki: seq<byte>, opener: Session, now: nat, openerEnv: ExchangeEnv,
                         snap: Session, sharer: Session, reply: KeysReply, pollCount: nat,
                         unwrapped: Option<KeyHandle>, polledAt: int, sharerEnv: ExchangeEnv)
    requires |spki| > 0 && '?' !in origin + pathname && openerEnv.importOk
    requires snap.myPublicKey == Some(Base64.Encode(spki)) && snap.hasKeyPair && snap.aesKey.None? && !Truthy(snap.otherPublicKey)
    requires reply.KeysListing? && reply.encryptedAESKey.None? && |reply.keys| > 0 && reply.keys[0].userId != ""
    requires sharerEnv.importOk && LexLess(reply.keys[0].publicKey, Base64.Encode(spki))
    ensures var sk := Base64.Encode(spki);
            var r := AfterOpenSharedLink(opener, KeyShare.Search(KeyShare.ShareLink(origin, pathname, Some(sk)).value), now, openerEnv);
            r.aesKey == opener.aesKey && r.establishedAt == opener.establishedAt &&
            r.otherPublicKey == Some(sk) && r.otherUserId == Some(SyntheticId(now))
    ensures var q := AfterPollForKeys(snap, sharer, reply, pollCount, unwrapped, polledAt, sharerEnv);
            q.aesKey == sharer.aesKey && q.otherPublicKey == Some(reply.keys[0].publicKey) && q.status == AwaitingKeyStatus
  {
    SharedLinkKey(origin, pathname, spki);
    var sk, o := Base64.Encode(spki), reply.keys[0].publicKey;
    LexLessIrreflexive(o);
    if o != sk {
      LexLessTrichotomy(o, sk);
    }
  }

  /** With the intended handler, an opener that holds its own key and finds
      the sharer on the server pairs with the sharer's next key poll:
      exactly one of the two makes the session key, and the opener knows
      the sharer under the identity the server names. */
  lemma IntendedLinkPairs(origin: string, pathname: string, spki: seq<byte>, snapO: Session, opener: Session,
                          sharerId: UserId, openerEnv: ExchangeEnv,
                          snapS: Session, sharer: Session, reply: KeysReply, pollCount: nat,
                          unwrapped: Option<KeyHandle>, polledAt: int, sharerEnv: ExchangeEnv)
    requires |spki| > 0 && '?' !in origin + pathname
    requires Truthy(snapO.myPublicKey) && snapO.myPublicKey != Some(Base64.Encode(spki))
    requires snapO.aesKey.None? && opener.aesKey.None? && !Truthy(snapO.otherPublicKey)
    requires openerEnv.importOk && openerEnv.generateOk && openerEnv.lookup == LookupAnswer(true, Some(sharerId)) && sharerId != ""
    requires snapS.myPublicKey == Some(Base64.Encode(spki)) && snapS.hasKeyPair && snapS.aesKey.None? && sharer.aesKey.None?
    requires !Truthy(snapS.otherPublicKey) && sharerEnv.importOk && sharerEnv.generateOk
    requires reply.KeysListing? && reply.encryptedAESKey.None? && |reply.keys| > 0
    requires reply.keys[0].userId != "" && reply.keys[0].publicKey == snapO.myPublicKey.value
    ensures var sk := Base64.Encode(spki);
            var r := AfterOpenSharedLinkIntended(snapO, opener, KeyShare.Search(KeyShare.ShareLink(origin, pathname, Some(sk)).value), openerEnv);
            var q := AfterPollForKeys(snapS, sharer, reply, pollCount, unwrapped, polledAt, sharerEnv);
            r.aesKey.Some? != q.aesKey.Some? && r.otherPublicKey == Some(sk) && r.otherUserId == Some(sharerId)
  {
    IntendedOpenerResolves(origin, pathname, spki, snapO, opener, sharerId, openerEnv);
    ListedPeerInitiates(snapS, sharer, reply, pollCount, unwrapped, polledAt, sharerEnv);
    LexLessTrichotomy(snapO.myPublicKey.value, Base64.Encode(spki));
  }

  /** The opener's half: with the intended handler it takes the sharer's key
      under the identity the server names, and makes the session key exactly
      when its own key is the smaller. */
  lemma IntendedOpenerResolves(origin: string, pathname: string, spki: seq<byte>, snapO: Session, opener: Session,
                               sharerId: UserId, openerEnv: ExchangeEnv)
    requires |spki| > 0 && '?' !in origin + pathname
    requires Truthy(snapO.myPublicKey) && snapO.aesKey.None? && opener.aesKey.None? && !Truthy(snapO.otherPublicKey)
    requires openerEnv.importOk && openerEnv.generateOk && openerEnv.lookup == LookupAnswer(true, Some(sharerId)) && sharerId != ""
    ensures var sk := Base64.Encode(spki);
            var r := AfterOpenSharedLinkIntended(snapO, opener, KeyShare.Search(KeyShare.ShareLink(origin, pathname, Some(sk)).value), openerEnv);
            (r.aesKey.Some? <==> LexLess(snapO.myPublicKey.value, sk)) && r.otherPublicKey == Some(sk) && r.otherUserId == Some(sharerId)
  {
    var sk := Base64.Encode(spki);
    SharedLinkKey(origin, pathname, spki);
    InitiatorEstablishes(snapO, opener, sk, None, openerEnv);
  }

  /** The sharer's half: a key poll with no pending session key that first
      lists a peer takes that peer's key, and makes the session key exactly
      when its own key is the smaller. */
  lemma ListedPeerInitiates(snap: Session, s: Session, reply: KeysReply, pollCount: nat,
                            unwrapped: Option<KeyHandle>, now: int, env: ExchangeEnv)
    requires Truthy(snap.myPublicKey) && snap.hasKeyPair && snap.aesKey.None? && s.aesKey.None? && !Truthy(snap.otherPublicKey)
    requires reply.KeysListing? && !Truthy(reply.encryptedAESKey) && |reply.keys| > 0
    requires reply.keys[0].userId != "" && env.importOk && env.generateOk
    ensures var q := AfterPollForKeys(snap, s, reply, pollCount, unwrapped, now, env);
            (q.aesKey.Some? <==> LexLess(snap.myPublicKey.value, reply.keys[0].publicKey)) &&
            q.otherPublicKey == Some(reply.keys[0].publicKey)
  {
    var first := reply.keys[0];
    assert AfterSessionKeyOffer(snap, s, reply.encryptedAESKey, unwrapped, now) == s;
    InitiatorEstablishes(snap, s.(otherUserId := Some(first.userId)), first.publicKey, Some(first.userId), env);
  }

  // Properties of reading messages.

  /** The plaintexts of the admitted envelopes that decrypt, in order. */
  function Plaintexts(snap: Session, admitted: seq<Incoming>, decryptMessage: MessageDecryptor): (r: seq<string>)
    ensures |r| <= |admitted|
    decreases |admitted|
  {
    if |admitted| == 0 then []
    else
      Plaintexts(snap, admitted[..|admitted| - 1], decryptMessage) +
        match Reading(snap, EnvelopeOf(admitted[|admitted| - 1]), decryptMessage)
        case Some(text) => [text]
        case None => []
  }

  /** The lines `addMessage` makes for `texts` from the other user, starting
      at history length `n`. */
  function ReceivedLines(n: nat, texts: seq<string>, localId: nat -> string, clock: nat -> int): (r: seq<ChatMessage>)
    ensures |r| == |texts|
  {
    seq(|texts|, i requires 0 <= i < |texts| => ChatMessage(localId(n + i), texts[i], Other, clock(n + i), true))
  }

  /** Reading only appends, and what it appends is one encrypted line from
      the other user per admitted envelope that decrypts, in drain order,
      carrying that envelope's plaintext. */
  lemma {:induction false} ReadAllAppends(snap: Session, history: seq<ChatMessage>, admitted: seq<Incoming>,
                                          decryptMessage: MessageDecryptor, localId: nat -> string, clock: nat -> int)
    ensures ReadAll(snap, history, admitted, decryptMessage, localId, clock) ==
            history + ReceivedLines(|history|, Plaintexts(snap, admitted, decryptMessage), localId, clock)
    decreases |admitted|
  {
    if |admitted| == 0 {
      assert ReceivedLines(|history|, [], localId, clock) == [];
    } else {
      var init, last := admitted[..|admitted| - 1], admitted[|admitted| - 1];
      ReadAllAppends(snap, history, init, decryptMessage, localId, clock);
      var texts := Plaintexts(snap, init, decryptMessage);
      var h := ReadAll(snap, history, init, decryptMessage, localId, clock);
      assert |h| == |history| + |texts|;
      match Reading(snap, EnvelopeOf(last), decryptMessage)
      case None =>
        assert Plaintexts(snap, admitted, decryptMessage) == texts + [];
      case Some(text) =>
        assert Plaintexts(snap, admitted, decryptMessage) == texts + [text];
        ReceivedLinesSnoc(|history|, texts, text, localId, clock);
    }
  }

  lemma ReceivedLinesSnoc(n: nat, texts: seq<string>, text: string, localId: nat -> string, clock: nat -> int)
    ensures ReceivedLines(n, texts + [text], localId, clock) ==
            ReceivedLines(n, texts, localId, clock) + [ChatMessage(localId(n + |texts|), text, Other, clock(n + |texts|), true)]
  {
  }

  /** Every text of `texts` is what reading some envelope of `pool` gives. */
  predicate ReadFrom(snap: Session, texts: seq<string>, pool: seq<Incoming>, decryptMessage: MessageDecryptor) {
    forall j :: 0 <= j < |texts| ==>
      exists m :: m in pool && Reading(snap, EnvelopeOf(m), decryptMessage) == Some(texts[j])
  }

  /** Every plaintext comes from an envelope of the admitted batch. */
  lemma {:induction false} PlaintextsFromAdmitted(snap: Session, admitted: seq<Incoming>, decryptMessage: MessageDecryptor)
    ensures ReadFrom(snap, Plaintexts(snap, admitted, decryptMessage), admitted, decryptMessage)
    decreases |admitted|
  {
    if |admitted| > 0 {
      var init, last := admitted[..|admitted| - 1], admitted[|admitted| - 1];
      PlaintextsFromAdmitted(snap, init, decryptMessage);
      var pre := Plaintexts(snap, init, decryptMessage);
      var texts := Plaintexts(snap, admitted, decryptMessage);
      assert ReadFrom(snap, pre, init, decryptMessage);
      forall j | 0 <= j < |texts|
        ensures exists m :: m in admitted && Reading(snap, EnvelopeOf(m), decryptMessage) == Some(texts[j])
      {
        if j < |pre| {
          assert texts[j] == pre[j];
          var m :| m in init && Reading(snap, EnvelopeOf(m), decryptMessage) == Some(pre[j]);
          assert m in admitted;
        } else {
          assert last in admitted;
        }
      }
    }
  }

  /** A message poll keeps the old history in front and appends one line
      from the other user per envelope of the drain that was not examined
      before, has ciphertext and IV, is not stale, and decrypts; each line
      carries that envelope's plaintext. Every drained id is now examined. */
  lemma PollReadsOnlyAdmitted(snap: Session, s: Session, msgs: seq<Incoming>, decryptMessage: MessageDecryptor, localId: nat -> string, clock: nat -> int)
    requires snap.aesKey.Some? && snap.hasKeyPair
    ensures var r := AfterPollForMessages(snap, s, MessagesListing(msgs), decryptMessage, localId, clock);
            var texts := Plaintexts(snap, AdmittedOf(s.processedIds, s.establishedAt, msgs), decryptMessage);
            (forall m :: m in msgs ==> m.id in r.processedIds) &&
            s.processedIds <= r.processedIds &&
            r.messages == s.messages + ReceivedLines(|s.messages|, texts, localId, clock) &&
            forall j :: 0 <= j < |texts| ==>
              exists m :: m in msgs && m.id !in s.processedIds && WellFormed(m) &&
                !IsStale(s.establishedAt, m.timestamp) &&
                decryptMessage(m.encrypted.value, m.iv.value, snap.aesKey.value) == Ok(texts[j])
  {
    var admitted := AdmittedOf(s.processedIds, s.establishedAt, msgs);
    var texts := Plaintexts(snap, admitted, decryptMessage);
    ReadAllAppends(snap, s.messages, admitted, decryptMessage, localId, clock);
    AdmittedAreValid(s.processedIds, s.establishedAt, msgs);
    PlaintextsFromAdmitted(snap, admitted, decryptMessage);
    assert ReadFrom(snap, texts, admitted, decryptMessage);
    forall j | 0 <= j < |texts|
      ensures exists m :: m in msgs && m.id !in s.processedIds && WellFormed(m) &&
                !IsStale(s.establishedAt, m.timestamp) &&
                decryptMessage(m.encrypted.value, m.iv.value, snap.aesKey.value) == Ok(texts[j])
    {
      var m :| m in admitted && Reading(snap, EnvelopeOf(m), decryptMessage) == Some(texts[j]);
      assert m in msgs && WellFormed(m);
    }
  }

  /** A batch whose ids have all been examined admits nothing. */
  lemma {:induction false} NothingAdmittedTwice(processed: set<string>, established: Option<int>, msgs: seq<Incoming>)
    requires forall m :: m in msgs ==> m.id in processed
    ensures AdmittedOf(processed, established, msgs) == []
    decreases |msgs|
  {
    if |msgs| > 0 {
      var init := msgs[..|msgs| - 1];
      assert forall m :: m in init ==> m in msgs;
      NothingAdmittedTwice(processed, established, init);
      assert msgs[|msgs| - 1] in msgs;
    }
  }

  /** The same drained batch read a second time adds nothing: redelivery
      is harmless. */
  lemma RedeliveryIgnored(snap: Session, s: Session, reply: MessagesReply, decryptMessage: MessageDecryptor, localId: nat -> string, clock: nat -> int)
    ensures var once := AfterPollForMessages(snap, s, reply, decryptMessage, localId, clock);
            AfterPollForMessages(snap, once, reply, decryptMessage, localId, clock) == once
  {
    if snap.aesKey.Some? && snap.hasKeyPair && reply.MessagesListing? {
      var once := AfterPollForMessages(snap, s, reply, decryptMessage, localId, clock);
      NothingAdmittedTwice(once.processedIds, once.establishedAt, reply.messages);
      assert Processed(once.processedIds, reply.messages) == once.processedIds;
    }
  }

  /** Reading messages leaves the session key, the peer and the
      establishment time alone. */
  lemma PollForMessagesKeepsKeys(snap: Session, s: Session, reply: MessagesReply, decryptMessage: MessageDecryptor,
                                 localId: nat -> string, clock: nat -> int)
    ensures var r := AfterPollForMessages(snap, s, reply, decryptMessage, localId, clock);
            r.aesKey == s.aesKey && r.otherPublicKey == s.otherPublicKey && r.establishedAt == s.establishedAt
  {
  }

  /** So does sending. */
  lemma SendKeepsKeys(snap: Session, s: Session, relayOk: bool, id: string, now: int)
    ensures var r := AfterSend(snap, s, relayOk, id, now);
            r.aesKey == s.aesKey && r.otherPublicKey == s.otherPublicKey && r.establishedAt == s.establishedAt
  {
    var r := AfterSend(snap, s, relayOk, id, now);
    assert r == s.(inputValue := r.inputValue, messages := r.messages, status := r.status);
  }

  // Properties of sending.

  /** A send that passes the guards clears the input whatever happens next,
      and appends the trimmed text as the user's own line exactly when the
      relay answered ok; a send that does not pass them leaves history and
      input alone. */
  lemma SendRecordsOnlyDelivered(snap: Session, s: Session, relayOk: bool, id: string, now: int)
    ensures var r := AfterSend(snap, s, relayOk, id, now);
            (SendAllowed(snap, s) ==> r.inputValue == "") &&
            (SendAllowed(snap, s) && relayOk ==>
               r.messages == s.messages + [ChatMessage(id, Trim(snap.inputValue), Me, now, true)]) &&
            (!(SendAllowed(snap, s) && relayOk) ==> r.messages == s.messages) &&
            (!SendAllowed(snap, s) ==> r.inputValue == s.inputValue)
    ensures SendAllowed(snap, s) && !relayOk ==> AfterSend(snap, s, relayOk, id, now).status == SendFailedStatus
  {
    var r := AfterSend(snap, s, relayOk, id, now);
    if !SendAllowed(snap, s) {
      assert r.messages == s.messages && r.inputValue == s.inputValue;
    } else if relayOk {
      assert r == s.(inputValue := "", messages := s.messages + [ChatMessage(id, Trim(snap.inputValue), Me, now, true)]);
    } else {
      assert r == s.(inputValue := "", status := SendFailedStatus);
    }
  }

  /** An envelope `encryptMessage` makes has both fields non-empty and is
      read back as its text by the library's `decryptMessage`, except that a
      leading U+FEFF is lost. */
  lemma SentEnvelopeReadable(text: string, key: KeyHandle, randomByte: nat -> byte, encrypt: Encryptor,
                             decrypt: Decryptor, atobError: Thrown)
    requires forall iv, p :: |encrypt(key, iv, p)| > 0 && decrypt(key, iv, encrypt(key, iv, p)) == Ok(p)
    ensures var e := Crypto.EncryptMessage(text, key, randomByte, encrypt);
            e.encrypted != "" && e.iv != ""
    ensures var e := Crypto.EncryptMessage(text, key, randomByte, encrypt);
            (|text| == 0 || text[0] != Utf8.Bom) ==> LibraryDecryptor(decrypt, atobError)(e.encrypted, e.iv, key) == Ok(text)
    ensures var e := Crypto.EncryptMessage(text, key, randomByte, encrypt);
            |text| > 0 && text[0] == Utf8.Bom ==> LibraryDecryptor(decrypt, atobError)(e.encrypted, e.iv, key) == Ok(text[1..])
  {
    var e := Crypto.EncryptMessage(text, key, randomByte, encrypt);
    Crypto.MessageRoundTrip(text, key, randomByte, encrypt, decrypt, atobError);
    assert LibraryDecryptor(decrypt, atobError)(e.encrypted, e.iv, key) == Crypto.DecryptMessage(e.encrypted, e.iv, key, decrypt, atobError);
  }

  /** What a window posts is read back by a window holding the same session
      key as exactly the trimmed text, when the cipher decrypts what it
      encrypts: the trimmed text never starts with U+FEFF, which is white
      space. */
  lemma PeerReadsSentText(snap: Session, s: Session, randomByte: nat -> byte, encrypt: Encryptor, decrypt: Decryptor,
                          atobError: Thrown, peer: Session, history: seq<ChatMessage>, timestamp: int, id: string, now: int)
    requires SendAllowed(snap, s)
    requires peer.hasKeyPair && peer.aesKey == snap.aesKey
    requires forall key, iv, p :: |encrypt(key, iv, p)| > 0 && decrypt(key, iv, encrypt(key, iv, p)) == Ok(p)
    ensures var e := Outgoing(snap, s, randomByte, encrypt).value;
            AfterReceiveMessage(peer, history, EncryptedMessage(e.encrypted, e.iv, "", timestamp),
                                LibraryDecryptor(decrypt, atobError), id, now) ==
              history + [ChatMessage(id, Trim(snap.inputValue), Other, now, true)]
  {
    var text := Trim(snap.inputValue);
    assert IsWhitespace(Utf8.Bom);
    assert |text| == 0 || text[0] != Utf8.Bom;
    SentEnvelopeReadable(text, snap.aesKey.value, randomByte, encrypt, decrypt, atobError);
  }

  // Properties of start-up.

  /** Once the key pair exists and exports, the window says it is ready,
      whatever the registration POST answered: a rejected or unreachable
      registration shows its status only until the next line. */
  lemma ReadyWhateverRegistration(s: Session, publicKey: string, registration: Registration)
    ensures var r := AfterInitialize(s, true, Some(publicKey), registration);
            r.status == ReadyStatus && r.myPublicKey == Some(publicKey) && r.hasKeyPair && !r.isInitializing
    ensures AfterInitialize(s, true, Some(publicKey), registration) == AfterInitialize(s, true, Some(publicKey), Registered)
  {
  }
}
