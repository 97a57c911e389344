/** The relay's key directory, `/api/keys`: a module-level map from identity
    to key record, changed in place by POST and by the read-once GET. The
    caller's identity is the `x-user-id` header, or an id the route makes up;
    here it is a parameter either way. */
module KeysRoute {
  import opened Wrappers
  import opened ChatTypes
  import opened KeyTable

  /** The fields of a POST body this route reads. */
  datatype KeyPostBody = KeyPostBody(publicKey: Option<string>, encryptedAESKey: Option<string>, targetUserId: Option<string>)

  /** What POST answers: the registered id, the delivery confirmation, or
      its two error responses. */
  datatype PostResponse = Registered(userId: UserId) | Delivered | TargetNotFound | MissingPublicKey {
    function Status(): int {
      match this
      case Registered(_) => 200
      case Delivered => 200
      case TargetNotFound => 404
      case MissingPublicKey => 400
    }
  }

  /** What GET answers: in lookup mode a hit or a miss, otherwise the other
      users' keys and the caller's pending session-key payload (`null` when
      none). */
  datatype GetResponse =
    | LookupFound(userId: UserId, publicKey: string)
    | LookupNotFound
    | Listing(keys: seq<KeyEntry>, encryptedAESKey: Option<string>)

  /** Whether a POST body carries an encrypted key for a target; such a body
      is a delivery, whatever else it holds. */
  predicate IsDelivery(body: KeyPostBody) {
    Truthy(body.encryptedAESKey) && Truthy(body.targetUserId)
  }

  class KeyDirectory {
    var order: seq<UserId>
    var keys: map<UserId, KeyRecord>

    ghost predicate Valid()
      reads this
    {
      WellOrdered(order, keys)
    }

    constructor ()
      ensures Valid() && order == [] && keys == map[]
    {
      order := [];
      keys := map[];
    }

    /** POST /api/keys. A delivery sets the target record's pending payload
        and nothing else, or answers 404 if the target has no record.
        Otherwise a public key replaces the caller's whole record (dropping
        any pending payload), or its absence answers 400. */
    method Post(userId: UserId, body: KeyPostBody, now: int) returns (resp: PostResponse)
      requires Valid()
      modifies this
      ensures Valid()
      ensures IsDelivery(body) && body.targetUserId.value in old(keys) ==>
                var target := body.targetUserId.value;
                resp == Delivered && order == old(order) &&
                keys == old(keys)[target := old(keys)[target].(encryptedAESKey := body.encryptedAESKey)]
      ensures IsDelivery(body) && body.targetUserId.value !in old(keys) ==>
                resp == TargetNotFound && order == old(order) && keys == old(keys)
      ensures !IsDelivery(body) && !Truthy(body.publicKey) ==>
                resp == MissingPublicKey && order == old(order) && keys == old(keys)
      ensures !IsDelivery(body) && Truthy(body.publicKey) ==>
                resp == Registered(userId) &&
                order == OrderAfterSet(old(order), old(keys), userId) &&
                keys == old(keys)[userId := KeyRecord(body.publicKey.value, None, now)]
    {
      if IsDelivery(body) {
        var target := body.targetUserId.value;
        if target in keys {
          var targetKey := keys[target];
          targetKey := targetKey.(encryptedAESKey := body.encryptedAESKey);
          keys := keys[target := targetKey];
          return Delivered;
        }
        return TargetNotFound;
      }
      if !Truthy(body.publicKey) {
        return MissingPublicKey;
      }
      OrderAfterSetWellOrdered(order, keys, userId, KeyRecord(body.publicKey.value, None, now));
      order := OrderAfterSet(order, keys, userId);
      keys := keys[userId := KeyRecord(body.publicKey.value, None, now)];
      return Registered(userId);
    }

    /** GET /api/keys. With a truthy `lookup` it reports the first other user
        whose public key equals it and changes nothing. Otherwise it lists
        every other user's key in map order and hands back the caller's
        pending payload once, clearing it. */
    method Get(userId: UserId, lookup: Option<string>) returns (resp: GetResponse)
      requires Valid()
      modifies this
      ensures Valid() && order == old(order)
      ensures Truthy(lookup) ==>
                keys == old(keys) &&
                resp == match FirstOwner(order, keys, lookup.value, Some(userId))
                        case Some(uid) => LookupFound(uid, lookup.value)
                        case None => LookupNotFound
      ensures !Truthy(lookup) ==>
                resp.Listing? && resp.keys == OtherKeys(order, old(keys), userId)
      ensures !Truthy(lookup) && userId in old(keys) && Truthy(old(keys)[userId].encryptedAESKey) ==>
                resp.encryptedAESKey == old(keys)[userId].encryptedAESKey &&
                keys == old(keys)[userId := old(keys)[userId].(encryptedAESKey := None)]
      ensures !Truthy(lookup) && !(userId in old(keys) && Truthy(old(keys)[userId].encryptedAESKey)) ==>
                resp.encryptedAESKey == None && keys == old(keys)
      ensures !Truthy(lookup) && userId in keys ==> !Truthy(keys[userId].encryptedAESKey)
    {
      if Truthy(lookup) {
        var owner := FindOwner(order, keys, lookup.value, Some(userId));
        match owner
        case Some(uid) => return LookupFound(uid, keys[uid].publicKey);
        case None => return LookupNotFound;
      }
      var encryptedAESKey: Option<string> := None;
      if userId in keys && Truthy(keys[userId].encryptedAESKey) {
        var myKey := keys[userId];
        encryptedAESKey := myKey.encryptedAESKey;
        myKey := myKey.(encryptedAESKey := None);
        keys := keys[userId := myKey];
      }
      var others := CollectOtherKeys(order, keys, userId);
      OtherKeysSamePublicKeys(order, old(keys), keys, userId);
      return Listing(others, encryptedAESKey);
    }
  }

  /** The listing depends only on each record's public key. */
  lemma {:induction false} OtherKeysSamePublicKeys(order: seq<UserId>, a: map<UserId, KeyRecord>, b: map<UserId, KeyRecord>, me: UserId)
    requires forall u :: u in order ==> u in a && u in b && a[u].publicKey == b[u].publicKey
    ensures OtherKeys(order, a, me) == OtherKeys(order, b, me)
  {
    if |order| > 0 {
      OtherKeysSamePublicKeys(order[..|order| - 1], a, b, me);
    }
  }

  /** A delivered payload is returned by the addressed user's next GET, and
      the GET after that returns none. */
  method DeliverThenFetchTwice(dir: KeyDirectory, sender: UserId, target: UserId, payload: string)
    returns (delivery: PostResponse, first: GetResponse, second: GetResponse)
    requires dir.Valid() && target in dir.keys && target != "" && payload != ""
    modifies dir
    ensures delivery == Delivered
    ensures first.Listing? && first.encryptedAESKey == Some(payload)
    ensures second.Listing? && second.encryptedAESKey == None
  {
    delivery := dir.Post(sender, KeyPostBody(None, Some(payload), Some(target)), 0);
    first := dir.Get(target, None);
    second := dir.Get(target, None);
  }

  /** A target that registers its public key again between a delivery and
      its next GET loses the delivered payload: the new record carries none. */
  method ReregisterDropsPending(dir: KeyDirectory, sender: UserId, target: UserId, payload: string, publicKey: string, now: int)
    returns (delivery: PostResponse, again: PostResponse, fetched: GetResponse)
    requires dir.Valid() && target in dir.keys && target != "" && payload != "" && publicKey != ""
    modifies dir
    ensures delivery == Delivered && again == Registered(target)
    ensures fetched.Listing? && fetched.encryptedAESKey == None
    ensures target in dir.keys && dir.keys[target] == KeyRecord(publicKey, None, now)
  {
    delivery := dir.Post(sender, KeyPostBody(None, Some(payload), Some(target)), 0);
    again := dir.Post(target, KeyPostBody(Some(publicKey), None, None), now);
    fetched := dir.Get(target, None);
  }
}
