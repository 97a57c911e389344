/** The storage layer's in-memory branch: a key map and a message-queue map
    held by the module and changed in place, plus the pure rule by which the
    Redis branch keeps only the newest 100 envelopes of a queue. */
module Storage {
  import opened Wrappers
  import opened ChatTypes
  import opened KeyTable
  import MessagesRoute

  /** The most envelopes a Redis-backed queue keeps. */
  const MaxQueued: nat := 100

  /** A fresh `Map` of key records, as `new Map(inMemoryKeys)` makes it. */
  class KeyMap {
    var order: seq<UserId>
    var records: map<UserId, KeyRecord>

    constructor (order0: seq<UserId>, records0: map<UserId, KeyRecord>)
      ensures order == order0 && records == records0
    {
      order := order0;
      records := records0;
    }

    /** `map.set(userId, keyData)`. */
    method Set(userId: UserId, keyData: KeyRecord)
      modifies this
      ensures records == old(records)[userId := keyData]
      ensures order == OrderAfterSet(old(order), old(records), userId)
    {
      order := OrderAfterSet(order, records, userId);
      records := records[userId := keyData];
    }
  }

  class MemoryStorage {
    var keyOrder: seq<UserId>
    var keys: map<UserId, KeyRecord>
    var messages: map<UserId, seq<StoredMessage>>

    ghost predicate Valid()
      reads this
    {
      WellOrdered(keyOrder, keys)
    }

    constructor ()
      ensures Valid() && keyOrder == [] && keys == map[] && messages == map[]
    {
      keyOrder := [];
      keys := map[];
      messages := map[];
    }

    /** `setKey`: the record replaces whatever `userId` had; queues stay. */
    method SetKey(userId: UserId, keyData: KeyRecord)
      requires Valid()
      modifies this
      ensures Valid()
      ensures keys == old(keys)[userId := keyData]
      ensures keyOrder == OrderAfterSet(old(keyOrder), old(keys), userId)
      ensures messages == old(messages)
    {
      OrderAfterSetWellOrdered(keyOrder, keys, userId, keyData);
      keyOrder := OrderAfterSet(keyOrder, keys, userId);
      keys := keys[userId := keyData];
    }

    /** `getKey`: the record of `userId`, `None` for `undefined`. */
    method GetKey(userId: UserId) returns (r: Option<KeyRecord>)
      ensures r.Some? <==> userId in keys
      ensures r.Some? ==> r.value == keys[userId]
    {
      if userId in keys {
        return Some(keys[userId]);
      }
      return None;
    }

    /** `getAllKeys`: a new map with the same entries in the same order. */
    method GetAllKeys() returns (all: KeyMap)
      ensures fresh(all)
      ensures all.order == keyOrder && all.records == keys
    {
      all := new KeyMap(keyOrder, keys);
    }

    /** `findKeyByPublicKey`: the first record in map order whose public key
        is `publicKey`, with its owner; no caller is excluded. */
    method FindKeyByPublicKey(publicKey: string) returns (r: Option<(UserId, KeyRecord)>)
      requires Valid()
      ensures r.Some? ==> r.value.0 in keys && r.value.1 == keys[r.value.0] && r.value.1.publicKey == publicKey
      ensures r.Some? ==> r == Some((FirstOwner(keyOrder, keys, publicKey, None).value, r.value.1))
      ensures r.None? <==> forall u :: u in keys ==> keys[u].publicKey != publicKey
    {
      var all := GetAllKeys();
      var owner := FindOwner(all.order, all.records, publicKey, None);
      match owner
      case Some(uid) => return Some((uid, all.records[uid]));
      case None => return None;
    }

    /** `addMessage`: append to the end of `userId`'s queue, making it first
        if there is none. */
    method AddMessage(userId: UserId, message: StoredMessage)
      modifies this
      ensures messages == old(messages)[userId := MessagesRoute.QueueOf(old(messages), userId) + [message]]
      ensures keyOrder == old(keyOrder) && keys == old(keys)
    {
      if userId !in messages {
        messages := messages[userId := []];
      }
      messages := messages[userId := messages[userId] + [message]];
    }

    /** `getMessages`: the queue as it was, then empty. */
    method GetMessages(userId: UserId) returns (msgs: seq<StoredMessage>)
      modifies this
      ensures msgs == MessagesRoute.QueueOf(old(messages), userId)
      ensures messages == old(messages)[userId := []]
      ensures keyOrder == old(keyOrder) && keys == old(keys)
    {
      msgs := MessagesRoute.QueueOf(messages, userId);
      messages := messages[userId := []];
    }

    /** `broadcastMessage`: one copy of `message` at the end of the queue of
        every user with a key record other than the sender, and nowhere
        else. A recipient without a queue gets one. */
    method BroadcastMessage(senderId: UserId, message: StoredMessage)
      requires Valid()
      modifies this
      ensures Valid() && keyOrder == old(keyOrder) && keys == old(keys)
      ensures messages.Keys == old(messages).Keys + (set u | u in keys && u != senderId)
      ensures forall u :: u in keys && u != senderId ==>
                MessagesRoute.QueueOf(messages, u) == MessagesRoute.QueueOf(old(messages), u) + [message]
      ensures forall u :: !(u in keys && u != senderId) ==>
                MessagesRoute.QueueOf(messages, u) == MessagesRoute.QueueOf(old(messages), u)
    {
      var all := GetAllKeys();
      var recipients := all.order;
      var i := 0;
      while i < |recipients|
        invariant 0 <= i <= |recipients| && recipients == keyOrder
        invariant Valid() && keyOrder == old(keyOrder) && keys == old(keys)
        invariant messages.Keys == old(messages).Keys + (set u | u in recipients[..i] && u != senderId)
        invariant forall u :: u in recipients[..i] && u != senderId ==>
                    MessagesRoute.QueueOf(messages, u) == MessagesRoute.QueueOf(old(messages), u) + [message]
        invariant forall u :: !(u in recipients[..i] && u != senderId) ==>
                    MessagesRoute.QueueOf(messages, u) == MessagesRoute.QueueOf(old(messages), u)
      {
        var userId := recipients[i];
        assert recipients[..i + 1] == recipients[..i] + [userId];
        assert userId !in recipients[..i];
        if userId != senderId {
          AddMessage(userId, message);
        }
        i := i + 1;
      }
      assert recipients[..i] == keyOrder;
    }
  }

  /** `messages.slice(-100)`: the newest `MaxQueued` envelopes, or all of
      them when there are no more than that. */
  function KeepNewest(msgs: seq<StoredMessage>): (r: seq<StoredMessage>)
    ensures |r| == if |msgs| <= MaxQueued then |msgs| else MaxQueued
    ensures r == msgs[|msgs| - |r|..]
  {
    if |msgs| <= MaxQueued then msgs else msgs[|msgs| - MaxQueued..]
  }

  /** The Redis branch of `addMessage`: the stored list becomes the newest
      `MaxQueued` envelopes of the old list with `message` appended. */
  function RedisAppend(existing: seq<StoredMessage>, message: StoredMessage): (r: seq<StoredMessage>)
    ensures 0 < |r| <= MaxQueued && r[|r| - 1] == message
    ensures |existing| < MaxQueued ==> r == existing + [message]
  {
    KeepNewest(existing + [message])
  }

  /** The Redis list after appending each of `ms` in turn. */
  function RedisAppendAll(existing: seq<StoredMessage>, ms: seq<StoredMessage>): seq<StoredMessage>
    decreases |ms|
  {
    if |ms| == 0 then existing else RedisAppendAll(RedisAppend(existing, ms[0]), ms[1..])
  }

  /** A suffix at least as long as what the trim keeps trims the same way. */
  lemma KeepNewestOfSuffix(x: seq<StoredMessage>, j: nat)
    requires j <= |x| && |x| - j >= |KeepNewest(x)|
    ensures KeepNewest(x[j..]) == KeepNewest(x)
  {
    if |x| > MaxQueued {
      assert x[j..][|x| - j - MaxQueued..] == x[|x| - MaxQueued..];
    } else {
      assert x[j..] == x;
    }
  }

  /** However many envelopes arrive, a trimmed queue holds the newest
      `MaxQueued` of everything ever appended, in arrival order. */
  lemma {:induction false} RedisAppendAllKeepsNewest(existing: seq<StoredMessage>, ms: seq<StoredMessage>)
    requires |existing| <= MaxQueued
    ensures RedisAppendAll(existing, ms) == KeepNewest(existing + ms)
    decreases |ms|
  {
    if |ms| == 0 {
      assert existing + ms == existing;
    } else {
      var grown := existing + [ms[0]];
      calc {
        RedisAppendAll(existing, ms);
        RedisAppendAll(KeepNewest(grown), ms[1..]);
        { RedisAppendAllKeepsNewest(KeepNewest(grown), ms[1..]); }
        KeepNewest(KeepNewest(grown) + ms[1..]);
        { KeepNewestConcat(grown, ms[1..]); }
        KeepNewest(grown + ms[1..]);
        { assert grown + ms[1..] == existing + ms; }
        KeepNewest(existing + ms);
      }
    }
  }

  /** Trimming a prefix first does not change the newest `MaxQueued` of the
      whole. */
  lemma KeepNewestConcat(a: seq<StoredMessage>, b: seq<StoredMessage>)
    ensures KeepNewest(KeepNewest(a) + b) == KeepNewest(a + b)
  {
    var k := KeepNewest(a);
    var j := |a| - |k|;
    assert k + b == (a + b)[j..];
    KeepNewestOfSuffix(a + b, j);
  }

  /** `setKey` followed by `getKey` of the same id returns the record just
      stored; a different id sees what it saw before. */
  method SetThenGet(st: MemoryStorage, userId: UserId, keyData: KeyRecord, other: UserId)
    returns (mine: Option<KeyRecord>, theirs: Option<KeyRecord>)
    requires st.Valid() && other != userId
    modifies st
    ensures mine == Some(keyData)
    ensures theirs == if other in old(st.keys) then Some(old(st.keys)[other]) else None
  {
    st.SetKey(userId, keyData);
    mine := st.GetKey(userId);
    theirs := st.GetKey(other);
  }

  /** A `set` on the map `getAllKeys` returned leaves the store as it was. */
  method CopyIsDetached(st: MemoryStorage, userId: UserId, keyData: KeyRecord) returns (all: KeyMap)
    requires st.Valid()
    ensures all.records == st.keys[userId := keyData]
    ensures st.keys == old(st.keys) && st.keyOrder == old(st.keyOrder)
  {
    all := st.GetAllKeys();
    all.Set(userId, keyData);
  }

  /** Two successive `getMessages` return the queue, then nothing. */
  method GetMessagesTwice(st: MemoryStorage, userId: UserId) returns (first: seq<StoredMessage>, second: seq<StoredMessage>)
    modifies st
    ensures first == MessagesRoute.QueueOf(old(st.messages), userId)
    ensures second == []
  {
    first := st.GetMessages(userId);
    second := st.GetMessages(userId);
  }
}
