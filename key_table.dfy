/** A JavaScript `Map<userId, KeyRecord>` as both the keys route and the
    in-memory storage hold it: a finite map plus the order in which its keys
    were first set, which is the order `forEach` and `entries()` visit them. */
module KeyTable {
  import opened Wrappers
  import opened ChatTypes

  /** The order lists every key of the map exactly once. */
  ghost predicate WellOrdered(order: seq<UserId>, records: map<UserId, KeyRecord>) {
    (forall i, j :: 0 <= i < j < |order| ==> order[i] != order[j]) &&
    (forall u :: u in records <==> u in order)
  }

  /** The order after `map.set(id, …)`: a new key goes last, an existing key
      keeps its place. */
  function OrderAfterSet(order: seq<UserId>, records: map<UserId, KeyRecord>, id: UserId): seq<UserId> {
    if id in records then order else order + [id]
  }

  /** `map.set` keeps the order well formed. */
  lemma OrderAfterSetWellOrdered(order: seq<UserId>, records: map<UserId, KeyRecord>, id: UserId, rec: KeyRecord)
    requires WellOrdered(order, records)
    ensures WellOrdered(OrderAfterSet(order, records, id), records[id := rec])
  {
  }

  /** One `{ userId, publicKey }` element of a key listing. */
  datatype KeyEntry = KeyEntry(userId: UserId, publicKey: string)

  /** The listing of every record except `me`'s, in map order. */
  function OtherKeys(order: seq<UserId>, records: map<UserId, KeyRecord>, me: UserId): seq<KeyEntry>
    requires forall u :: u in order ==> u in records
  {
    if |order| == 0 then []
    else
      var last := order[|order| - 1];
      OtherKeys(order[..|order| - 1], records, me) +
        (if last == me then [] else [KeyEntry(last, records[last].publicKey)])
  }

  /** An entry is listed exactly when it is the record of a user other than
      `me`, with that user's own public key. */
  lemma {:induction false} OtherKeysMembership(order: seq<UserId>, records: map<UserId, KeyRecord>, me: UserId, e: KeyEntry)
    requires forall u :: u in order ==> u in records
    ensures e in OtherKeys(order, records, me) <==>
              e.userId in order && e.userId != me && e.publicKey == records[e.userId].publicKey
  {
    if |order| > 0 {
      var init := order[..|order| - 1];
      OtherKeysMembership(init, records, me, e);
      assert order == init + [order[|order| - 1]];
    }
  }

  /** The listing follows map order, so no user is listed twice when the
      order has no repeats. */
  lemma {:induction false} OtherKeysDistinct(order: seq<UserId>, records: map<UserId, KeyRecord>, me: UserId)
    requires forall u :: u in order ==> u in records
    requires forall i, j :: 0 <= i < j < |order| ==> order[i] != order[j]
    ensures var l := OtherKeys(order, records, me);
            forall i, j :: 0 <= i < j < |l| ==> l[i].userId != l[j].userId
  {
    if |order| > 0 {
      var init := order[..|order| - 1];
      var last := order[|order| - 1];
      OtherKeysDistinct(init, records, me);
      var l := OtherKeys(init, records, me);
      forall i | 0 <= i < |l| ensures l[i].userId != last {
        OtherKeysMembership(init, records, me, l[i]);
      }
    }
  }

  /** The first user in map order whose record has public key `pk`, skipping
      `skip` when one is given. */
  function FirstOwner(order: seq<UserId>, records: map<UserId, KeyRecord>, pk: string, skip: Option<UserId>): (r: Option<UserId>)
    requires forall u :: u in order ==> u in records
    ensures r.Some? ==> r.value in order && records[r.value].publicKey == pk && skip != Some(r.value)
    ensures r.None? <==> forall u :: u in order ==> records[u].publicKey != pk || skip == Some(u)
    ensures r.Some? ==> exists i :: 0 <= i < |order| && order[i] == r.value &&
                          forall j :: 0 <= j < i ==> records[order[j]].publicKey != pk || skip == Some(order[j])
  {
    if |order| == 0 then None
    else if records[order[0]].publicKey == pk && skip != Some(order[0]) then Some(order[0])
    else FirstOwner(order[1..], records, pk, skip)
  }

  /** The listing loop of the keys route: visit the records in order and keep
      every one that is not `me`'s. */
  method CollectOtherKeys(order: seq<UserId>, records: map<UserId, KeyRecord>, me: UserId) returns (others: seq<KeyEntry>)
    requires forall u :: u in order ==> u in records
    ensures others == OtherKeys(order, records, me)
  {
    others := [];
    var i := 0;
    while i < |order|
      invariant 0 <= i <= |order|
      invariant others == OtherKeys(order[..i], records, me)
    {
      var uid := order[i];
      assert order[..i + 1][..i] == order[..i];
      if uid != me {
        others := others + [KeyEntry(uid, records[uid].publicKey)];
      }
      i := i + 1;
    }
    assert order[..|order|] == order;
  }

  /** The search loop over `entries()`: return the first user whose key is
      `pk` and who is not `skip`. */
  method FindOwner(order: seq<UserId>, records: map<UserId, KeyRecord>, pk: string, skip: Option<UserId>) returns (r: Option<UserId>)
    requires forall u :: u in order ==> u in records
    ensures r == FirstOwner(order, records, pk, skip)
  {
    var i := 0;
    while i < |order|
      invariant 0 <= i <= |order|
      invariant FirstOwner(order[i..], records, pk, skip) == FirstOwner(order, records, pk, skip)
    {
      var uid := order[i];
      if records[uid].publicKey == pk && skip != Some(uid) {
        return Some(uid);
      }
      assert order[i..][1..] == order[i + 1..];
      i := i + 1;
    }
    return None;
  }
}
