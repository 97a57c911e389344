/** The relay's message queues, `/api/messages`: a module-level map from
    identity to the array of envelopes waiting for it. POST pushes a new
    envelope onto every other existing queue; GET hands a queue over and
    empties it. The caller's identity is a parameter. */
module MessagesRoute {
  import opened Wrappers
  import opened ChatTypes

  type Queues = map<UserId, seq<StoredMessage>>

  /** `messages.get(u) || []`. */
  function QueueOf(q: Queues, u: UserId): seq<StoredMessage> {
    if u in q then q[u] else []
  }

  /** What POST answers: the new envelope's id, or the 400 for a body
      without ciphertext or IV. */
  datatype PostResponse = Sent(messageId: string) | MissingFields {
    function Status(): int {
      if Sent? then 200 else 400
    }
  }

  /** The queues after `msg` is posted by its sender: the sender now holds a
      queue, unchanged if it had one, and every other queue that already
      existed gains `msg` at its end. No other identity gets a queue. */
  function AfterPost(q: Queues, msg: StoredMessage): (r: Queues)
    ensures r.Keys == q.Keys + {msg.senderId}
    ensures QueueOf(r, msg.senderId) == QueueOf(q, msg.senderId)
    ensures forall u :: u in q && u != msg.senderId ==> r[u] == q[u] + [msg]
  {
    map u | u in q.Keys + {msg.senderId} :: if u == msg.senderId then QueueOf(q, u) else q[u] + [msg]
  }

  class MessageRelay {
    var queues: Queues

    constructor ()
      ensures queues == map[]
    {
      queues := map[];
    }

    /** POST /api/messages. A falsy `encrypted` or `iv` answers 400 and
        touches no queue; otherwise the envelope carries the caller as its
        sender, the given id and time, and is fanned out. */
    method Post(userId: UserId, encrypted: Option<string>, iv: Option<string>, id: string, now: int)
      returns (resp: PostResponse)
      modifies this
      ensures !Truthy(encrypted) || !Truthy(iv) ==> resp == MissingFields && queues == old(queues)
      ensures Truthy(encrypted) && Truthy(iv) ==>
                resp == Sent(id) &&
                queues == AfterPost(old(queues), StoredMessage(id, encrypted.value, iv.value, now, userId))
    {
      if !Truthy(encrypted) || !Truthy(iv) {
        return MissingFields;
      }
      var message := StoredMessage(id, encrypted.value, iv.value, now, userId);
      if userId !in queues {
        queues := queues[userId := []];
      }
      ghost var start := queues;
      var pending := queues.Keys;
      while pending != {}
        invariant pending <= start.Keys && queues.Keys == start.Keys
        invariant forall u :: u in pending ==> queues[u] == start[u]
        invariant forall u :: u in start && u !in pending ==>
                    queues[u] == if u == userId then start[u] else start[u] + [message]
        decreases pending
      {
        var otherUserId :| otherUserId in pending;
        if otherUserId != userId {
          queues := queues[otherUserId := queues[otherUserId] + [message]];
        }
        pending := pending - {otherUserId};
      }
      ghost var expected := AfterPost(old(queues), message);
      assert queues.Keys == expected.Keys;
      assert forall u :: u in queues ==> queues[u] == expected[u];
      return Sent(message.id);
    }

    /** GET /api/messages: the caller's queue as it was (empty if it had
        none), after which the caller holds an empty queue. */
    method Get(userId: UserId) returns (msgs: seq<StoredMessage>)
      modifies this
      ensures msgs == QueueOf(old(queues), userId)
      ensures queues == old(queues)[userId := []]
    {
      msgs := QueueOf(queues, userId);
      queues := queues[userId := []];
    }
  }

  /** A valid POST of an envelope, or a GET by an identity. */
  datatype Request = PostRequest(msg: StoredMessage) | GetRequest(userId: UserId)

  function Step(q: Queues, r: Request): Queues {
    match r
    case PostRequest(msg) => AfterPost(q, msg)
    case GetRequest(u) => q[u := []]
  }

  /** The queues after a run of requests. */
  function Final(q: Queues, trace: seq<Request>): Queues
    decreases |trace|
  {
    if |trace| == 0 then q else Final(Step(q, trace[0]), trace[1..])
  }

  /** Everything `u`'s GETs receive over a run, in order. */
  function Drained(q: Queues, trace: seq<Request>, u: UserId): seq<StoredMessage>
    decreases |trace|
  {
    if |trace| == 0 then [] else StepDrained(q, trace[0], u) + Drained(Step(q, trace[0]), trace[1..], u)
  }

  /** What one request hands to `u`: its whole queue, on a GET by `u`. */
  function StepDrained(q: Queues, r: Request, u: UserId): seq<StoredMessage> {
    if r == GetRequest(u) then QueueOf(q, u) else []
  }

  /** What one request ought to add for `u`: a POST by someone else while
      `u` holds a queue. */
  function StepInbound(q: Queues, r: Request, u: UserId): seq<StoredMessage> {
    if r.PostRequest? && r.msg.senderId != u && u in q then [r.msg] else []
  }

  /** Every envelope posted by someone else while `u` holds a queue, in
      posting order: what ought to reach `u`. */
  function Inbound(q: Queues, trace: seq<Request>, u: UserId): seq<StoredMessage>
    decreases |trace|
  {
    if |trace| == 0 then [] else StepInbound(q, trace[0], u) + Inbound(Step(q, trace[0]), trace[1..], u)
  }

  /** How one request changes `u`'s queue: a GET by `u` empties it, a POST
      by someone else appends to it when it exists, nothing else touches it. */
  lemma StepQueue(q: Queues, r: Request, u: UserId)
    ensures QueueOf(Step(q, r), u) ==
              if r == GetRequest(u) then []
              else if r.PostRequest? && r.msg.senderId != u && u in q then QueueOf(q, u) + [r.msg]
              else QueueOf(q, u)
  {
  }

  /** Over any run, what `u` has drained followed by what still waits in its
      queue is exactly its starting queue followed by every envelope others
      posted while it held a queue: nothing is lost, nothing is delivered
      twice, and the order is the posting order. */
  lemma {:induction false} DeliveryConservation(q: Queues, trace: seq<Request>, u: UserId)
    ensures Drained(q, trace, u) + QueueOf(Final(q, trace), u) == QueueOf(q, u) + Inbound(q, trace, u)
    decreases |trace|
  {
    if |trace| > 0 {
      var r := trace[0];
      var q' := Step(q, r);
      DeliveryConservation(q', trace[1..], u);
      StepConserves(q, r, u);
      Regroup(StepDrained(q, r, u), Drained(q', trace[1..], u), QueueOf(Final(q', trace[1..]), u), QueueOf(q', u),
              Inbound(q', trace[1..], u), QueueOf(q, u), StepInbound(q, r, u));
    }
  }

  /** One request: what it hands out, followed by what is left, is what was
      there followed by what it adds. */
  lemma StepConserves(q: Queues, r: Request, u: UserId)
    ensures StepDrained(q, r, u) + QueueOf(Step(q, r), u) == QueueOf(q, u) + StepInbound(q, r, u)
  {
    StepQueue(q, r, u);
  }

  lemma Regroup<T>(d0: seq<T>, rest: seq<T>, fin: seq<T>, q1: seq<T>, inb: seq<T>, q0: seq<T>, i0: seq<T>)
    requires rest + fin == q1 + inb && d0 + q1 == q0 + i0
    ensures (d0 + rest) + fin == q0 + (i0 + inb)
  {
    calc {
      (d0 + rest) + fin;
      d0 + (rest + fin);
      d0 + (q1 + inb);
      (d0 + q1) + inb;
    }
  }

  /** No identity is ever sent its own envelopes. */
  lemma {:induction false} InboundExcludesOwn(q: Queues, trace: seq<Request>, u: UserId)
    ensures forall m :: m in Inbound(q, trace, u) ==> m.senderId != u
    decreases |trace|
  {
    if |trace| > 0 {
      InboundExcludesOwn(Step(q, trace[0]), trace[1..], u);
    }
  }

  /** An identity that has never held a queue receives nothing posted before
      its first GET: there is no backfill. */
  lemma {:induction false} NoBackfill(q: Queues, trace: seq<Request>, u: UserId)
    requires u !in q
    requires forall i :: 0 <= i < |trace| ==> trace[i] != GetRequest(u) && !(trace[i].PostRequest? && trace[i].msg.senderId == u)
    ensures Inbound(q, trace, u) == [] && u !in Final(q, trace)
    decreases |trace|
  {
    if |trace| > 0 {
      NoBackfill(Step(q, trace[0]), trace[1..], u);
    }
  }

  /** A message posted by someone else reaches a caller that has drained
      once, and the drain after it returns exactly that message; the drain
      after that returns nothing. */
  method DrainPostDrain(relay: MessageRelay, reader: UserId, writer: UserId, id: string, encrypted: string, iv: string, now: int)
    returns (before: seq<StoredMessage>, after: seq<StoredMessage>, again: seq<StoredMessage>)
    requires reader != writer && encrypted != "" && iv != ""
    modifies relay
    ensures after == [StoredMessage(id, encrypted, iv, now, writer)]
    ensures again == []
  {
    before := relay.Get(reader);
    var resp := relay.Post(writer, Some(encrypted), Some(iv), id, now);
    after := relay.Get(reader);
    again := relay.Get(reader);
  }
}
