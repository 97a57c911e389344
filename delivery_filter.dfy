/** The admission rule the chat window applies to each drained envelope:
    skip an id it has already examined, mark the id, skip an envelope
    without ciphertext or IV, skip one older than ten seconds before the
    session key was recorded, and hand the rest to decryption. */
module DeliveryFilter {
  import opened Wrappers

  /** How far before the recorded establishment time an envelope may be
      stamped and still be read, in milliseconds. */
  const ClockSkewAllowance: int := 10000

  /** One element of the `messages` array a message poll receives; the
      ciphertext and IV may be absent or empty. */
  datatype Incoming = Incoming(id: string, encrypted: Option<string>, iv: Option<string>, timestamp: int)

  /** The establishment time is recorded and truthy (`0` is falsy). */
  predicate Recorded(t: Option<int>) {
    t.Some? && t.value != 0
  }

  predicate WellFormed(m: Incoming) {
    Truthy(m.encrypted) && Truthy(m.iv)
  }

  /** `msg.timestamp - (T - 10000) < 0`, tested only with `T` recorded. */
  predicate IsStale(established: Option<int>, timestamp: int) {
    Recorded(established) && timestamp - (established.value - ClockSkewAllowance) < 0
  }

  datatype Verdict = Duplicate | Malformed | Stale | Admitted

  /** What the loop does with `m` given the ids examined so far. */
  function Classify(processed: set<string>, established: Option<int>, m: Incoming): (v: Verdict)
    ensures v == Admitted <==> m.id !in processed && WellFormed(m) && !IsStale(established, m.timestamp)
  {
    if m.id in processed then Duplicate
    else if !WellFormed(m) then Malformed
    else if IsStale(established, m.timestamp) then Stale
    else Admitted
  }

  /** The ids examined after a drain of `msgs`: every one of them is marked,
      whatever its verdict. */
  function Processed(processed: set<string>, msgs: seq<Incoming>): set<string> {
    processed + (set m | m in msgs :: m.id)
  }

  /** The envelopes a drain hands to decryption, in drain order. */
  function AdmittedOf(processed: set<string>, established: Option<int>, msgs: seq<Incoming>): seq<Incoming>
    decreases |msgs|
  {
    if |msgs| == 0 then []
    else
      var init, last := msgs[..|msgs| - 1], msgs[|msgs| - 1];
      AdmittedOf(processed, established, init) +
        (if Classify(Processed(processed, init), established, last) == Admitted then [last] else [])
  }

  lemma ProcessedSnoc(processed: set<string>, msgs: seq<Incoming>, m: Incoming)
    ensures Processed(processed, msgs + [m]) == Processed(processed, msgs) + {m.id}
  {
    assert forall x :: x in msgs + [m] <==> x in msgs || x == m;
  }

  /** Every admitted envelope is one of the drained ones, carries an id not
      examined before the drain, has ciphertext and IV, and is not stale. */
  lemma {:induction false} AdmittedAreValid(processed: set<string>, established: Option<int>, msgs: seq<Incoming>)
    ensures forall m :: m in AdmittedOf(processed, established, msgs) ==>
              m in msgs && m.id !in processed && WellFormed(m) && !IsStale(established, m.timestamp)
    decreases |msgs|
  {
    if |msgs| > 0 {
      var init := msgs[..|msgs| - 1];
      AdmittedAreValid(processed, established, init);
      assert msgs == init + [msgs[|msgs| - 1]];
    }
  }

  /** No two envelopes of `a` share an id. */
  predicate IdsDistinct(a: seq<Incoming>) {
    forall i, j :: 0 <= i < j < |a| ==> a[i].id != a[j].id
  }

  /** No id is admitted twice in one drain. */
  lemma {:induction false} AdmittedIdsDistinct(processed: set<string>, established: Option<int>, msgs: seq<Incoming>)
    ensures IdsDistinct(AdmittedOf(processed, established, msgs))
    decreases |msgs|
  {
    if |msgs| > 0 {
      var init, last := msgs[..|msgs| - 1], msgs[|msgs| - 1];
      AdmittedIdsDistinct(processed, established, init);
      AdmittedAreValid(processed, established, init);
      var a := AdmittedOf(processed, established, init);
      if Classify(Processed(processed, init), established, last) == Admitted {
        forall i | 0 <= i < |a| ensures a[i].id != last.id {
          assert a[i] in init;
          assert a[i].id in Processed(processed, init);
        }
        var a' := a + [last];
        forall i, j | 0 <= i < j < |a'| ensures a'[i].id != a'[j].id {
          assert a'[i] == a[i];
          if j < |a| {
            assert a'[j] == a[j];
          }
        }
      }
    }
  }

  /** An id is examined once: any later envelope with the id of one seen
      earlier in the drain, well formed or not, is a duplicate at its turn.
      So an id first seen on a malformed or stale envelope is never read. */
  lemma RepeatIsDuplicate(processed: set<string>, msgs: seq<Incoming>, i: nat, j: nat, established: Option<int>)
    requires i < j < |msgs| && msgs[i].id == msgs[j].id
    ensures Classify(Processed(processed, msgs[..j]), established, msgs[j]) == Duplicate
  {
    assert msgs[i] in msgs[..j];
  }

  /** With a recorded time `T`, a fresh well-formed envelope is admitted
      exactly when its stamp is at least `T - 10000`. */
  lemma ThresholdIff(processed: set<string>, t: int, m: Incoming)
    requires t != 0 && m.id !in processed && WellFormed(m)
    ensures Classify(processed, Some(t), m) == Admitted <==> m.timestamp >= t - ClockSkewAllowance
  {
  }

  /** With no recorded time there is no temporal filter. */
  lemma NoTimeFilterUnrecorded(processed: set<string>, established: Option<int>, m: Incoming)
    requires !Recorded(established) && m.id !in processed && WellFormed(m)
    ensures Classify(processed, established, m) == Admitted
  {
  }
}
