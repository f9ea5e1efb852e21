/** How the receiver's ring of slots holds the abstract channel. Message k
    (counting from 0 over the channel's lifetime) goes into slot k mod
    numBuf; the slots are read in the same order. A slot's flag is valid
    exactly when it holds a message that arrived and was not dequeued yet,
    and a slot keeps the payload of every message not yet acknowledged. */
module Ring {
  import opened Layout
  import opened Queue

  /** One slot: buf_size bytes of payload followed by the flag word. */
  datatype Slot = Slot(payload: Payload, flag: bv32)

  /** Two numbers less than n apart with the same residue are equal. */
  lemma SameResidue(x: int, y: int, n: int)
    requires n > 0 && y <= x < y + n && x % n == y % n
    ensures x == y
  {
    DivMod(x, n);
    DivMod(y, n);
    Distrib(x / n, y / n, n);
    SmallMultiple(x / n - y / n, n);
  }

  /** The message number, among acked .. acked + n - 1, whose message slot
      i holds or will hold next. */
  function Owner(acked: int, n: int, i: int): (k: int)
    requires n > 0
    ensures acked <= k < acked + n
  {
    acked + (i - acked) % n
  }

  lemma OwnerResidue(acked: int, n: int, i: int)
    requires n > 0 && 0 <= i < n
    ensures Owner(acked, n, i) % n == i
  {
    var q := (i - acked) / n;
    assert i - acked == q * n + (i - acked) % n;
    ModUnique(Owner(acked, n, i), n, -q, i);
  }

  /** Message k of the window acked .. acked + n - 1 is owned by slot k mod n. */
  lemma OwnerOfSlot(acked: int, n: int, k: int)
    requires n > 0 && acked <= k < acked + n
    ensures Owner(acked, n, k % n) == k
  {
    OwnerResidue(acked, n, k % n);
    var o := Owner(acked, n, k % n);
    if o <= k { SameResidue(k, o, n); } else { SameResidue(o, k, n); }
  }

  /** After one acknowledgement only the slot of the acknowledged message
      changes owner, and it passes to the message n places later. */
  lemma OwnerAfterAck(acked: int, n: int, i: int)
    requires n > 0 && 0 <= i < n
    ensures i != acked % n ==> Owner(acked + 1, n, i) == Owner(acked, n, i)
    ensures i == acked % n ==> Owner(acked + 1, n, i) == acked + n
  {
    OwnerResidue(acked, n, i);
    if i != acked % n {
      assert Owner(acked, n, i) != acked;
      OwnerOfSlot(acked + 1, n, Owner(acked, n, i));
    } else {
      ModUnique(acked + n, n, acked / n + 1, acked % n);
      OwnerOfSlot(acked + 1, n, acked + n);
    }
  }

  /** The pointer step of mp_nbsend (send_ptr) and mp_nbrecv (recv_ptr):
      wrap to 0 after the last slot. */
  function Next(p: nat, n: nat): nat {
    if p + 1 == n then 0 else p + 1
  }

  /** Stepping a pointer that tracks k mod n keeps it tracking k + 1 mod n. */
  lemma NextTracksCount(k: nat, n: nat)
    requires n > 0
    ensures Next(k % n, n) == (k + 1) % n
  {
    var q := k / n;
    assert k == q * n + k % n;
    if k % n + 1 == n {
      ModUnique(k + 1, n, q + 1, 0);
    } else {
      ModUnique(k + 1, n, q, k % n + 1);
    }
  }

  /** What slot i of the ring must be for the channel c: its flag is one of
      the two flag values, valid exactly when its owner arrived and was not
      dequeued yet, and it holds its owner's payload once that was sent. */
  ghost predicate SlotOk(ring: seq<Slot>, c: Chan, i: int)
    requires 0 <= i < |ring| && c.numBuf > 0
  {
    var k := Owner(c.acked, c.numBuf, i);
    (ring[i].flag == FLAG_VALID || ring[i].flag == FLAG_INVALID) &&
    (ring[i].flag == FLAG_VALID <==> c.delivered <= k < |c.sent|) &&
    (k < |c.sent| ==> ring[i].payload == c.sent[k])
  }

  /** The encoding: |ring| == numBuf, and every slot is as SlotOk says. */
  ghost predicate Holds(ring: seq<Slot>, c: Chan) {
    |ring| == c.numBuf > 0 && Inv(c) &&
    forall i :: 0 <= i < |ring| ==> SlotOk(ring, c, i)
  }

  /** The transfer of a send: the payload and a valid flag land in slot i. */
  function Deposit(ring: seq<Slot>, i: nat, m: Payload): (r: seq<Slot>)
    requires i < |ring|
    ensures |r| == |ring| && r[i] == Slot(m, FLAG_VALID)
    ensures forall j :: 0 <= j < |ring| && j != i ==> r[j] == ring[j]
  {
    ring[i := Slot(m, FLAG_VALID)]
  }

  /** The receive of slot i: its flag is reset, its payload stays. */
  function Consume(ring: seq<Slot>, i: nat): (r: seq<Slot>)
    requires i < |ring|
    ensures |r| == |ring| && r[i] == Slot(ring[i].payload, FLAG_INVALID)
    ensures forall j :: 0 <= j < |ring| && j != i ==> r[j] == ring[j]
  {
    ring[i := ring[i].(flag := FLAG_INVALID)]
  }

  /** A ring whose flags are all invalid holds the empty channel. */
  lemma EmptyRingHolds(ring: seq<Slot>)
    requires |ring| > 0
    requires forall i :: 0 <= i < |ring| ==> ring[i].flag == FLAG_INVALID
    ensures Holds(ring, Empty(|ring|))
  {
  }

  /** A send writes slot |sent| mod numBuf, which holds no unacknowledged
      message, and the ring then holds the channel with the message appended. */
  lemma DepositHolds(ring: seq<Slot>, c: Chan, m: Payload)
    requires Holds(ring, c) && HasRoom(c)
    ensures Owner(c.acked, c.numBuf, |c.sent| % c.numBuf) == |c.sent|
    ensures Holds(Deposit(ring, |c.sent| % c.numBuf, m), SendStep(c, m, true).1)
  {
    var n := c.numBuf;
    var s := |c.sent| % n;
    OwnerOfSlot(c.acked, n, |c.sent|);
    var c' := SendStep(c, m, true).1;
    var r := Deposit(ring, s, m);
    forall i | 0 <= i < n
      ensures SlotOk(r, c', i)
    {
      if i != s {
        OwnerResidue(c.acked, n, i);
        assert SlotOk(ring, c, i);
      }
    }
  }

  /** (a + n) mod n == a mod n. */
  lemma ModShift(a: int, n: int)
    requires n > 0
    ensures (a + n) % n == a % n
  {
    DivMod(a, n);
    Distrib(a / n + 1, 1, n);
    ModUnique(a + n, n, a / n + 1, a % n);
  }

  /** The owner of the head slot: the next message to dequeue, unless the
      ring is full of dequeued but unacknowledged messages. */
  lemma HeadOwner(c: Chan)
    requires c.numBuf > 0 && Inv(c)
    ensures c.delivered < c.acked + c.numBuf ==> Owner(c.acked, c.numBuf, c.delivered % c.numBuf) == c.delivered
    ensures c.delivered == c.acked + c.numBuf ==> Owner(c.acked, c.numBuf, c.delivered % c.numBuf) == c.acked
  {
    if c.delivered < c.acked + c.numBuf {
      OwnerOfSlot(c.acked, c.numBuf, c.delivered);
    } else {
      ModShift(c.acked, c.numBuf);
      OwnerOfSlot(c.acked, c.numBuf, c.acked);
    }
  }

  /** The flag at the head says whether a message arrived; when one did,
      the head slot holds the oldest undelivered message, and consuming it
      leaves a ring that holds the channel with that message delivered. */
  lemma ConsumeHolds(ring: seq<Slot>, c: Chan)
    requires Holds(ring, c)
    ensures ring[c.delivered % c.numBuf].flag == FLAG_INVALID <==> c.delivered == |c.sent|
    ensures c.delivered < |c.sent| ==>
      ring[c.delivered % c.numBuf].payload == c.sent[c.delivered] &&
      Holds(Consume(ring, c.delivered % c.numBuf), RecvStep(c).2)
  {
    var n := c.numBuf;
    var d := c.delivered % n;
    HeadOwner(c);
    assert SlotOk(ring, c, d);
    if c.delivered < |c.sent| {
      var r := Consume(ring, d);
      var c' := RecvStep(c).2;
      assert c' == c.(delivered := c.delivered + 1);
      forall i | 0 <= i < n
        ensures SlotOk(r, c', i)
      {
        assert SlotOk(ring, c, i);
        if i != d {
          OwnerResidue(c.acked, n, i);
        }
      }
    }
  }

  /** Acknowledging a dequeued message keeps the encoding: its slot passes
      to a message not sent yet, and no other slot changes owner. */
  lemma AckHolds(ring: seq<Slot>, c: Chan)
    requires Holds(ring, c) && c.acked < c.delivered
    ensures Holds(ring, AckStep(c, true).1)
  {
    var n := c.numBuf;
    var c' := AckStep(c, true).1;
    assert c' == c.(acked := c.acked + 1);
    forall i | 0 <= i < n
      ensures SlotOk(ring, c', i)
    {
      assert SlotOk(ring, c, i);
      OwnerAfterAck(c.acked, n, i);
      if i == c.acked % n {
        OwnerOfSlot(c.acked, n, c.acked);
      }
    }
  }

  /** Received but unacknowledged messages are neither overwritten nor
      seen again: their slots keep their payloads under an invalid flag. */
  lemma HeldIntact(ring: seq<Slot>, c: Chan, k: nat)
    requires Holds(ring, c) && c.acked <= k < c.delivered
    ensures ring[k % c.numBuf].payload == c.sent[k]
    ensures ring[k % c.numBuf].flag == FLAG_INVALID
  {
    OwnerOfSlot(c.acked, c.numBuf, k);
    assert SlotOk(ring, c, k % c.numBuf);
  }
}
