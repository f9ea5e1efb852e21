/** The channel seen as a whole, independent of where its state lives:
    every message the sender has handed over, how many of them the receiver
    has dequeued, and how many it has acknowledged. The non-blocking steps
    are functions of that state; the imperative descriptors are proved to
    follow them. */
module Queue {

  type Payload = seq<bv8>

  datatype Option<T> = None | Some(value: T)

  /** numBuf: the ring capacity; sent: everything sent so far, in order;
      delivered: how many have been dequeued by the receiver;
      acked: how many have been acknowledged back to the sender. */
  datatype Chan = Chan(numBuf: nat, sent: seq<Payload>, delivered: nat, acked: nat)

  /** The flow-control invariant: the receiver dequeues only what was sent,
      acknowledges only what it dequeued, and no more than numBuf messages
      are sent but not acknowledged. */
  predicate Inv(c: Chan) {
    c.acked <= c.delivered <= |c.sent| <= c.acked + c.numBuf
  }

  /** Messages sent but not yet acknowledged: the ring slots the sender
      believes taken. */
  function InFlight(c: Chan): int {
    |c.sent| - c.acked
  }

  /** The admission test of a send: a ring slot is free. */
  predicate HasRoom(c: Chan) {
    InFlight(c) < c.numBuf
  }

  /** The initial state of a freshly initialised channel. */
  function Empty(numBuf: nat): (c: Chan)
    ensures Inv(c) && InFlight(c) == 0
  {
    Chan(numBuf, [], 0, 0)
  }

  /** mp_nbsend: 1 and the message appended when a slot is free and a DMA
      is free, 0 and nothing changed otherwise. */
  function SendStep(c: Chan, m: Payload, dmaFree: bool): (r: (int, Chan))
    ensures r.0 == 1 <==> HasRoom(c) && dmaFree
    ensures r.0 == 0 <==> !(HasRoom(c) && dmaFree)
  {
    if HasRoom(c) && dmaFree then (1, c.(sent := c.sent + [m])) else (0, c)
  }

  /** mp_nbrecv: 1 and the oldest undelivered message when one has
      arrived, 0 and nothing changed otherwise. */
  function RecvStep(c: Chan): (r: (int, Option<Payload>, Chan))
    ensures r.0 == 1 <==> c.delivered < |c.sent|
    ensures r.1.Some? <==> r.0 == 1
  {
    if c.delivered < |c.sent| then (1, Some(c.sent[c.delivered]), c.(delivered := c.delivered + 1))
    else (0, None, c)
  }

  /** mp_nback: 1 and one more acknowledgement when a DMA is free, 0 and
      nothing changed otherwise. The step itself does not look at whether a
      message is held; the caller must only acknowledge what it received. */
  function AckStep(c: Chan, dmaFree: bool): (r: (int, Chan))
    ensures r.0 == 1 <==> dmaFree
  {
    if dmaFree then (1, c.(acked := c.acked + 1)) else (0, c)
  }

  /** One call of the channel API in a run. */
  datatype Op = SendOp(msg: Payload, dmaFree: bool) | RecvOp | AckOp(dmaFree: bool)

  function Step(c: Chan, op: Op): Chan {
    match op
    case SendOp(m, d) => SendStep(c, m, d).1
    case RecvOp => RecvStep(c).2
    case AckOp(d) => AckStep(c, d).1
  }

  /** The state after a run of calls. */
  function Run(c: Chan, ops: seq<Op>): Chan
    decreases |ops|
  {
    if ops == [] then c else Run(Step(c, ops[0]), ops[1..])
  }

  /** A run in which every acknowledgement follows the receipt of a message
      that has not been acknowledged yet, as the header asks of callers. */
  predicate AcksHeld(c: Chan, ops: seq<Op>)
    decreases |ops|
  {
    ops == [] ||
    ((ops[0].AckOp? ==> c.acked < c.delivered) && AcksHeld(Step(c, ops[0]), ops[1..]))
  }

  /** The messages the successful receives of a run return, in order. */
  function Received(c: Chan, ops: seq<Op>): seq<Payload>
    decreases |ops|
  {
    if ops == [] then []
    else
      var got := if ops[0].RecvOp? && RecvStep(c).1.Some? then [RecvStep(c).1.value] else [];
      got + Received(Step(c, ops[0]), ops[1..])
  }

  lemma StepKeepsInv(c: Chan, op: Op)
    requires Inv(c)
    requires op.AckOp? ==> c.acked < c.delivered
    ensures Inv(Step(c, op))
    ensures c.sent <= Step(c, op).sent
    ensures c.numBuf == Step(c, op).numBuf
  {
  }

  /** Across any run whose acknowledgements follow receipts, no more than
      numBuf messages are ever in flight, and nothing sent is lost or
      rewritten. */
  lemma {:induction false} RunKeepsInv(c: Chan, ops: seq<Op>)
    requires Inv(c) && AcksHeld(c, ops)
    ensures Inv(Run(c, ops))
    ensures 0 <= InFlight(Run(c, ops)) <= c.numBuf == Run(c, ops).numBuf
    ensures c.sent <= Run(c, ops).sent
    decreases |ops|
  {
    if ops != [] {
      StepKeepsInv(c, ops[0]);
      RunKeepsInv(Step(c, ops[0]), ops[1..]);
    }
  }

  /** FIFO delivery: the messages a run receives are exactly the messages
      sent from the first undelivered one on, in the order they were sent,
      each once. */
  lemma {:induction false} RunIsFifo(c: Chan, ops: seq<Op>)
    requires Inv(c) && AcksHeld(c, ops)
    ensures c.delivered <= Run(c, ops).delivered <= |Run(c, ops).sent|
    ensures Received(c, ops) == Run(c, ops).sent[c.delivered..Run(c, ops).delivered]
    decreases |ops|
  {
    if ops != [] {
      var c' := Step(c, ops[0]);
      StepKeepsInv(c, ops[0]);
      RunIsFifo(c', ops[1..]);
      RunKeepsInv(c', ops[1..]);
      var end := Run(c', ops[1..]);
      assert Run(c, ops) == end;
      if ops[0].RecvOp? && c.delivered < |c.sent| {
        assert c'.delivered == c.delivered + 1;
        assert end.sent[c.delivered] == c.sent[c.delivered];
        assert end.sent[c.delivered..end.delivered]
            == [end.sent[c.delivered]] + end.sent[c.delivered + 1..end.delivered];
      } else {
        assert c'.delivered == c.delivered;
      }
    }
  }

  /** A run of back-to-back sends with no acknowledgement in between. */
  predicate OnlySends(ops: seq<Op>) {
    forall i :: 0 <= i < |ops| ==> ops[i].SendOp?
  }

  /** Without acknowledgements at most numBuf - InFlight(c) further sends
      succeed: the (numBuf + 1)-th send into an empty ring reports 0. */
  lemma {:induction false} SendsWithoutAcksBounded(c: Chan, ops: seq<Op>)
    requires Inv(c) && OnlySends(ops)
    ensures Run(c, ops).acked == c.acked
    ensures |Run(c, ops).sent| - |c.sent| <= c.numBuf - InFlight(c)
    ensures |Run(c, ops).sent| - |c.sent| <= |ops|
    decreases |ops|
  {
    if ops != [] {
      StepKeepsInv(c, ops[0]);
      assert OnlySends(ops[1..]) by {
        forall i | 0 <= i < |ops[1..]| ensures ops[1..][i].SendOp? {
          assert ops[1..][i] == ops[i + 1];
        }
      }
      SendsWithoutAcksBounded(Step(c, ops[0]), ops[1..]);
    }
  }

  /** With every slot taken, one acknowledgement frees exactly one slot:
      the next send with a free DMA succeeds and the one after it reports 0. */
  lemma AckFreesOneSlot(c: Chan, m1: Payload, m2: Payload)
    requires Inv(c) && InFlight(c) == c.numBuf && c.acked < c.delivered
    ensures !HasRoom(c)
    ensures var a := AckStep(c, true).1;
      Inv(a) && SendStep(a, m1, true).0 == 1 &&
      SendStep(SendStep(a, m1, true).1, m2, true).0 == 0
  {
  }

  /** A receive after a receive never returns the same message twice: the
      second returns the message sent right after the first one. */
  lemma NoDuplicateReceive(c: Chan)
    requires Inv(c) && c.delivered + 1 < |c.sent|
    ensures RecvStep(c).1 == Some(c.sent[c.delivered])
    ensures RecvStep(RecvStep(c).2).1 == Some(c.sent[c.delivered + 1])
  {
  }
}
