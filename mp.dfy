/** The message-passing descriptor (mpd_t) and its operations. A channel has
    two ends on two cores: a Sender and a Receiver, each holding the common
    fields and its own half of the descriptor's union, together with the
    part of its own communication scratchpad the channel uses. The network
    transport is a parameter: whether a DMA engine is free is a boolean the
    caller passes in, and a transfer is an immediate copy into the other
    end's scratchpad. */
module Mp {
  import opened Layout
  import opened Queue
  import opened Ring

  /** 2^32: size_t on the 32-bit processor. */
  const WORD: int := 0x1_0000_0000

  type SizeT = x: int | 0 <= x < WORD

  /** Unsigned size_t subtraction, which wraps modulo 2^32. */
  function SubSizeT(a: SizeT, b: SizeT): SizeT {
    (a - b) % WORD
  }

  /** Unsigned size_t increment, which wraps to 0. */
  function IncSizeT(a: SizeT): SizeT {
    if a + 1 == WORD then 0 else a + 1
  }

  /** The send counter and the acknowledgement counter wrap at 2^32, but
      their wrapped difference is still the true number of messages in
      flight, so the admission test of a send stays exact over any run. */
  lemma WrappedDifference(s: nat, r: nat)
    requires r <= s < r + WORD
    ensures SubSizeT(s % WORD, r % WORD) == s - r
  {
    DivMod(s, WORD);
    DivMod(r, WORD);
    Distrib(r / WORD, s / WORD, WORD);
    ModUnique(s % WORD - r % WORD, WORD, r / WORD - s / WORD, s - r);
  }

  /** The sending end of a channel. */
  class Sender {
    /** Address of the receiver's buffer structure (its ring). */
    var remoteAddr: SizeT
    /** Address of this end's buffer structure (the staging buffers). */
    var localAddr: SizeT
    /** Payload bytes per message. */
    var bufSize: SizeT
    /** Slots of the receiver's ring. */
    var numBuf: SizeT
    /** The count word in this scratchpad that the receiver's
        acknowledgements are copied into (the target of recv_count). */
    var recvCount: SizeT
    /** Core id of the receiver. */
    var recvId: int
    /** Messages sent, modulo 2^32. */
    var sendCount: SizeT
    /** The ring slot the next message goes to: the tail of the queue. */
    var sendPtr: SizeT
    /** Staging slot exposed to the application for the next message. */
    var writeBuf: nat
    /** Staging slot the previous message was sent from. */
    var shadowWriteBuf: nat
    /** The NUM_WRITE_BUF staging slots at localAddr. */
    const staging: array<Slot>
    /** Every message this end has sent, in order. */
    ghost var Sent: seq<Payload>

    ghost predicate Valid()
      reads this
    {
      staging.Length == NUM_WRITE_BUF &&
      writeBuf < NUM_WRITE_BUF && shadowWriteBuf == 1 - writeBuf &&
      (numBuf == 0 ==> sendPtr == 0) && (numBuf > 0 ==> sendPtr < numBuf)
    }

    /** The state right after a successful mp_send_init. */
    ghost predicate Initial()
      reads this
    {
      Valid() && recvCount == 0 && sendCount == 0 && sendPtr == 0 &&
      writeBuf == 0 && shadowWriteBuf == 1 && Sent == []
    }

    /** A descriptor that no init has set up yet, with its staging area. */
    constructor ()
      ensures Valid() && fresh(staging) && Sent == []
    {
      staging := new Slot[NUM_WRITE_BUF];
      writeBuf, shadowWriteBuf := 0, 1;
      sendPtr, sendCount, recvCount := 0, 0, 0;
      Sent := [];
    }

    /** Address of the staging buffer the application writes into. */
    function WriteBufAddr(): (a: int)
      reads this
      requires Valid()
      ensures localAddr <= a && a + SlotSize(bufSize) <= CounterAddr(localAddr, bufSize, NUM_WRITE_BUF)
    {
      SlotAddr(localAddr, bufSize, writeBuf)
    }

    /** mp_send_alloc_size: the bytes this channel takes in the sending
        scratchpad; the staging buffers and the count word fit inside. */
    function SendAllocSize(): (r: int)
      reads this
      ensures IsDwAligned(r)
      ensures CounterAddr(localAddr, bufSize, NUM_WRITE_BUF) + COUNTER_SIZE <= localAddr + r
      ensures r < CounterAddr(localAddr, bufSize, NUM_WRITE_BUF) + COUNTER_SIZE - localAddr + DW
    {
      SendFootprint(bufSize)
    }

    /** mp_send_init: 0 and the descriptor untouched when either address
        is not double-word aligned; otherwise 1, with both counters and
        the ring pointer at 0 and staging buffer 0 exposed for writing. */
    method SendInit(recvId: int, remoteAddr: SizeT, localAddr: SizeT, bufSize: SizeT, numBuf: SizeT)
      returns (r: int)
      requires Valid()
      modifies this
      ensures Valid()
      ensures r == 0 || r == 1
      ensures r == 1 <==> IsDwAligned(remoteAddr) && IsDwAligned(localAddr)
      ensures r == 0 ==> unchanged(this)
      ensures r == 1 ==> (Initial() &&
        this.recvId == recvId && this.remoteAddr == remoteAddr && this.localAddr == localAddr &&
        this.bufSize == bufSize && this.numBuf == numBuf)
    {
      if !IsDwAligned(localAddr) || !IsDwAligned(remoteAddr) {
        return 0;
      }
      this.recvId, this.remoteAddr, this.localAddr := recvId, remoteAddr, localAddr;
      this.bufSize, this.numBuf := bufSize, numBuf;
      recvCount, sendCount, sendPtr := 0, 0, 0;
      writeBuf, shadowWriteBuf := 0, 1;
      Sent := [];
      r := 1;
    }

    /** The application writes the next message into the exposed staging
        buffer, as it must before calling a send; the other one is untouched. */
    method Stage(msg: Payload)
      requires Valid()
      modifies staging
      ensures staging[writeBuf] == Slot(msg, old(staging[writeBuf].flag))
      ensures staging[shadowWriteBuf] == old(staging[shadowWriteBuf])
    {
      staging[writeBuf] := staging[writeBuf].(payload := msg);
    }

    /** mp_nbsend: when the ring has a free slot and a DMA is free, hands
        the staged message over (Commit) and returns 1; otherwise returns 0
        and changes nothing. The channel follows SendStep. */
    method NbSend(rx: Receiver, dmaFree: bool) returns (r: int)
      requires Linked(this, rx)
      modifies this, staging, rx.ring
      ensures Linked(this, rx)
      ensures (r, ChanOf(this, rx)) == SendStep(old(ChanOf(this, rx)), old(staging[writeBuf].payload), dmaFree)
      ensures r == 0 ==> unchanged(this, staging, rx.ring)
      ensures r == 1 ==> (writeBuf == old(shadowWriteBuf) && shadowWriteBuf == old(writeBuf))
      ensures r == 1 ==> staging[shadowWriteBuf] == old(staging[writeBuf]).(flag := FLAG_VALID)
      ensures r == 1 ==> staging[writeBuf] == old(staging[shadowWriteBuf])
      ensures r == 1 ==> rx.ring[..] == old(rx.ring[..])[old(sendPtr) := old(staging[writeBuf]).(flag := FLAG_VALID)]
      ensures r == 1 ==> (sendCount == IncSizeT(old(sendCount)) && sendPtr == Next(old(sendPtr), numBuf))
      ensures remoteAddr == old(remoteAddr) && localAddr == old(localAddr) && bufSize == old(bufSize) &&
        numBuf == old(numBuf) && recvCount == old(recvCount) && recvId == old(recvId)
    {
      InFlightBounded(this, rx);
      if SubSizeT(sendCount, recvCount) >= numBuf {
        return 0;
      }
      if !dmaFree {
        return 0;
      }
      Commit(rx);
      r := 1;
    }

    /** The success path of mp_nbsend, once room and a DMA are assured:
        flag the staged message valid, copy it into ring slot sendPtr,
        count it, advance sendPtr and swap the staging buffers. */
    method Commit(rx: Receiver)
      requires Linked(this, rx) && HasRoom(ChanOf(this, rx))
      modifies this, staging, rx.ring
      ensures Linked(this, rx)
      ensures ChanOf(this, rx) == SendStep(old(ChanOf(this, rx)), old(staging[writeBuf].payload), true).1
      ensures writeBuf == old(shadowWriteBuf) && shadowWriteBuf == old(writeBuf)
      ensures staging[shadowWriteBuf] == old(staging[writeBuf]).(flag := FLAG_VALID)
      ensures staging[writeBuf] == old(staging[shadowWriteBuf])
      ensures rx.ring[..] == old(rx.ring[..])[old(sendPtr) := old(staging[writeBuf]).(flag := FLAG_VALID)]
      ensures sendCount == IncSizeT(old(sendCount)) && sendPtr == Next(old(sendPtr), numBuf)
      ensures remoteAddr == old(remoteAddr) && localAddr == old(localAddr) && bufSize == old(bufSize) &&
        numBuf == old(numBuf) && recvCount == old(recvCount) && recvId == old(recvId)
    {
      ghost var c := ChanOf(this, rx);
      ghost var m := staging[writeBuf].payload;
      ghost var whole := rx.ring[..];
      ghost var before := rx.ring[..numBuf];
      DepositHolds(before, c, m);
      NextTracksCount(|Sent|, numBuf);
      NextTracksCount(|Sent|, WORD);
      assert staging != rx.ring;
      ghost var other := staging[shadowWriteBuf];
      staging[writeBuf] := staging[writeBuf].(flag := FLAG_VALID);
      assert rx.ring[..] == whole;
      DmaSlot(rx.ring, sendPtr, staging[writeBuf]);
      assert rx.ring[..] == whole[sendPtr := Slot(m, FLAG_VALID)];
      assert rx.ring[..numBuf] == Deposit(before, |Sent| % numBuf, m);
      var nextPtr := if sendPtr == numBuf - 1 then 0 else sendPtr + 1;
      sendCount, sendPtr, writeBuf, shadowWriteBuf, Sent :=
        IncSizeT(sendCount), nextPtr, shadowWriteBuf, writeBuf, Sent + [m];
      assert staging[shadowWriteBuf] == Slot(m, FLAG_VALID) && staging[writeBuf] == other;
      assert ChanOf(this, rx) == SendStep(c, m, true).1;
      assert Holds(rx.ring[..numBuf], ChanOf(this, rx));
    }

    /** mp_send: repeats the non-blocking send, once per entry of the
        transport's answers to "is a DMA free", until one succeeds. It
        succeeds exactly when the ring has room and some answer is yes;
        with no acknowledgement arriving meanwhile, a full ring keeps it
        failing, where mp_send spins for ever. */
    method Send(rx: Receiver, dmaFree: seq<bool>) returns (sent: bool)
      requires Linked(this, rx)
      modifies this, staging, rx.ring
      ensures Linked(this, rx)
      ensures sent <==> HasRoom(old(ChanOf(this, rx))) && true in dmaFree
      ensures ChanOf(this, rx) == SendStep(old(ChanOf(this, rx)), old(staging[writeBuf].payload), sent).1
      ensures sent ==> (writeBuf == old(shadowWriteBuf) && shadowWriteBuf == old(writeBuf))
      ensures sent ==> staging[shadowWriteBuf] == old(staging[writeBuf]).(flag := FLAG_VALID)
      ensures sent ==> staging[writeBuf] == old(staging[shadowWriteBuf])
      ensures !sent ==> unchanged(this, staging, rx.ring)
      ensures sent ==> (sendCount == IncSizeT(old(sendCount)) && sendPtr == Next(old(sendPtr), numBuf))
      ensures sent ==> rx.ring[..] == old(rx.ring[..])[old(sendPtr) := old(staging[writeBuf]).(flag := FLAG_VALID)]
      ensures remoteAddr == old(remoteAddr) && localAddr == old(localAddr) && bufSize == old(bufSize) &&
        numBuf == old(numBuf) && recvCount == old(recvCount) && recvId == old(recvId)
    {
      sent := false;
      var i := 0;
      while i < |dmaFree| && !sent
        invariant 0 <= i <= |dmaFree|
        invariant Linked(this, rx)
        invariant !sent ==> (ChanOf(this, rx) == old(ChanOf(this, rx)) &&
          staging[writeBuf].payload == old(staging[writeBuf].payload) &&
          (HasRoom(old(ChanOf(this, rx))) ==> true !in dmaFree[..i]))
        invariant sent ==> (HasRoom(old(ChanOf(this, rx))) && true in dmaFree[..i] &&
          ChanOf(this, rx) == SendStep(old(ChanOf(this, rx)), old(staging[writeBuf].payload), true).1)
        invariant !sent ==> unchanged(this, staging, rx.ring)
        invariant sent ==> (writeBuf == old(shadowWriteBuf) && shadowWriteBuf == old(writeBuf) &&
          staging[shadowWriteBuf] == old(staging[writeBuf]).(flag := FLAG_VALID) &&
          staging[writeBuf] == old(staging[shadowWriteBuf]))
        invariant sent ==> (sendCount == IncSizeT(old(sendCount)) && sendPtr == Next(old(sendPtr), numBuf) &&
          rx.ring[..] == old(rx.ring[..])[old(sendPtr) := old(staging[writeBuf]).(flag := FLAG_VALID)])
        invariant remoteAddr == old(remoteAddr) && localAddr == old(localAddr) && bufSize == old(bufSize) &&
          numBuf == old(numBuf) && recvCount == old(recvCount) && recvId == old(recvId)
      {
        var r := NbSend(rx, dmaFree[i]);
        sent := r == 1;
        assert dmaFree[..i + 1] == dmaFree[..i] + [dmaFree[i]];
        i := i + 1;
      }
      assert dmaFree[..i] == dmaFree || sent;
    }
  }

  /** The receiving end of a channel. */
  class Receiver {
    /** Address of the sender's buffer structure. */
    var remoteAddr: SizeT
    /** Address of this end's buffer structure (its ring). */
    var localAddr: SizeT
    /** Payload bytes per message. */
    var bufSize: SizeT
    /** Slots of the ring. */
    var numBuf: SizeT
    /** This end's count word: messages acknowledged, modulo 2^32. */
    var recvCount: SizeT
    /** Core id of the sender. */
    var sendId: int
    /** The ring slot to inspect next: the head of the queue. */
    var recvPtr: SizeT
    /** The ring slot of the message dequeued last. */
    var readBuf: nat
    /** The scratchpad at localAddr, seen as slots; the first numBuf are the ring. */
    const ring: array<Slot>
    /** Messages dequeued so far. */
    ghost var Delivered: nat
    /** Messages acknowledged so far. */
    ghost var Acked: nat

    ghost predicate Valid()
      reads this
    {
      numBuf <= ring.Length &&
      (numBuf == 0 ==> recvPtr == 0 && readBuf == 0) &&
      (numBuf > 0 ==> recvPtr < numBuf && readBuf < numBuf)
    }

    /** The state right after a successful mp_recv_init: nothing received,
        nothing acknowledged, every flag of the ring invalid. */
    ghost predicate Initial()
      reads this, ring
    {
      Valid() && recvCount == 0 && recvPtr == 0 && readBuf == 0 &&
      Delivered == 0 && Acked == 0 &&
      forall i :: 0 <= i < numBuf ==> ring[i].flag == FLAG_INVALID
    }

    /** A descriptor that no init has set up yet, over the scratchpad area
        the application reserved for it. */
    constructor (region: array<Slot>)
      ensures Valid() && ring == region && numBuf == 0
      ensures Delivered == 0 && Acked == 0
    {
      ring := region;
      numBuf, recvPtr, readBuf, recvCount := 0, 0, 0, 0;
      Delivered, Acked := 0, 0;
    }

    /** Address of the payload dequeued last. */
    function ReadBufAddr(): (a: int)
      reads this
      requires Valid() && numBuf > 0
      ensures localAddr <= a && a + SlotSize(bufSize) <= CounterAddr(localAddr, bufSize, numBuf)
    {
      SlotsInsideRecvFootprint(localAddr, bufSize, numBuf, readBuf, readBuf + 1);
      SlotAddr(localAddr, bufSize, readBuf)
    }

    /** The payload dequeued last, as the application reads it. */
    function Message(): Payload
      reads this, ring
      requires Valid() && numBuf > 0
    {
      ring[readBuf].payload
    }

    /** mp_recv_alloc_size: the bytes this channel takes in the receiving
        scratchpad; every ring slot and the count word fit inside. */
    function RecvAllocSize(): (r: int)
      reads this
      ensures IsDwAligned(r)
      ensures CounterAddr(localAddr, bufSize, numBuf) + COUNTER_SIZE <= localAddr + r
      ensures r < CounterAddr(localAddr, bufSize, numBuf) + COUNTER_SIZE - localAddr + DW
    {
      RecvFootprint(bufSize, numBuf)
    }

    /** mp_recv_init: 0 and the descriptor and ring untouched when either
        address is not double-word aligned; otherwise 1, with the count
        and both pointers at 0 and the flag of every ring slot invalid. */
    method RecvInit(sendId: int, remoteAddr: SizeT, localAddr: SizeT, bufSize: SizeT, numBuf: SizeT)
      returns (r: int)
      requires Valid() && numBuf <= ring.Length
      modifies this, ring
      ensures Valid()
      ensures r == 0 || r == 1
      ensures r == 1 <==> IsDwAligned(remoteAddr) && IsDwAligned(localAddr)
      ensures r == 0 ==> unchanged(this) && unchanged(ring)
      ensures r == 1 ==> (Initial() &&
        this.sendId == sendId && this.remoteAddr == remoteAddr && this.localAddr == localAddr &&
        this.bufSize == bufSize && this.numBuf == numBuf)
      ensures r == 1 ==> forall i :: 0 <= i < numBuf ==> ring[i] == old(ring[i]).(flag := FLAG_INVALID)
      ensures r == 1 ==> forall i :: numBuf <= i < ring.Length ==> ring[i] == old(ring[i])
    {
      if !IsDwAligned(localAddr) || !IsDwAligned(remoteAddr) {
        return 0;
      }
      this.sendId, this.remoteAddr, this.localAddr := sendId, remoteAddr, localAddr;
      this.bufSize, this.numBuf := bufSize, numBuf;
      recvCount, recvPtr, readBuf := 0, 0, 0;
      Delivered, Acked := 0, 0;
      var i := 0;
      while i < numBuf
        modifies ring
        invariant 0 <= i <= numBuf
        invariant forall j :: 0 <= j < i ==> ring[j] == old(ring[j]).(flag := FLAG_INVALID)
        invariant forall j :: i <= j < ring.Length ==> ring[j] == old(ring[j])
      {
        ring[i] := ring[i].(flag := FLAG_INVALID);
        i := i + 1;
      }
      r := 1;
    }

    /** mp_nbrecv: when the flag of slot recvPtr is invalid, returns 0 and
        changes nothing. Otherwise exposes that slot as the read buffer,
        resets its flag, advances recvPtr and returns 1; the message is the
        oldest one sent and not yet received. The channel follows RecvStep. */
    method NbRecv(ghost tx: Sender) returns (r: int)
      requires Linked(tx, this)
      modifies this, ring
      ensures Linked(tx, this)
      ensures r == 1 <==> old(ring[recvPtr].flag) != FLAG_INVALID
      ensures r == RecvStep(old(ChanOf(tx, this))).0
      ensures ChanOf(tx, this) == RecvStep(old(ChanOf(tx, this))).2
      ensures r == 1 ==> Some(Message()) == RecvStep(old(ChanOf(tx, this))).1
      ensures r == 0 ==> unchanged(this, ring)
      ensures r == 1 ==> (readBuf == old(recvPtr) && recvPtr == Next(old(recvPtr), numBuf))
      ensures r == 1 ==> ring[..] == old(ring[..])[old(recvPtr) := Slot(old(ring[recvPtr].payload), FLAG_INVALID)]
      ensures remoteAddr == old(remoteAddr) && localAddr == old(localAddr) && bufSize == old(bufSize) &&
        numBuf == old(numBuf) && recvCount == old(recvCount) && sendId == old(sendId)
    {
      ghost var c := ChanOf(tx, this);
      ghost var before := ring[..numBuf];
      ConsumeHolds(before, c);
      if ring[recvPtr].flag == FLAG_INVALID {
        return 0;
      }
      NextTracksCount(Delivered, numBuf);
      ring[recvPtr] := ring[recvPtr].(flag := FLAG_INVALID);
      assert ring[..numBuf] == Consume(before, c.delivered % numBuf);
      var nextPtr := if recvPtr == numBuf - 1 then 0 else recvPtr + 1;
      readBuf, recvPtr, Delivered := recvPtr, nextPtr, Delivered + 1;
      assert ChanOf(tx, this) == RecvStep(c).2;
      r := 1;
    }

    /** mp_recv: repeats the non-blocking receive up to polls times until
        one succeeds. No message can arrive between two polls of a single
        core, so it succeeds exactly when it polls and a message is there. */
    method Recv(ghost tx: Sender, polls: nat) returns (received: bool)
      requires Linked(tx, this)
      modifies this, ring
      ensures Linked(tx, this)
      ensures received <==> polls > 0 && old(ChanOf(tx, this)).delivered < |old(ChanOf(tx, this)).sent|
      ensures ChanOf(tx, this) == if received then RecvStep(old(ChanOf(tx, this))).2 else old(ChanOf(tx, this))
      ensures received ==> Some(Message()) == RecvStep(old(ChanOf(tx, this))).1
      ensures !received ==> unchanged(this, ring)
      ensures received ==> (readBuf == old(recvPtr) && recvPtr == Next(old(recvPtr), numBuf))
      ensures received ==> ring[..] == old(ring[..])[old(recvPtr) := Slot(old(ring[recvPtr].payload), FLAG_INVALID)]
      ensures remoteAddr == old(remoteAddr) && localAddr == old(localAddr) && bufSize == old(bufSize) &&
        numBuf == old(numBuf) && recvCount == old(recvCount) && sendId == old(sendId)
    {
      received := false;
      var i := 0;
      while i < polls && !received
        invariant 0 <= i <= polls
        invariant Linked(tx, this)
        invariant !received ==> (ChanOf(tx, this) == old(ChanOf(tx, this)) &&
          (i > 0 ==> old(ChanOf(tx, this)).delivered == |old(ChanOf(tx, this)).sent|))
        invariant received ==> (i > 0 && ChanOf(tx, this) == RecvStep(old(ChanOf(tx, this))).2 &&
          Some(Message()) == RecvStep(old(ChanOf(tx, this))).1)
        invariant !received ==> unchanged(this, ring)
        invariant received ==> (readBuf == old(recvPtr) && recvPtr == Next(old(recvPtr), numBuf) &&
          ring[..] == old(ring[..])[old(recvPtr) := Slot(old(ring[recvPtr].payload), FLAG_INVALID)])
        invariant remoteAddr == old(remoteAddr) && localAddr == old(localAddr) && bufSize == old(bufSize) &&
          numBuf == old(numBuf) && recvCount == old(recvCount) && sendId == old(sendId)
      {
        var r := NbRecv(tx);
        received := r == 1;
        i := i + 1;
      }
    }

    /** mp_nback: when a DMA is free, counts one more acknowledgement in
        this end's count word, copies it into the sender's count word and
        returns 1; otherwise returns 0 and changes nothing. The channel
        follows AckStep; it stays consistent when the acknowledged message
        had been received, which the caller must ensure. */
    method NbAck(tx: Sender, dmaFree: bool) returns (r: int)
      requires Linked(tx, this)
      modifies this, tx`recvCount
      ensures old(Acked < Delivered) ==> Linked(tx, this)
      ensures (r, ChanOf(tx, this)) == AckStep(old(ChanOf(tx, this)), dmaFree)
      ensures r == 0 ==> unchanged(this, tx)
      ensures r == 1 ==> recvCount == IncSizeT(old(recvCount)) && tx.recvCount == recvCount
      ensures remoteAddr == old(remoteAddr) && localAddr == old(localAddr) && bufSize == old(bufSize) &&
        numBuf == old(numBuf) && recvPtr == old(recvPtr) && readBuf == old(readBuf) && sendId == old(sendId)
    {
      if !dmaFree {
        return 0;
      }
      ghost var c := ChanOf(tx, this);
      NextTracksCount(Acked, WORD);
      recvCount := IncSizeT(recvCount);
      tx.recvCount := recvCount;
      Acked := Acked + 1;
      if c.acked < c.delivered {
        AckHolds(ring[..numBuf], c);
      }
      r := 1;
    }

    /** mp_ack: repeats the non-blocking acknowledgement, once per entry
        of the transport's answers to "is a DMA free", until one succeeds. */
    method Ack(tx: Sender, dmaFree: seq<bool>) returns (acked: bool)
      requires Linked(tx, this)
      modifies this, tx`recvCount
      ensures old(Acked < Delivered) ==> Linked(tx, this)
      ensures acked <==> true in dmaFree
      ensures ChanOf(tx, this) == AckStep(old(ChanOf(tx, this)), acked).1
      ensures !acked ==> (unchanged(this, tx) && Linked(tx, this))
      ensures acked ==> (recvCount == IncSizeT(old(recvCount)) && tx.recvCount == recvCount)
      ensures remoteAddr == old(remoteAddr) && localAddr == old(localAddr) && bufSize == old(bufSize) &&
        numBuf == old(numBuf) && recvPtr == old(recvPtr) && readBuf == old(readBuf) && sendId == old(sendId)
    {
      acked := false;
      var i := 0;
      while i < |dmaFree| && !acked
        invariant 0 <= i <= |dmaFree|
        invariant !acked ==> (Linked(tx, this) && ChanOf(tx, this) == old(ChanOf(tx, this)) &&
          true !in dmaFree[..i])
        invariant acked ==> (true in dmaFree[..i] &&
          ChanOf(tx, this) == AckStep(old(ChanOf(tx, this)), true).1 &&
          (old(Acked < Delivered) ==> Linked(tx, this)))
        invariant !acked ==> unchanged(this, tx)
        invariant acked ==> (recvCount == IncSizeT(old(recvCount)) && tx.recvCount == recvCount)
        invariant remoteAddr == old(remoteAddr) && localAddr == old(localAddr) && bufSize == old(bufSize) &&
          numBuf == old(numBuf) && recvPtr == old(recvPtr) && readBuf == old(readBuf) && sendId == old(sendId)
      {
        var r := NbAck(tx, dmaFree[i]);
        acked := r == 1;
        assert dmaFree[..i + 1] == dmaFree[..i] + [dmaFree[i]];
        i := i + 1;
      }
      assert dmaFree[..i] == dmaFree || acked;
    }
  }

  /** The transport's copy of one slot, payload and flag together, into
      slot i of the other end's scratchpad. */
  method DmaSlot(dst: array<Slot>, i: nat, s: Slot)
    requires i < dst.Length
    modifies dst
    ensures dst[..] == old(dst[..])[i := s]
  {
    dst[i] := s;
  }

  /** The abstract channel the two ends hold between them. */
  ghost function ChanOf(tx: Sender, rx: Receiver): Chan
    reads tx, rx
  {
    Chan(tx.numBuf, tx.Sent, rx.Delivered, rx.Acked)
  }

  /** Both ends are configured for the same channel: equal payload size
      and ring depth, and each end's remote address is the other's local one. */
  ghost predicate Mirrors(tx: Sender, rx: Receiver)
    reads tx, rx
  {
    tx.bufSize == rx.bufSize && tx.numBuf == rx.numBuf && tx.numBuf > 0 &&
    tx.remoteAddr == rx.localAddr && rx.remoteAddr == tx.localAddr
  }

  /** The channel invariant tying the two ends together: configurations
      mirror each other, the counters and ring pointers are the true counts
      wrapped, the sender's copy of the acknowledgement count equals the
      receiver's, and the receiver's ring holds the abstract channel. */
  ghost predicate Linked(tx: Sender, rx: Receiver)
    reads tx, rx, rx.ring
  {
    tx.Valid() && rx.Valid() && Mirrors(tx, rx) && tx.staging != rx.ring &&
    tx.sendCount == |tx.Sent| % WORD && tx.sendPtr == |tx.Sent| % tx.numBuf &&
    rx.recvCount == rx.Acked % WORD && tx.recvCount == rx.recvCount &&
    rx.recvPtr == rx.Delivered % rx.numBuf &&
    (rx.Delivered > 0 ==> rx.readBuf == (rx.Delivered - 1) % rx.numBuf) &&
    Holds(rx.ring[..rx.numBuf], ChanOf(tx, rx))
  }

  /** Two ends fresh from their inits, configured for the same channel,
      form a consistent, empty channel. */
  lemma InitLinks(tx: Sender, rx: Receiver)
    requires tx.Initial() && rx.Initial() && Mirrors(tx, rx) && tx.staging != rx.ring
    ensures Linked(tx, rx)
    ensures ChanOf(tx, rx) == Empty(tx.numBuf)
  {
    EmptyRingHolds(rx.ring[..rx.numBuf]);
  }

  /** The messages received and not yet acknowledged stay intact in their
      slots, under invalid flags, whatever the sender does meanwhile. */
  lemma HeldMessagesIntact(tx: Sender, rx: Receiver, k: nat)
    requires Linked(tx, rx) && rx.Acked <= k < rx.Delivered
    ensures rx.ring[k % rx.numBuf].payload == tx.Sent[k]
    ensures rx.ring[k % rx.numBuf].flag == FLAG_INVALID
  {
    HeldIntact(rx.ring[..rx.numBuf], ChanOf(tx, rx), k);
  }

  /** At most numBuf messages are ever sent and not acknowledged, and the
      sender's wrapped counters measure exactly that number. */
  lemma InFlightBounded(tx: Sender, rx: Receiver)
    requires Linked(tx, rx)
    ensures 0 <= |tx.Sent| - rx.Acked <= tx.numBuf
    ensures SubSizeT(tx.sendCount, tx.recvCount) == |tx.Sent| - rx.Acked
  {
    WrappedDifference(|tx.Sent|, rx.Acked);
  }
}
