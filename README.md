# Flow-controlled message passing between Patmos cores (libmp)

This project models the message-passing channel of `libmp`. A sender core
passes fixed-size messages to a receiver core through the receiver's
communication scratchpad, under flow control. The model is proved in Dafny.

Only the header `c/libmp/mp.h` is modelled: its macros, the channel
descriptor `mpd_t` and the contracts its doc comments give. The
implementation file is not part of this model. The layout of the buffer
structures follows from the header's footprint formulas:
- the sender's structure is two staging slots and then its count word;
- the receiver's structure is `num_buf` ring slots and then its count word;
- a slot is `buf_size` payload bytes followed by a flag of `FLAG_SIZE` bytes.

The project has four modules:

- `Layout` (`layout.dfy`) covers the layout arithmetic:
  - `DWALIGN`, `FLAG_SIZE`, the flag values and `NUM_WRITE_BUF`;
  - the two footprints behind `mp_send_alloc_size` and `mp_recv_alloc_size`;
  - slot, flag and count-word addresses inside a structure;
  - the conversion of byte addresses to the transport's double-word offsets
    from `NOC_SPM_BASE`.
- `Queue` (`queue.dfy`) is the channel as a whole: the messages sent, how
  many were dequeued and how many were acknowledged. It has:
  - one step function for each non-blocking call;
  - runs of calls, with the flow-control bound and FIFO delivery proved
    over any run.
- `Ring` (`ring.dfy`) covers how the receiver's ring of slots holds that
  queue:
  - message k goes into slot k mod `num_buf`;
  - a flag is valid exactly on arrived, undequeued messages;
  - every unacknowledged message keeps its payload in its slot.
  It also proves that the sender's deposit, the receiver's dequeue and an
  acknowledgement each preserve this encoding.
- `Mp` (`mp.dfy`) has the descriptor as two classes, `Sender` and
  `Receiver`. Their fields are the common fields of `mpd_t` plus that end's
  half of its union, except the receiver's `remote_recv_count` (see
  "Left out"). The module has:
  - the inits, the non-blocking steps and their blocking retry loops;
  - `Linked`, the invariant that ties the two ends and the ring together.
  Every step is proved to move the channel exactly as the matching `Queue`
  step does.

The NoC transport is a parameter. Whether a DMA engine is free is a boolean
the caller passes in. A transfer is an immediate copy into the other end's
slot or count word (`Mp.DmaSlot`, and the write of `tx.recvCount`). The
counters are `size_t` on a 32-bit processor. The model wraps them modulo
2^32 and proves that the wrapped difference still counts the messages in
flight exactly.

## Model

| member | source | states |
|---|---|---|
| Layout.DwAlign | c/libmp/mp.h:67-70 | the result is a multiple of 8, at least x and less than x + 8 |
| Layout.AlignedIffFixed | c/libmp/mp.h:67-70 | rounding leaves x where it is exactly when x is already double-word aligned |
| Layout.DwAlignIdempotent | c/libmp/mp.h:67-70 | aligning twice is aligning once |
| Layout.DwAlignMonotone | c/libmp/mp.h:67-70 | rounding up never reverses the order of two values |
| Layout.DwAlignLeast | c/libmp/mp.h:67-70 | the result is the least multiple of 8 not below x |
| Layout.FlagConstants | c/libmp/mp.h:72-81 | FLAG_SIZE is 8 and aligned; the valid and invalid flag values differ |
| Layout.SendFootprint | c/libmp/mp.h:45-53 | the sender structure is aligned and covers two slots and the 4-byte count word, with under 8 bytes of padding |
| Layout.RecvFootprint | c/libmp/mp.h:45-53 | the receiver structure is aligned and covers num_buf slots and the 4-byte count word, with under 8 bytes of padding |
| Layout.SendFootprintMonotone | c/libmp/mp.h:45-53 | a larger payload never needs less sender space |
| Layout.RecvFootprintMonotone | c/libmp/mp.h:45-53 | a larger payload or a deeper ring never needs less receiver space |
| Layout.DocumentedSizeTooSmall | c/libmp/mp.h:144-149 | the "buffer size times number of buffers plus 16" size from the init docs falls short of the receiver footprint whenever num_buf ≥ 2, and of the sender footprint whenever num_buf ≤ 2 |
| Layout.UnalignedPayloadMisalignsFlag | c/libmp/mp.h:152-153 | with an aligned base and a buf_size that is not a multiple of 8, which the inits accept, the first slot's flag and the count word after one slot are not double-word aligned |
| Layout.FlagAddr | c/libmp/mp.h:72-77 | the flag follows the slot's payload and ends where the next slot begins |
| Layout.SlotsInsideRecvFootprint | c/libmp/mp.h:45-56 | ring slots are disjoint, in order, and all of them plus the count word fit in the receiver footprint |
| Layout.StagingInsideSendFootprint | c/libmp/mp.h:45-56 | both staging slots and the count word fit in the sender footprint |
| Layout.SlotsAligned | c/libmp/mp.h:67-77 | with an aligned base and an aligned payload size, every slot and every flag is double-word aligned |
| Layout.DwRoundTrip | c/libnoc/noc.h:161-176 | an aligned byte address converts to double words relative to NOC_SPM_BASE and back without loss, and the offset fits the transport's 16-bit operands exactly when the address lies in the first 2^16 double words above NOC_SPM_BASE |
| Queue.Empty | c/libmp/mp.h:141-171 | a fresh channel satisfies the flow-control invariant with nothing in flight |
| Queue.SendStep | c/libmp/mp.h:177-188 | a send returns 1 exactly when the ring has a free slot and a DMA is free, and 0 exactly otherwise |
| Queue.RecvStep | c/libmp/mp.h:201-213 | a receive returns 1, with a message, exactly when one has arrived and was not dequeued yet |
| Queue.AckStep | c/libmp/mp.h:227-241 | an acknowledgement returns 1 exactly when a DMA is free |
| Queue.StepKeepsInv | c/libmp/mp.h:105-118 | every step keeps acked ≤ delivered ≤ sent ≤ acked + num_buf and never rewrites what was sent |
| Queue.RunKeepsInv | c/libmp/mp.h:105-118 | across any run whose acknowledgements follow receipts, at most num_buf messages are ever sent and not acknowledged |
| Queue.RunIsFifo | c/libmp/mp.h:124-132 | the messages a run receives are the messages sent, in sending order, each exactly once |
| Queue.SendsWithoutAcksBounded | c/libmp/mp.h:185-188 | without acknowledgements at most num_buf − in-flight further sends succeed |
| Queue.AckFreesOneSlot | c/libmp/mp.h:227-235 | with a full ring, one acknowledgement lets exactly one more send through |
| Queue.NoDuplicateReceive | c/libmp/mp.h:201-213 | two receives in a row return two successive messages, never the same one twice |
| Ring.Owner | c/libmp/mp.h:115-128 | the message a slot holds or will hold next is within num_buf of the oldest unacknowledged one |
| Ring.OwnerOfSlot | c/libmp/mp.h:115-128 | message k of the unacknowledged window lives in slot k mod num_buf |
| Ring.OwnerAfterAck | c/libmp/mp.h:227-235 | an acknowledgement passes exactly the acknowledged slot on to the message num_buf places later |
| Ring.NextTracksCount | c/libmp/mp.h:115-128 | the wrap-to-zero pointer step keeps a pointer equal to its count mod num_buf |
| Ring.Deposit | c/libmp/mp.h:177-188 | the transfer of a send sets exactly one slot to the message with a valid flag |
| Ring.Consume | c/libmp/mp.h:201-213 | a dequeue resets exactly the head slot's flag and keeps its payload |
| Ring.EmptyRingHolds | c/libmp/mp.h:157-171 | a ring whose flags are all invalid holds the empty channel |
| Ring.DepositHolds | c/libmp/mp.h:177-188 | a send with room writes the slot of no unacknowledged message, and the ring then holds the channel with the message appended |
| Ring.ConsumeHolds | c/libmp/mp.h:201-213 | the head flag is invalid exactly when nothing is waiting; otherwise the head holds the oldest undelivered message, and dequeuing keeps the encoding |
| Ring.AckHolds | c/libmp/mp.h:227-235 | acknowledging a dequeued message keeps the encoding |
| Ring.HeldIntact | c/libmp/mp.h:231-235 | received but unacknowledged messages keep their payloads under invalid flags |
| Mp.WrappedDifference | c/libmp/mp.h:105-118 | the 32-bit wrapped difference of the send and acknowledgement counters is the true number in flight |
| Mp.Sender.constructor | c/libmp/mp.h:100-123 | a sender descriptor with its two staging slots, nothing sent |
| Mp.Sender.WriteBufAddr | c/libmp/mp.h:119-120 | the exposed write buffer lies inside the sender structure, before its count word |
| Mp.Sender.SendAllocSize | c/libmp/mp.h:256-258 | the sending footprint is aligned and holds both staging slots and the count word, with under 8 bytes of padding |
| Mp.Sender.SendInit | c/libmp/mp.h:141-155 | returns 1 exactly when both addresses are aligned, and then zeroes the counters and the pointer and exposes buffer 0; returns 0 and changes nothing otherwise |
| Mp.Sender.Stage | c/libmp/mp.h:177-180 | the application's message lands in the exposed staging buffer, and the other buffer is untouched |
| Mp.Sender.NbSend | c/libmp/mp.h:177-188 | returns 1 exactly when the wrapped counters show a free slot and a DMA is free. Then the message and a valid flag land in the tail slot, the count and the tail advance, and the staging buffers swap. Returns 0 and changes nothing otherwise. The channel follows SendStep and Linked is kept |
| Mp.Sender.Commit | c/libmp/mp.h:177-188 | the success path of a send: the slot copy, the counter and pointer updates, and the buffer swap, keeping Linked |
| Mp.Sender.Send | c/libmp/mp.h:190-199 | succeeds exactly when the ring has room and some DMA answer is yes. Then the channel has the message appended and the staging buffers are swapped, with the sent one flagged valid. The ring slot, send count and ring pointer change as in Mp.Sender.NbSend, and the configuration fields are kept. On failure nothing changes, so the staged message is still there for a retry |
| Mp.Receiver.constructor | c/libmp/mp.h:100-135 | a receiver descriptor over the reserved scratchpad area, nothing received |
| Mp.Receiver.ReadBufAddr | c/libmp/mp.h:131-132 | the read buffer lies inside the receiver's ring, before its count word |
| Mp.Receiver.RecvAllocSize | c/libmp/mp.h:260-262 | the receiving footprint is aligned and holds every slot and the count word, with under 8 bytes of padding |
| Mp.Receiver.RecvInit | c/libmp/mp.h:157-171 | returns 1 exactly when both addresses are aligned, and then zeroes the count and the pointers and invalidates every ring flag; returns 0 and changes nothing otherwise |
| Mp.Receiver.NbRecv | c/libmp/mp.h:201-213 | returns 1 exactly when the head flag is valid. Then read_buf is the head slot, its flag is reset and the head advances, and the message read is the oldest one not received. Returns 0 and changes nothing otherwise |
| Mp.Receiver.Recv | c/libmp/mp.h:215-225 | receives exactly when it polls and a message is waiting, and returns the oldest one. Then read_buf, the head pointer and the head flag change as in Mp.Receiver.NbRecv; on failure nothing changes. The configuration fields are kept either way |
| Mp.Receiver.NbAck | c/libmp/mp.h:227-241 | returns 1 exactly when a DMA is free. Then the count rises by one (wrapping) and is copied into the sender's count word. Returns 0 and changes nothing otherwise |
| Mp.Receiver.Ack | c/libmp/mp.h:243-254 | acknowledges exactly when some DMA answer is yes. Then the channel has one more acknowledgement, and the count rises by one (wrapping) and is copied into the sender's count word. On failure nothing changes and Linked still holds. The configuration fields and both ring pointers are kept either way |
| Mp.DmaSlot | c/libmp/mp.h:177-188 | the transfer overwrites exactly the one destination slot |
| Mp.InitLinks | c/libmp/mp.h:141-171 | two freshly initialised, mirrored ends form a consistent, empty channel |
| Mp.HeldMessagesIntact | c/libmp/mp.h:231-235 | received but unacknowledged messages stay intact in the receiver's ring |
| Mp.InFlightBounded | c/libmp/mp.h:105-118 | at most num_buf messages are sent and not acknowledged, and the sender's counters measure that number |

## Left out

- The NoC and its DMA engines (`c/libnoc/noc.h`) are not part of this model. A transfer is an immediate copy, and "is a DMA free" is a parameter. Asynchronous completion (`noc_done`), multicast and interrupts are left out.
- Real cross-core memory visibility, `volatile` and `_SPM` are left out. Both ends are objects in one heap, and the receiver's flag polling reads the slot directly.
- Mp.Sender.Send: `mp_send` spins for ever on a full ring. The model tries once per entry of a finite sequence of DMA answers and reports whether it succeeded.
- Mp.Receiver.Recv: `mp_recv` spins until a message arrives. The model polls a given number of times. No message can arrive between two polls of one core in this model.
- Mp.Receiver.Ack: `mp_ack` spins until a DMA is free. The model tries once per entry of a finite sequence of DMA answers.
- Mp.Receiver.NbAck: keeps Linked only when a received message is unacknowledged. The header asks callers to acknowledge only what they received but does not say what happens otherwise.
- Mp.Sender.NbSend: libmp's double buffering lets the application fill the next staging buffer while the previous transfer is in flight. With immediate transfers that overlap is not modelled.
- Layout.DwAlign: does not model the overflow of the signed 32-bit `(int)` cast for values above 2^31 − 8; the model uses unbounded integers.
- Mp.Linked: requires num_buf > 0. A channel with no ring slots can never send, and the header does not say what its pointers do.
- The payload length is not tied to buf_size, and the count words are fields rather than bytes at the addresses the layout gives.
- The implementation of the operations is not part of this model. The placement of the count words is inferred from the header's footprint formulas, and the order of the fields' updates within each call is inferred from the fields' descriptions; the header states no order. The reset of every ring flag at receive init is not stated by the header: it is inferred from the flag's purpose of detecting a completed message (c/libmp/mp.h:72-76).
- The receiver's `remote_recv_count` field (the address of the sender's count word) is not a field of `Mp.Receiver`. Mp.Receiver.NbAck and Mp.Receiver.Ack take the `Sender` as a parameter and write its `recvCount` directly, which stands for the copy to that address.
- Layout.DwRoundTrip: the transport's address and size operands are `unsigned short` (c/libnoc/noc.h:173-176). The conversion itself is over unbounded integers; the lemma states when an offset fits 16 bits, and the model does not pass offsets to the transport.
- The rest of the repository is not modelled.

## Findings

| source | as written | input that shows it | evidently intended | confidence | as-written member | corrected member |
|---|---|---|---|---|---|---|
| c/libmp/mp.h:144-149 (also 160-165) | the init docs size a buffer structure as the message size times the number of buffers plus 16 bytes | buf_size 8, num_buf 4: 48 bytes documented against 72 in the receiver footprint; buf_size 8, num_buf 1 at the sender: 24 against 40. The receiver falls short from num_buf 2 on, and the sender for every num_buf up to 2; with one slot and an aligned buf_size the receiver sizes agree, and with buf_size 8, from num_buf 3 the documented size covers the sender | the footprint formulas of lines 45-53, which count each slot's flag and the count word | not executed; documentation only | Layout.DocumentedSizeTooSmall | Layout.SlotsInsideRecvFootprint |
| c/libmp/mp.h:152-153 (also 168-169) | the inits reject only misaligned addresses and accept any buf_size | aligned base 0, buf_size 4: the first flag sits at byte 4 and the count word after one slot at byte 12 | buf_size a multiple of 8, so that every slot, flag and count word is on a double word | not executed; low, since the implementation file may round buf_size up | Layout.UnalignedPayloadMisalignsFlag | Layout.SlotsAligned |
