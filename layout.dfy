/** Layout arithmetic of a message-passing channel: double-word alignment,
    the trailing flag of a ring slot, the footprints of the sender and
    receiver buffer structures in the communication scratchpads, and the
    byte addresses of the slots inside them. */
module Layout {

  /** Bytes in a double word. */
  const DW: int := 8

  /** The value of DWALIGN(x): x rounded up to the next multiple of 8. DWALIGN
      shifts a signed int right and back left; an arithmetic right
      shift is floor division, which is Dafny's `/` for a positive divisor. */
  function DwAlign(x: int): (r: int)
    ensures r % DW == 0
    ensures x <= r < x + DW
  {
    ((x + 7) / 8) * 8
  }

  predicate IsDwAligned(x: int) {
    x % DW == 0
  }

  /** Rounding up never moves an aligned value, and every value it moves
      is unaligned. */
  lemma AlignedIffFixed(x: int)
    ensures IsDwAligned(x) <==> DwAlign(x) == x
  {
  }

  lemma DwAlignIdempotent(x: int)
    ensures DwAlign(DwAlign(x)) == DwAlign(x)
  {
    AlignedIffFixed(DwAlign(x));
  }

  lemma DwAlignMonotone(x: int, y: int)
    requires x <= y
    ensures DwAlign(x) <= DwAlign(y)
  {
  }

  /** DwAlign(x) is the least multiple of 8 that is not below x. */
  lemma DwAlignLeast(x: int, m: int)
    requires IsDwAligned(m) && x <= m
    ensures DwAlign(x) <= m
  {
  }

  /** The width of the completion flag that trails each slot's payload. */
  const FLAG_SIZE: int := DwAlign(8)

  /** The two values a slot's flag word takes. */
  const FLAG_VALID: bv32 := 0xFFFF_FFFF
  const FLAG_INVALID: bv32 := 0x0000_0000

  /** Number of staging buffers at the sender. */
  const NUM_WRITE_BUF: int := 2

  /** Bytes of one counter word (a size_t on the 32-bit processor). */
  const COUNTER_SIZE: int := 4

  lemma FlagConstants()
    ensures FLAG_SIZE == 8 && IsDwAligned(FLAG_SIZE)
    ensures FLAG_VALID != FLAG_INVALID
  {
  }

  /** Bytes one ring slot takes: the payload followed by its flag. */
  function SlotSize(bufSize: nat): (r: int)
    ensures bufSize < r
    ensures IsDwAligned(bufSize) <==> IsDwAligned(r)
  {
    bufSize + FLAG_SIZE
  }

  /** Bytes the sender's structure takes in its scratchpad (mp_send_alloc_size):
      two staging slots and the word the receiver writes its count into, aligned. */
  function SendFootprint(bufSize: nat): (r: int)
    ensures IsDwAligned(r)
    ensures NUM_WRITE_BUF * SlotSize(bufSize) + COUNTER_SIZE <= r
    ensures r < NUM_WRITE_BUF * SlotSize(bufSize) + COUNTER_SIZE + DW
  {
    DwAlign(NUM_WRITE_BUF * (bufSize + FLAG_SIZE) + COUNTER_SIZE)
  }

  /** Bytes the receiver's structure takes in its scratchpad (mp_recv_alloc_size):
      num_buf ring slots and its own count word, aligned. */
  function RecvFootprint(bufSize: nat, numBuf: nat): (r: int)
    ensures IsDwAligned(r)
    ensures numBuf * SlotSize(bufSize) + COUNTER_SIZE <= r
    ensures r < numBuf * SlotSize(bufSize) + COUNTER_SIZE + DW
  {
    DwAlign(numBuf * (bufSize + FLAG_SIZE) + COUNTER_SIZE)
  }

  lemma SendFootprintMonotone(b1: nat, b2: nat)
    requires b1 <= b2
    ensures SendFootprint(b1) <= SendFootprint(b2)
  {
    DwAlignMonotone(NUM_WRITE_BUF * (b1 + FLAG_SIZE) + COUNTER_SIZE,
                    NUM_WRITE_BUF * (b2 + FLAG_SIZE) + COUNTER_SIZE);
  }

  lemma {:induction false} MulMonotone(a1: nat, a2: nat, b1: nat, b2: nat)
    requires a1 <= a2 && b1 <= b2
    ensures a1 * b1 <= a2 * b2
  {
    if a1 < a2 {
      MulMonotone(a1, a2 - 1, b1, b2);
      assert a2 * b2 == (a2 - 1) * b2 + b2;
    } else if b1 < b2 {
      MulMonotone(a1, a2, b1, b2 - 1);
      assert a2 * b2 == a2 * (b2 - 1) + a2;
    }
  }

  /** A larger payload or a deeper ring never needs less receiver space. */
  lemma RecvFootprintMonotone(b1: nat, n1: nat, b2: nat, n2: nat)
    requires b1 <= b2 && n1 <= n2
    ensures RecvFootprint(b1, n1) <= RecvFootprint(b2, n2)
  {
    MulMonotone(n1, n2, b1 + FLAG_SIZE, b2 + FLAG_SIZE);
    DwAlignMonotone(n1 * (b1 + FLAG_SIZE) + COUNTER_SIZE, n2 * (b2 + FLAG_SIZE) + COUNTER_SIZE);
  }

  /** The size the parameter documentation of both inits gives for a buffer
      structure: the message buffer size times the number of buffers plus
      16 bytes. It leaves out the per-slot flag. */
  function DocumentedSize(bufSize: nat, numBuf: nat): int {
    bufSize * numBuf + 16
  }

  /** With two or more slots the documented size is smaller than the
      receiver's footprint, so a structure sized by it overlaps what follows;
      with at most two slots it is smaller than the sender's footprint. */
  lemma DocumentedSizeTooSmall(bufSize: nat, numBuf: nat)
    ensures numBuf >= 2 ==> DocumentedSize(bufSize, numBuf) < RecvFootprint(bufSize, numBuf)
    ensures numBuf <= 2 ==> DocumentedSize(bufSize, numBuf) < SendFootprint(bufSize)
  {
    assert numBuf * (bufSize + FLAG_SIZE) == bufSize * numBuf + 8 * numBuf;
  }

  /** Byte address of slot i of a structure that starts at base. */
  function SlotAddr(base: int, bufSize: nat, i: nat): int {
    base + i * SlotSize(bufSize)
  }

  /** Byte address of the flag that trails slot i's payload. */
  function FlagAddr(base: int, bufSize: nat, i: nat): (r: int)
    ensures SlotAddr(base, bufSize, i) <= r
    ensures r + FLAG_SIZE == SlotAddr(base, bufSize, i + 1)
  {
    SlotAddr(base, bufSize, i) + bufSize
  }

  /** Byte address of the count word that follows `slots` slots. */
  function CounterAddr(base: int, bufSize: nat, slots: nat): int {
    SlotAddr(base, bufSize, slots)
  }

  /** Every slot of the receiver's ring, flag included, lies inside the
      receiver's footprint, before the count word; later slots lie after
      earlier ones without overlap. */
  lemma SlotsInsideRecvFootprint(base: int, bufSize: nat, numBuf: nat, i: nat, j: nat)
    requires i < j <= numBuf
    ensures base <= SlotAddr(base, bufSize, i)
    ensures SlotAddr(base, bufSize, i) + SlotSize(bufSize) <= SlotAddr(base, bufSize, j)
    ensures SlotAddr(base, bufSize, j) <= CounterAddr(base, bufSize, numBuf)
    ensures CounterAddr(base, bufSize, numBuf) + COUNTER_SIZE <= base + RecvFootprint(bufSize, numBuf)
  {
    MulMonotone(i + 1, j, SlotSize(bufSize), SlotSize(bufSize));
    MulMonotone(j, numBuf, SlotSize(bufSize), SlotSize(bufSize));
    assert (i + 1) * SlotSize(bufSize) == i * SlotSize(bufSize) + SlotSize(bufSize);
  }

  /** The two staging buffers and the sender's count word fit the sender's footprint. */
  lemma StagingInsideSendFootprint(base: int, bufSize: nat)
    ensures SlotAddr(base, bufSize, 0) == base
    ensures SlotAddr(base, bufSize, 1) == base + SlotSize(bufSize)
    ensures CounterAddr(base, bufSize, NUM_WRITE_BUF) + COUNTER_SIZE <= base + SendFootprint(bufSize)
  {
  }

  /** Quotient and remainder arithmetic, stated once for every modulus. */
  lemma Distrib(a: int, b: int, n: int)
    ensures a * n - b * n == (a - b) * n
  {
  }

  lemma MulAtLeast(d: int, n: int)
    requires d >= 1 && n > 0
    ensures d * n >= n
  {
  }

  lemma DivMod(x: int, n: int)
    requires n > 0
    ensures x == (x / n) * n + x % n && 0 <= x % n < n
  {
  }

  /** A multiple of n strictly between -n and n is 0 times n. */
  lemma SmallMultiple(d: int, n: int)
    requires n > 0 && -n < d * n < n
    ensures d == 0
  {
    if d >= 1 {
      MulAtLeast(d, n);
    } else if d <= -1 {
      MulAtLeast(-d, n);
      Distrib(0, d, n);
    }
  }

  /** x = q * n + r with 0 <= r < n fixes both quotient and remainder. */
  lemma ModUnique(x: int, n: int, q: int, r: int)
    requires n > 0 && 0 <= r < n && x == q * n + r
    ensures x / n == q && x % n == r
  {
    DivMod(x, n);
    Distrib(q, x / n, n);
    SmallMultiple(q - x / n, n);
  }

  /** The sum of two aligned values is aligned. */
  lemma AddAligned(x: int, y: int)
    requires IsDwAligned(x) && IsDwAligned(y)
    ensures IsDwAligned(x + y)
  {
    assert x == (x / DW) * DW && y == (y / DW) * DW;
    assert x + y == (x / DW + y / DW) * DW;
  }

  /** With an aligned base and an aligned payload size every slot and every
      flag starts on a double word, as the cross-core flag and counter
      accesses need. */
  lemma {:induction false} SlotsAligned(base: int, bufSize: nat, i: nat)
    requires IsDwAligned(base) && IsDwAligned(bufSize)
    ensures IsDwAligned(SlotAddr(base, bufSize, i))
    ensures IsDwAligned(FlagAddr(base, bufSize, i))
  {
    var s := SlotSize(bufSize);
    AddAligned(bufSize, FLAG_SIZE);
    if i > 0 {
      SlotsAligned(base, bufSize, i - 1);
      assert i * s == (i - 1) * s + s;
      AddAligned(SlotAddr(base, bufSize, i - 1), s);
    }
    AddAligned(SlotAddr(base, bufSize, i), bufSize);
  }

  /** Adding an aligned value keeps the residue mod 8. */
  lemma ShiftByAligned(base: int, x: int)
    requires IsDwAligned(base)
    ensures (base + x) % DW == x % DW
  {
    DivMod(x, DW);
    assert base == (base / DW) * DW;
    assert base + x == (base / DW + x / DW) * DW + x % DW;
    ModUnique(base + x, DW, base / DW + x / DW, x % DW);
  }

  /** The inits accept any payload size, but with an aligned base and a
      payload size that is not a multiple of 8 the flag of the very first
      slot, and the count word after a one-slot structure, are not on a
      double word. */
  lemma UnalignedPayloadMisalignsFlag(base: int, bufSize: nat)
    requires IsDwAligned(base) && !IsDwAligned(bufSize)
    ensures !IsDwAligned(FlagAddr(base, bufSize, 0))
    ensures !IsDwAligned(CounterAddr(base, bufSize, 1))
  {
    ShiftByAligned(base, bufSize);
    ShiftByAligned(base + FLAG_SIZE, bufSize);
  }

  /** The communication scratchpad base, from which the transport counts
      its addresses in double words. */
  const NOC_SPM_BASE: int := 0xE800_0000

  /** A byte address as the transport's double-word offset. */
  function ToDw(addr: int): int {
    (addr - NOC_SPM_BASE) / DW
  }

  /** A double-word offset as a byte address. */
  function FromDw(dw: int): int {
    NOC_SPM_BASE + dw * DW
  }

  /** Converting an aligned address to double words loses nothing. */
  lemma DwRoundTrip(addr: int)
    requires IsDwAligned(addr)
    ensures FromDw(ToDw(addr)) == addr
    ensures ToDw(FromDw(ToDw(addr))) == ToDw(addr)
    ensures NOC_SPM_BASE <= addr < NOC_SPM_BASE + DW * 0x1_0000 <==> 0 <= ToDw(addr) < 0x1_0000
  {
  }
}
