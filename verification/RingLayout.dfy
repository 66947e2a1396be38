/**
 * Geometry shared by the two packet rings: alignment and wrapping of offsets, the tiling of a ring by packets at
 * unwrapped positions, and the physical byte ranges those packets occupy.
 */
module RingLayout {
  import opened Words

  const ALIGNMENT: nat := 4
  const PACKET_HEADER: nat := 4
  const RING_HEADER: nat := 12
  const MAX_IP_PACKET: nat := 0xFFFF
  const RELEASE_BIT: nat := 0x8000_0000
  const MAXULONG: nat := 0xFFFF_FFFF
  const MIN_CAPACITY: nat := 0x2_0000
  const MAX_CAPACITY: nat := 0x400_0000
  const MAX_PACKET: nat := 0x1_0004
  const SLACK: nat := MAX_PACKET - ALIGNMENT

  // ---- Alignment ----

  /** TUN_ALIGN, as the bit operations compute it. */
  function TunAlign(size: nat): nat {
    BitAnd(U32(size + 3), TWO32 - ALIGNMENT)
  }

  /** Bytes of ring space a packet of the given size takes: header and data, rounded up to the alignment. */
  function PacketSpace(size: nat): (r: nat)
    ensures PACKET_HEADER + size <= r < PACKET_HEADER + size + ALIGNMENT
    ensures size <= MAX_IP_PACKET ==> r <= MAX_PACKET
  {
    ALIGNMENT * ((PACKET_HEADER + size + 3) / ALIGNMENT)
  }

  lemma {:induction false} TunAlignRoundsUp(size: nat)
    requires PACKET_HEADER + size + 3 < TWO32
    ensures TunAlign(PACKET_HEADER + size) == PacketSpace(size)
  {
    hide BitAnd, Pow2;
    Pow2Table();
    HighMaskRoundsDown(size + 7, 32, 2);
  }

  // ---- Capacity and wrapping ----

  /** IS_POW2, the driver's test. */
  predicate SingleBit(x: nat) {
    x != 0 && BitAnd(x, x - 1) == 0
  }

  ghost predicate IsPow2(x: nat, k: nat) {
    x == Pow2(k)
  }

  /** Capacities a session may have: a power of two in the range the API documents. */
  ghost predicate ValidCapacity(cap: nat) {
    MIN_CAPACITY <= cap <= MAX_CAPACITY && exists k: nat :: IsPow2(cap, k)
  }

  /** TUN_RING_SIZE */
  function RingSize(cap: nat): nat {
    RING_HEADER + cap + SLACK
  }

  /** TUN_RING_CAPACITY, in 32-bit arithmetic. */
  function RingCapacity(size: nat): nat {
    U32(size - RING_HEADER - SLACK)
  }

  /** The capacity test of TunRegisterBuffers on the ring size a client passes. */
  predicate AcceptsRingSize(size: nat) {
    var cap := RingCapacity(size);
    !(cap < MIN_CAPACITY || cap > MAX_CAPACITY || !SingleBit(cap))
  }

  /** Of all 32-bit ring sizes the driver accepts exactly those of valid capacities, and recovers the capacity. */
  lemma {:induction false} RegistrationAcceptsValidCapacities(size: nat)
    requires size < TWO32
    ensures AcceptsRingSize(size) <==> ValidCapacity(RingCapacity(size)) && size == RingSize(RingCapacity(size))
    ensures forall cap :: ValidCapacity(cap) && size == RingSize(cap) ==> RingCapacity(size) == cap
  {
    hide SingleBit, IsPow2;
    SizeOfCapacity(size);
    if RingCapacity(size) >= MIN_CAPACITY {
      SingleBitExactly(RingCapacity(size));
    }
  }

  lemma {:induction false} SizeOfCapacity(size: nat)
    requires size < TWO32
    ensures RingCapacity(size) <= MAX_CAPACITY ==> size == RingSize(RingCapacity(size))
    ensures forall cap :: ValidCapacity(cap) && size == RingSize(cap) ==> RingCapacity(size) == cap
  {
    hide IsPow2;
  }

  /** The driver's bit test tells exactly whether a capacity is a power of two. */
  lemma {:induction false} SingleBitExactly(cap: nat)
    requires cap > 0
    ensures SingleBit(cap) <==> exists k: nat :: IsPow2(cap, k)
  {
    hide Pow2;
    if SingleBit(cap) {
      var k := SingleBitIsPow2(cap);
      assert IsPow2(cap, k);
    }
    if k: nat :| IsPow2(cap, k) {
      Pow2IsSingleBit(k);
    }
  }

  lemma {:induction false} CapacityFacts(cap: nat)
    requires ValidCapacity(cap)
    ensures cap % 4 == 0 && TWO32 % cap == 0 && cap * (TWO32 / cap) == TWO32
  {
    var k: nat :| IsPow2(cap, k);
    Pow2Table();
    if k <= 16 {
      Pow2Monotone(k, 16);
    } else if k >= 27 {
      Pow2Monotone(27, k);
    } else {
      Pow2Split(2, k - 2);
      Pow2Split(k, 32 - k);
      DivisorFacts(cap, Pow2(k - 2), Pow2(32 - k));
    }
  }

  lemma {:induction false} DivisorFacts(cap: nat, n: nat, m: nat)
    requires cap > 0 && cap == 4 * n && TWO32 == cap * m
    ensures cap % 4 == 0 && TWO32 % cap == 0 && cap * (TWO32 / cap) == TWO32
  {
    ModUnique(TWO32, cap, m, 0);
  }

  /** TUN_RING_WRAP, as the bit operations compute it in unsigned 32-bit arithmetic. */
  function TunRingWrap(value: int, cap: nat): nat
    requires cap > 0
  {
    BitAnd(U32(value), cap - 1)
  }

  /** The offset at which a position lies: what is left of it after whole laps around the ring. */
  function Offset(pos: nat, cap: nat): (at: nat)
    requires cap > 0
    ensures at < cap
  {
    if pos < cap then pos else Offset(pos - cap, cap)
  }

  lemma {:induction false} OffsetIsMod(pos: nat, cap: nat)
    requires cap > 0
    ensures Offset(pos, cap) == pos % cap
    decreases pos
  {
    if pos < cap {
      ModUnique(pos, cap, 0, pos);
    } else {
      OffsetIsMod(pos - cap, cap);
      ModUnique(pos, cap, (pos - cap) / cap + 1, (pos - cap) % cap);
    }
  }

  /** The last position up to pos that lies at the given offset. */
  function LastAt(pos: nat, offset: nat, cap: nat): (last: nat)
    requires cap > 0
    ensures last <= pos
  {
    if pos == 0 || Offset(pos, cap) == offset then pos else LastAt(pos - 1, offset, cap)
  }

  /** No earlier position at the same offset is later, and another lap would pass pos. */
  lemma {:induction false} LastAtIs(pos: nat, earlier: nat, cap: nat)
    requires cap > 0 && earlier <= pos
    ensures var last := LastAt(pos, Offset(earlier, cap), cap);
      earlier <= last <= pos < last + cap && Offset(last, cap) == Offset(earlier, cap)
  {
    LastAtLeast(pos, earlier, cap);
    var last := LastAt(pos, Offset(earlier, cap), cap);
    if last + cap <= pos {
      LastAtLeast(pos, last + cap, cap);
    }
  }

  lemma {:induction false} LastAtLeast(pos: nat, earlier: nat, cap: nat)
    requires cap > 0 && earlier <= pos
    ensures var last := LastAt(pos, Offset(earlier, cap), cap);
      earlier <= last && Offset(last, cap) == Offset(earlier, cap)
    decreases pos
  {
    hide Offset;
    if earlier < pos && Offset(pos, cap) != Offset(earlier, cap) {
      LastAtLeast(pos - 1, earlier, cap);
    }
  }

  /** The offset of an unsigned 32-bit value. */
  function RingWrap(value: int, cap: nat): (r: nat)
    requires cap > 0
    ensures r < cap
  {
    Offset(U32(value), cap)
  }

  lemma {:induction false} TunRingWrapIsOffset(value: int, cap: nat)
    requires ValidCapacity(cap)
    ensures TunRingWrap(value, cap) == RingWrap(value, cap)
  {
    var k: nat :| IsPow2(cap, k);
    LowMaskIsMod(U32(value), k);
    OffsetIsMod(U32(value), cap);
  }

  lemma {:induction false} RingWrapIsMod(value: int, cap: nat)
    requires ValidCapacity(cap)
    ensures RingWrap(value, cap) == value % cap
  {
    OffsetIsMod(U32(value), cap);
    CapacityFacts(cap);
    ModOfMultiple(value, cap, TWO32 / cap);
  }

  lemma {:induction false} ModOfMultiple(v: int, m: nat, n: nat)
    requires m > 0 && n > 0
    ensures m * n > 0
    ensures (v % (m * n)) % m == v % m
  {
    assert m * n >= m;
    var q := v / (m * n);
    var r := v % (m * n);
    assert v == (m * n) * q + r;
    var q' := r / m;
    assert r == m * q' + r % m;
    assert v == m * (n * q + q') + r % m by {
      assert (m * n) * q == m * (n * q);
    }
    ModUnique(v, m, n * q + q', r % m);
  }

  lemma {:induction false} WrapAdd(pos: nat, len: nat, cap: nat)
    requires ValidCapacity(cap)
    ensures RingWrap(Offset(pos, cap) + len, cap) == Offset(pos + len, cap)
  {
    OffsetIsMod(pos, cap);
    OffsetIsMod(pos + len, cap);
    RingWrapIsMod(Offset(pos, cap) + len, cap);
    ModAdd(pos, len, cap);
  }

  lemma {:induction false} ModAdd(a: nat, len: nat, m: nat)
    requires m > 0
    ensures (a % m + len) % m == (a + len) % m
  {
    var x := a % m + len;
    assert a + len == m * (a / m + x / m) + x % m;
    ModUnique(a + len, m, a / m + x / m, x % m);
  }

  /** The distance of two offsets recovers the distance of their positions, as long as that is below the capacity. */
  lemma {:induction false} WrapSub(a: nat, b: nat, cap: nat)
    requires ValidCapacity(cap) && b <= a < b + cap
    ensures RingWrap(Offset(a, cap) - Offset(b, cap), cap) == a - b
    ensures a != b ==> Offset(a, cap) != Offset(b, cap)
  {
    OffsetIsMod(a, cap);
    OffsetIsMod(b, cap);
    RingWrapIsMod(a % cap - b % cap, cap);
    ModDistance(a, b, 0, a - b, cap);
    ModUnique(0, cap, 0, 0);
  }

  /** The free space computed from two offsets, one alignment unit short of the distance to a full lap. */
  lemma {:induction false} WrapSpace(head: nat, tail: nat, cap: nat)
    requires ValidCapacity(cap) && head <= tail <= head + cap - ALIGNMENT
    ensures RingWrap(Offset(head, cap) - Offset(tail, cap) - ALIGNMENT, cap) == head + cap - ALIGNMENT - tail
  {
    var d := head + cap - ALIGNMENT - tail;
    var v := Offset(head, cap) - Offset(tail, cap) - ALIGNMENT;
    assert v % cap == d by {
      OffsetIsMod(head, cap);
      OffsetIsMod(tail, cap);
      ModDistance(head, tail, ALIGNMENT, d, cap);
    }
    RingWrapIsMod(v, cap);
  }

  /** The converse: the space computed from the offsets is what is left exactly if the last such head allows for it. */
  lemma {:induction false} SpaceAllowedExactly(head: nat, given: nat, tail: nat, cap: nat)
    requires ValidCapacity(cap) && head <= given <= tail <= given + cap - ALIGNMENT
    ensures var space := RingWrap(Offset(head, cap) - Offset(tail, cap) - ALIGNMENT, cap);
      space + tail <= given + cap - ALIGNMENT <==> tail <= LastAt(given, Offset(head, cap), cap) + cap - ALIGNMENT
  {
    hide Offset, RingWrap;
    var last := LastAt(given, Offset(head, cap), cap);
    LastAtIs(given, head, cap);
    if tail <= last + cap - ALIGNMENT {
      WrapSpace(last, tail, cap);
    } else {
      WrapSpaceNextLap(last, tail, cap);
    }
  }

  lemma {:induction false} WrapSpaceNextLap(head: nat, tail: nat, cap: nat)
    requires ValidCapacity(cap) && head + cap - ALIGNMENT < tail <= head + 2 * cap - ALIGNMENT
    ensures RingWrap(Offset(head, cap) - Offset(tail, cap) - ALIGNMENT, cap) == head + 2 * cap - ALIGNMENT - tail
  {
    hide RingWrap;
    var later := head + 2 * cap;
    assert Offset(later, cap) == Offset(later - cap, cap) == Offset(head, cap);
    OffsetIsMod(later, cap);
    OffsetIsMod(tail, cap);
    ModDistance(later, tail, ALIGNMENT, later - ALIGNMENT - tail, cap);
    RingWrapIsMod(Offset(head, cap) - Offset(tail, cap) - ALIGNMENT, cap);
  }

  lemma {:induction false} ModDistance(a: nat, b: nat, k: nat, d: nat, m: nat)
    requires d < m && (d == a - b - k || d == a - b - k + m)
    ensures (a % m - b % m - k) % m == d
  {
    var p, q := a / m, b / m;
    assert a == m * p + a % m && b == m * q + b % m;
    if d == a - b - k {
      assert a % m - b % m - k == m * (q - p) + d;
      ModUnique(a % m - b % m - k, m, q - p, d);
    } else {
      assert a % m - b % m - k == m * (q - p - 1) + d;
      ModUnique(a % m - b % m - k, m, q - p - 1, d);
    }
  }

  // ---- The release bit of a size word ----

  function SetRelease(word: nat): (w: nat)
    requires word < TWO32
    ensures w < TWO32
  {
    if word < RELEASE_BIT then word + RELEASE_BIT else word
  }

  function ClearRelease(word: nat): (w: nat)
    requires word < TWO32
    ensures w < RELEASE_BIT
  {
    if word < RELEASE_BIT then word else word - RELEASE_BIT
  }

  // ---- Packets in the ring ----

  /**
   * A packet reserved in the ring, at an unwrapped position: what its data bytes are, whether header and data have
   * been written to memory, and whether the release bit of its size word is set.
   */
  datatype Slot = Slot(pos: nat, data: seq<byte>, written: bool, marked: bool) {
    ghost predicate Valid() {
      |data| <= MAX_IP_PACKET
    }

    function Space(): (r: nat)
      ensures PACKET_HEADER + |data| <= r
      ensures |data| <= MAX_IP_PACKET ==> r <= MAX_PACKET
    {
      PacketSpace(|data|)
    }

    function End(): nat {
      pos + Space()
    }

    function SizeWord(): nat {
      |data| + if marked then RELEASE_BIT else 0
    }
  }

  /** Position of the i-th slot, or of the first free byte for i == |log|. */
  function Pos(log: seq<Slot>, i: nat): nat
    requires i <= |log|
  {
    if i < |log| then log[i].pos else if log == [] then 0 else log[|log| - 1].End()
  }

  ghost predicate Adjacent(log: seq<Slot>, i: nat)
    requires i < |log|
  {
    Pos(log, i + 1) == log[i].End()
  }

  /** The slots tile the positions from 0 on without gaps, in order. */
  ghost predicate Tiled(log: seq<Slot>) {
    && (forall i :: 0 <= i < |log| ==> log[i].Valid())
    && (forall i, j :: 0 <= i < j < |log| ==> log[i].End() <= log[j].pos)
    && (forall i {:trigger Adjacent(log, i)} :: 0 <= i < |log| ==> Adjacent(log, i))
    && (log != [] ==> log[0].pos == 0)
  }

  lemma {:induction false} PosMonotone(log: seq<Slot>, i: nat, j: nat)
    requires Tiled(log) && i <= j <= |log|
    ensures i == j ==> Pos(log, i) == Pos(log, j)
    ensures i < j ==> Pos(log, i) + PACKET_HEADER <= log[i].End() <= Pos(log, j)
  {
    hide PacketSpace;
  }

  lemma {:induction false} PosOfSlot(log: seq<Slot>, i: nat)
    requires i < |log|
    ensures Pos(log, i) == log[i].pos
  {
  }

  lemma {:induction false} PosAligned(log: seq<Slot>, i: nat)
    requires Tiled(log) && i <= |log|
    ensures Pos(log, i) % 4 == 0
    decreases i
  {
    if i > 0 {
      PosAligned(log, i - 1);
      assert Adjacent(log, i - 1);
    }
  }

  lemma {:induction false} TiledAppend(log: seq<Slot>, slot: Slot)
    requires Tiled(log) && slot.Valid() && slot.pos == Pos(log, |log|)
    ensures Tiled(log + [slot])
    ensures Pos(log + [slot], |log| + 1) == slot.End()
    ensures forall i {:trigger Pos(log + [slot], i)} :: 0 <= i <= |log| ==> Pos(log + [slot], i) == Pos(log, i)
  {
    var log' := log + [slot];
    forall i | 0 <= i < |log'| ensures Adjacent(log', i) {
      if i < |log| {
        assert Adjacent(log, i);
      }
    }
    forall i, j | 0 <= i < j < |log'| ensures log'[i].End() <= log'[j].pos {
      if j == |log| {
        PosMonotone(log, i, |log|);
      }
    }
  }

  /** The same positions, with other contents of the same sizes. */
  ghost predicate SameShape(log: seq<Slot>, log': seq<Slot>) {
    |log| == |log'| && forall i :: 0 <= i < |log| ==> log'[i].pos == log[i].pos && |log'[i].data| == |log[i].data|
  }

  lemma {:induction false} TiledSameShape(log: seq<Slot>, log': seq<Slot>)
    requires Tiled(log) && SameShape(log, log')
    ensures Tiled(log')
    ensures forall i {:trigger Pos(log', i)} :: 0 <= i <= |log| ==> Pos(log', i) == Pos(log, i)
  {
    forall i | 0 <= i < |log'| ensures Adjacent(log', i) {
      assert Adjacent(log, i);
    }
    forall i | 0 <= i < |log'| ensures log'[i].Valid() {
      assert log[i].Valid();
    }
    forall i, j | 0 <= i < j < |log'| ensures log'[i].End() <= log'[j].pos {
      assert log[i].End() <= log[j].pos;
    }
  }

  // ---- Physical ranges ----

  /** Every packet fits the allocated data area, the packet that runs past the capacity included. */
  lemma {:induction false} RangeFits(pos: nat, cap: nat)
    requires ValidCapacity(cap) && pos % 4 == 0
    ensures Offset(pos, cap) + MAX_PACKET <= cap + SLACK
    ensures Offset(pos, cap) % 4 == 0
  {
    CapacityFacts(cap);
    OffsetAligned(pos, cap);
  }

  lemma {:induction false} OffsetAligned(pos: nat, cap: nat)
    requires cap > 0 && cap % 4 == 0 && pos % 4 == 0
    ensures Offset(pos, cap) % 4 == 0
    decreases pos
  {
    if pos >= cap {
      OffsetAligned(pos - cap, cap);
    }
  }

  /** Ranges that are disjoint before wrapping and span less than one lap stay disjoint in memory. */
  lemma {:induction false} RangesDisjoint(a: nat, aLen: nat, b: nat, bLen: nat, cap: nat)
    requires cap > 0 && a + aLen <= b && b + bLen <= a + cap
    ensures Offset(a, cap) + aLen <= Offset(b, cap) || Offset(b, cap) + bLen <= Offset(a, cap)
    decreases a
  {
    if a >= cap {
      RangesDisjoint(a - cap, aLen, b - cap, bLen, cap);
    }
  }

  /** The bytes of a written slot are in memory. */
  ghost predicate Holds(mem: seq<byte>, cap: nat, slot: Slot)
    requires cap > 0
  {
    var at := Offset(slot.pos, cap);
    && at + PACKET_HEADER + |slot.data| <= |mem|
    && Read32(mem, at) == slot.SizeWord()
    && mem[at + PACKET_HEADER..at + PACKET_HEADER + |slot.data|] == slot.data
  }

  /** A write confined to one packet's range leaves any other packet of the same lap window as it is. */
  lemma {:induction false} HoldsFrame(mem: seq<byte>, at: nat, bytes: seq<byte>, cap: nat, slot: Slot, pos: nat,
      len: nat)
    requires ValidCapacity(cap) && |mem| == cap + SLACK
    requires slot.Valid() && Holds(mem, cap, slot)
    requires Offset(pos, cap) <= at && at + |bytes| <= Offset(pos, cap) + len && at + |bytes| <= |mem|
    requires (pos + len <= slot.pos && slot.End() <= pos + cap) || (slot.End() <= pos && pos + len <= slot.pos + cap)
    ensures Holds(Splice(mem, at, bytes), cap, slot)
  {
    hide Offset;
    if pos + len <= slot.pos {
      RangesDisjoint(pos, len, slot.pos, slot.Space(), cap);
    } else {
      RangesDisjoint(slot.pos, slot.Space(), pos, len, cap);
    }
    var o := Offset(slot.pos, cap);
    var m := Splice(mem, at, bytes);
    SpliceFrame(mem, at, bytes, o, o + PACKET_HEADER + |slot.data|);
    SameSub(mem, m, o, o + PACKET_HEADER + |slot.data|, o, o + 4);
    SameRead32(mem, m, o);
    SameSub(mem, m, o, o + PACKET_HEADER + |slot.data|, o + 4, o + PACKET_HEADER + |slot.data|);
  }

  /** Writing a size word keeps the data after it. */
  lemma {:induction false} HoldsSizeWord(mem: seq<byte>, cap: nat, slot: Slot, marked: bool)
    requires cap > 0 && slot.Valid() && Holds(mem, cap, slot)
    ensures Holds(Write32(mem, Offset(slot.pos, cap), slot.(marked := marked).SizeWord()), cap, slot.(marked := marked))
  {
    var o := Offset(slot.pos, cap);
    var w := slot.(marked := marked).SizeWord();
    ReadBack32(mem, o, w);
    SpliceFrame(mem, o, LittleEndian32(w), o + 4, o + PACKET_HEADER + |slot.data|);
  }

  lemma {:induction false} HoldsData(mem: seq<byte>, cap: nat, slot: Slot, bytes: seq<byte>)
    requires cap > 0 && slot.Valid()
    requires Offset(slot.pos, cap) + PACKET_HEADER + |slot.data| <= |mem|
    requires Read32(mem, Offset(slot.pos, cap)) == slot.SizeWord() && |bytes| == |slot.data|
    ensures Holds(Splice(mem, Offset(slot.pos, cap) + PACKET_HEADER, bytes), cap, slot.(data := bytes))
  {
    var o := Offset(slot.pos, cap);
    var m := Splice(mem, o + 4, bytes);
    SpliceFrame(mem, o + 4, bytes, o, o + 4);
    SameRead32(mem, m, o);
    assert m[o + 4..o + 4 + |bytes|] == bytes;
  }

  /** The slots from first on span less than a lap. */
  ghost predicate Window(log: seq<Slot>, first: nat, cap: nat) {
    first <= |log| && Pos(log, |log|) <= Pos(log, first) + cap - ALIGNMENT
  }

  lemma {:induction false} SlotsApart(log: seq<Slot>, first: nat, cap: nat, i: nat, j: nat)
    requires Tiled(log) && Window(log, first, cap) && first <= i < |log| && first <= j < |log| && i < j
    ensures log[i].End() <= log[j].pos && log[j].End() <= log[i].pos + cap
  {
    PosMonotone(log, j, |log|);
    PosMonotone(log, first, i);
  }

  /** A write within the range of slot j leaves every other live slot in memory. */
  lemma {:induction false} WriteInSlot(mem: seq<byte>, at: nat, bytes: seq<byte>, cap: nat, log: seq<Slot>,
      first: nat, j: nat)
    requires ValidCapacity(cap) && |mem| == cap + SLACK
    requires Tiled(log) && Window(log, first, cap) && first <= j < |log|
    requires Offset(log[j].pos, cap) <= at && at + |bytes| <= Offset(log[j].pos, cap) + log[j].Space()
    requires at + |bytes| <= |mem|
    ensures forall i :: first <= i < |log| && i != j && Holds(mem, cap, log[i]) ==>
                          Holds(Splice(mem, at, bytes), cap, log[i])
  {
    forall i | first <= i < |log| && i != j && Holds(mem, cap, log[i])
      ensures Holds(Splice(mem, at, bytes), cap, log[i])
    {
      if i < j {
        SlotsApart(log, first, cap, i, j);
      } else {
        SlotsApart(log, first, cap, j, i);
      }
      HoldsFrame(mem, at, bytes, cap, log[i], log[j].pos, log[j].Space());
    }
  }

  /** A live slot's packet lies inside the allocated data area. */
  lemma {:induction false} SlotFits(log: seq<Slot>, j: nat, cap: nat)
    requires ValidCapacity(cap) && Tiled(log) && j < |log|
    ensures Offset(log[j].pos, cap) + log[j].Space() <= cap + SLACK && log[j].Valid()
    ensures PACKET_HEADER + |log[j].data| <= log[j].Space() <= MAX_PACKET
  {
    assert log[j].Valid();
    PosAligned(log, j);
    RangeFits(log[j].pos, cap);
  }

  lemma {:induction false} PosSameShape(log: seq<Slot>, log': seq<Slot>)
    requires SameShape(log, log')
    ensures forall i {:trigger Pos(log', i)} {:trigger Pos(log, i)} :: 0 <= i <= |log| ==> Pos(log', i) == Pos(log, i)
  {
  }
}
