/** The driver's side of the rings as its entry points run it: TunSendNetBufferLists and TunReturnNetBufferLists. */
module Driver {
  import opened Words
  import opened RingLayout
  import opened SharedRing
  import opened SendRing

  // ---- Measuring and copying a chain of net buffer lists ----

  function Flatten(nbls: seq<seq<NetBuffer>>): seq<NetBuffer> {
    if nbls == [] then [] else nbls[0] + Flatten(nbls[1..])
  }

  lemma {:induction false} FlattenAppend(nbls: seq<seq<NetBuffer>>, nbl: seq<NetBuffer>)
    ensures Flatten(nbls + [nbl]) == Flatten(nbls) + nbl
    decreases |nbls|
  {
    if nbls == [] {
      assert nbls + [nbl] == [nbl];
      assert Flatten([nbl]) == nbl + Flatten([]);
    } else {
      assert (nbls + [nbl])[1..] == nbls[1..] + [nbl];
      FlattenAppend(nbls[1..], nbl);
    }
  }

  lemma {:induction false} SpaceAppend(nbs: seq<NetBuffer>, nb: NetBuffer)
    ensures Space(nbs + [nb]) == Space(nbs) + if nb.Oversize() then 0 else PacketSpace(nb.length)
    decreases |nbs|
  {
    hide PacketSpace;
    if nbs == [] {
      assert nbs + [nb] == [nb];
      assert Space([nb]) == (if nb.Oversize() then 0 else PacketSpace(nb.length)) + Space([]);
    } else {
      assert (nbs + [nb])[1..] == nbs[1..] + [nb];
      SpaceAppend(nbs[1..], nb);
    }
  }

  /** The first loop of TunSendNetBufferLists; the space is summed in unsigned 32-bit arithmetic. */
  method Measure(nbls: seq<seq<NetBuffer>>) returns (packetsCount: nat, requiredRingSpace: nat)
    ensures packetsCount == |Flatten(nbls)|
    ensures requiredRingSpace == U32(Space(Flatten(nbls)))
  {
    hide PacketSpace, BitAnd, TunAlign;
    packetsCount, requiredRingSpace := 0, 0;
    ghost var seen: seq<NetBuffer> := [];
    for i := 0 to |nbls|
      invariant seen == Flatten(nbls[..i])
      invariant packetsCount == |seen| && requiredRingSpace == U32(Space(seen))
    {
      assert nbls[..i + 1] == nbls[..i] + [nbls[i]];
      FlattenAppend(nbls[..i], nbls[i]);
      for j := 0 to |nbls[i]|
        invariant seen == Flatten(nbls[..i]) + nbls[i][..j]
        invariant packetsCount == |seen| && requiredRingSpace == U32(Space(seen))
      {
        var nb := nbls[i][j];
        SpaceAppend(seen, nb);
        seen := seen + [nb];
        packetsCount := packetsCount + 1;
        if nb.length > MAX_IP_PACKET {
          continue;
        }
        TunAlignRoundsUp(nb.length);
        requiredRingSpace := U32(requiredRingSpace + TunAlign(PACKET_HEADER + nb.length));
      }
    }
    assert nbls[..|nbls|] == nbls;
  }

  datatype Stats = Stats(sent: nat, sentSize: nat, errors: nat, discarded: nat)

  /** The counters after counting one buffer of the copy loop. */
  function Count(st: Stats, nb: NetBuffer): Stats {
    if nb.Oversize() then st.(errors := st.errors + 1)
    else if nb.bytes.None? then st.(discarded := st.discarded + 1)
    else st.(sent := st.sent + 1, sentSize := st.sentSize + nb.length)
  }

  datatype Copied = Copied(mem: seq<byte>, cursor: nat, stats: Stats)

  ghost predicate CursorOk(mem: seq<byte>, cursor: nat, cap: nat) {
    ValidCapacity(cap) && |mem| == cap + SLACK && cursor < cap && cursor % 4 == 0
  }

  function CopyOne(from: Copied, nb: NetBuffer, cap: nat): (c: Copied)
    requires CursorOk(from.mem, from.cursor, cap) && nb.WellFormed()
    ensures CursorOk(c.mem, c.cursor, cap)
  {
    CursorStaysOk(from.cursor, nb.length, cap);
    if nb.Oversize() then from.(stats := Count(from.stats, nb))
    else Copied(CopyPacket(from.mem, from.cursor, nb), RingWrap(from.cursor + PacketSpace(nb.length), cap),
        Count(from.stats, nb))
  }

  lemma {:induction false} CursorStaysOk(cursor: nat, length: nat, cap: nat)
    requires ValidCapacity(cap) && cursor < cap && cursor % 4 == 0
    ensures cursor + MAX_PACKET <= cap + SLACK
    ensures RingWrap(cursor + PacketSpace(length), cap) % 4 == 0
  {
    hide ValidCapacity, Offset, PacketSpace;
    assert cap % 4 == 0 by { CapacityFacts(cap); }
    SumAligned(cursor, length);
    OffsetAligned(U32(cursor + PacketSpace(length)), cap);
  }

  lemma {:induction false} SumAligned(cursor: nat, length: nat)
    requires cursor % 4 == 0
    ensures U32(cursor + PacketSpace(length)) % 4 == 0
  {
  }

  /** What the copy loop does to memory, cursor and counters. */
  function CopyAll(from: Copied, nbs: seq<NetBuffer>, cap: nat): (c: Copied)
    requires CursorOk(from.mem, from.cursor, cap) && WellFormed(nbs)
    ensures CursorOk(c.mem, c.cursor, cap)
    decreases |nbs|
  {
    if nbs == [] then from else CopyOne(CopyAll(from, nbs[..|nbs| - 1], cap), nbs[|nbs| - 1], cap)
  }

  /**
   * Measuring and copying agree, on any mix of oversize and other buffers and even if the measured sum overflows: the
   * cursor ends where the reservation of the measured space ends, which is what the source asserts.
   */
  lemma {:induction false} MeasureAndCopyAgree(from: Copied, nbs: seq<NetBuffer>, cap: nat)
    requires CursorOk(from.mem, from.cursor, cap) && WellFormed(nbs)
    ensures CopyAll(from, nbs, cap).cursor == RingWrap(from.cursor + U32(Space(nbs)), cap)
    decreases |nbs|
  {
    hide Offset, PacketSpace, CopyPacket, ValidCapacity;
    if nbs == [] {
      ReservationEnd(from.cursor, 0, 0, cap);
    } else {
      var front, nb := nbs[..|nbs| - 1], nbs[|nbs| - 1];
      assert nbs == front + [nb];
      MeasureAndCopyAgree(from, front, cap);
      SpaceAppend(front, nb);
      ReservationEnd(from.cursor, Space(front), if nb.Oversize() then 0 else PacketSpace(nb.length), cap);
    }
  }

  lemma {:induction false} ReservationEnd(cursor: nat, space: nat, more: nat, cap: nat)
    requires ValidCapacity(cap) && cursor < cap
    ensures RingWrap(RingWrap(cursor + U32(space), cap) + more, cap) == RingWrap(cursor + U32(space + more), cap)
    ensures RingWrap(cursor, cap) == cursor
  {
    hide ValidCapacity, RingWrap, Offset, U32;
    RingWrapIsMod(cursor + U32(space), cap);
    RingWrapIsMod(RingWrap(cursor + U32(space), cap) + more, cap);
    RingWrapIsMod(cursor + U32(space + more), cap);
    RingWrapIsMod(cursor, cap);
    ModUnique(cursor, cap, 0, cursor);
    ModAdd(cursor + U32(space), more, cap);
    CapacityFacts(cap);
    U32Residue(cursor, space, more, cap, TWO32 / cap);
  }

  lemma {:induction false} U32Residue(cursor: nat, space: nat, more: nat, cap: nat, laps: nat)
    requires cap > 0 && cap * laps == TWO32
    ensures (cursor + U32(space) + more) % cap == (cursor + U32(space + more)) % cap
  {
    var a, b := space / TWO32, (space + more) / TWO32;
    var v, w := cursor + U32(space) + more, cursor + U32(space + more);
    assert v == w + TWO32 * (b - a);
    assert TWO32 * (b - a) == cap * (laps * (b - a)) by { assert (cap * laps) * (b - a) == cap * (laps * (b - a)); }
    assert v == cap * (w / cap + laps * (b - a)) + w % cap;
    ModUnique(v, cap, w / cap + laps * (b - a), w % cap);
  }

  /** Every buffer is counted exactly once. */
  lemma {:induction false} EveryBufferCounted(from: Copied, nbs: seq<NetBuffer>, cap: nat)
    requires CursorOk(from.mem, from.cursor, cap) && WellFormed(nbs)
    ensures var st := CopyAll(from, nbs, cap).stats;
      st.sent + st.errors + st.discarded == from.stats.sent + from.stats.errors + from.stats.discarded + |nbs|
    decreases |nbs|
  {
    hide Offset, PacketSpace, CopyPacket, ValidCapacity;
    if nbs != [] {
      EveryBufferCounted(from, nbs[..|nbs| - 1], cap);
    }
  }

  /**
   * m' is m with a packet for the buffer at the cursor: its size, and its bytes if they could be mapped, zeroes if not.
   * Nothing else changes.
   */
  ghost predicate PacketWritten(m: seq<byte>, m': seq<byte>, cursor: nat, nb: NetBuffer) {
    var at := cursor + PACKET_HEADER;
    && |m'| == |m| && at + nb.length <= |m|
    && Read32(m', cursor) == nb.length
    && (nb.bytes.Some? ==> m'[at..at + nb.length] == nb.bytes.value)
    && (nb.bytes.None? ==> forall i :: at <= i < at + nb.length ==> m'[i] == 0)
    && m'[..cursor] == m[..cursor] && m'[at + nb.length..] == m[at + nb.length..]
  }

  lemma {:induction false} CopyPacketWrites(m: seq<byte>, cursor: nat, nb: NetBuffer)
    requires nb.WellFormed() && nb.length <= MAX_IP_PACKET && cursor + PACKET_HEADER + nb.length <= |m|
    ensures PacketWritten(m, CopyPacket(m, cursor, nb), cursor, nb)
  {
    hide Read32, LittleEndian32;
    var at, m0 := cursor + PACKET_HEADER, Write32(m, cursor, nb.length);
    ReadBack32(m, cursor, nb.length);
    var bytes := nb.Content();
    SpliceFrame(m0, at, bytes, cursor, at);
    var m' := Splice(m0, at, bytes);
    SameRead32(m0, m', cursor);
    assert m'[at..at + nb.length] == bytes;
    if nb.bytes.None? {
      assert forall i :: at <= i < at + nb.length ==> m'[i] == bytes[i - at];
    }
  }

  lemma {:induction false} CopyPacketIs(m: seq<byte>, cursor: nat, nb: NetBuffer)
    requires nb.WellFormed() && nb.length <= MAX_IP_PACKET && cursor + PACKET_HEADER + nb.length <= |m|
    ensures CopyPacket(m, cursor, nb) == Splice(Write32(m, cursor, nb.length), cursor + PACKET_HEADER, nb.Content())
  {
  }

  // ---- What is counted, and the statuses ----

  predicate TooLong(nb: NetBuffer) {
    nb.length > 0xFFFF
  }

  predicate Unmapped(nb: NetBuffer) {
    nb.length <= 0xFFFF && nb.bytes.None?
  }

  predicate Sendable(nb: NetBuffer) {
    nb.length <= 0xFFFF && nb.bytes.Some?
  }

  function Where(nbs: seq<NetBuffer>, p: NetBuffer -> bool): set<nat> {
    set i | 0 <= i < |nbs| && p(nbs[i])
  }

  lemma {:induction false} WhereAppend(nbs: seq<NetBuffer>, nb: NetBuffer, p: NetBuffer -> bool)
    ensures |Where(nbs + [nb], p)| == |Where(nbs, p)| + if p(nb) then 1 else 0
  {
    assert Where(nbs + [nb], p) == Where(nbs, p) + if p(nb) then {|nbs|} else {};
  }

  function TotalSize(nbs: seq<NetBuffer>): nat {
    if nbs == [] then 0 else (if Sendable(nbs[0]) then nbs[0].length else 0) + TotalSize(nbs[1..])
  }

  lemma {:induction false} TotalAppend(nbs: seq<NetBuffer>, nb: NetBuffer)
    ensures TotalSize(nbs + [nb]) == TotalSize(nbs) + if Sendable(nb) then nb.length else 0
    decreases |nbs|
  {
    if nbs == [] {
      assert TotalSize([nb]) == (if Sendable(nb) then nb.length else 0) + TotalSize([]);
      assert nbs + [nb] == [nb];
    } else {
      assert (nbs + [nb])[1..] == nbs[1..] + [nb];
      TotalAppend(nbs[1..], nb);
    }
  }

  /** Of the buffers, those of a valid length are sent or, if unmapped, discarded; the others are errors. */
  lemma {:induction false} CountersAreExact(from: Copied, nbs: seq<NetBuffer>, cap: nat)
    requires CursorOk(from.mem, from.cursor, cap) && WellFormed(nbs)
    ensures var st := CopyAll(from, nbs, cap).stats;
      && st.sent == from.stats.sent + |Where(nbs, Sendable)|
      && st.sentSize == from.stats.sentSize + TotalSize(nbs)
      && st.errors == from.stats.errors + |Where(nbs, TooLong)|
      && st.discarded == from.stats.discarded + |Where(nbs, Unmapped)|
    decreases |nbs|
  {
    hide Offset, PacketSpace, CopyPacket, ValidCapacity, Where, TotalSize;
    if nbs == [] {
      NothingWhere();
    } else {
      var front, nb := nbs[..|nbs| - 1], nbs[|nbs| - 1];
      assert nbs == front + [nb];
      CountersAreExact(from, front, cap);
      WhereAppend(front, nb, Sendable);
      WhereAppend(front, nb, TooLong);
      WhereAppend(front, nb, Unmapped);
      TotalAppend(front, nb);
    }
  }

  lemma {:induction false} NothingWhere()
    ensures forall p: NetBuffer -> bool :: Where([], p) == {}
    ensures TotalSize([]) == 0
  {
  }

  // ---- The limit of the 32-bit measure ----

  /** The space test, made on the measured sum, admits a chain only where its packets fit. */
  ghost predicate AdmitsOnlyWhatFits(nbs: seq<NetBuffer>) {
    forall head: nat, ringTail: nat, cap: nat | ValidCapacity(cap) ::
      RingSpace(head, ringTail, cap) >= U32(Space(nbs)) ==> RingSpace(head, ringTail, cap) >= Space(nbs)
  }

  /**
   * The space test is sound for a chain, at any fill of any ring, exactly when its packets take less than 2^32 bytes or
   * the overflowed sum is at least the largest capacity.
   */
  lemma {:induction false} SpaceTestIsSoundExactly(nbs: seq<NetBuffer>)
    ensures AdmitsOnlyWhatFits(nbs) <==> Space(nbs) < TWO32 || U32(Space(nbs)) >= MAX_CAPACITY
  {
    hide Space, Offset;
    if Space(nbs) >= TWO32 && U32(Space(nbs)) < MAX_CAPACITY {
      LargestRing();
      SpaceIsAligned(nbs);
      assert RingSpace(0, 0, MAX_CAPACITY) >= U32(Space(nbs));
      assert RingSpace(0, 0, MAX_CAPACITY) < MAX_CAPACITY;
    }
  }

  lemma {:induction false} LargestRing()
    ensures ValidCapacity(MAX_CAPACITY) && RingSpace(0, 0, MAX_CAPACITY) == MAX_CAPACITY - ALIGNMENT
  {
    hide Offset;
    Pow2Table();
    assert IsPow2(MAX_CAPACITY, 26) by {
      assert Pow2(27) == 2 * Pow2(26);
    }
    WrapSpace(0, 0, MAX_CAPACITY);
    OffsetIsMod(0, MAX_CAPACITY);
  }

  lemma {:induction false} SpaceIsAligned(nbs: seq<NetBuffer>)
    ensures Space(nbs) % ALIGNMENT == 0
    decreases |nbs|
  {
    if nbs != [] {
      SpaceIsAligned(nbs[1..]);
    }
  }

  lemma {:induction false} SpaceOfCopies(nb: NetBuffer, n: nat)
    requires !nb.Oversize()
    ensures Space(seq(n, _ => nb)) == n * PacketSpace(nb.length)
    decreases n
  {
    hide PacketSpace;
    if n > 0 {
      var nbs := seq(n, _ => nb);
      assert nbs[1..] == seq(n - 1, _ => nb);
      SpaceOfCopies(nb, n - 1);
    }
  }

  /** 65536 packets of 65532 bytes measure as no space at all, so the space test admits them to a ring of any fill. */
  lemma {:induction false} OverflowingMeasureIsAdmitted(head: nat, ringTail: nat,
      cap: nat) returns (nbs: seq<NetBuffer>)
    requires ValidCapacity(cap)
    ensures WellFormed(nbs) && Space(nbs) == TWO32 > RingSize(cap)
    ensures RingSpace(head, ringTail, cap) >= U32(Space(nbs))
  {
    var nb := NetBuffer(0xFFFC, None);
    nbs := seq(0x1_0000, _ => nb);
    SpaceOfCopies(nb, 0x1_0000);
  }

  // ---- TunSendNetBufferLists ----

  datatype Status = Unset | Failure | InvalidLength | Paused | MediaDisconnected | AdapterNotReady | BufferOverflow

  /** The status a net buffer list is left with: that of its last buffer that could not be sent. */
  function ListStatus(nbs: seq<NetBuffer>): Status {
    if nbs == [] then Unset
    else
      var nb := nbs[|nbs| - 1];
      if nb.Oversize() then InvalidLength
      else if nb.bytes.None? then Failure
      else ListStatus(nbs[..|nbs| - 1])
  }

  /**
   * A list keeps its status exactly if every buffer of it could be sent; otherwise the last one that could not decides,
   * by whether it is too long.
   */
  lemma {:induction false} ListStatusExactly(nbs: seq<NetBuffer>)
    ensures ListStatus(nbs) == Unset <==> forall i :: 0 <= i < |nbs| ==> Sendable(nbs[i])
    ensures forall i :: LastUnsent(nbs, i) ==> ListStatus(nbs) == if TooLong(nbs[i]) then InvalidLength else Failure
    decreases |nbs|
  {
    if nbs != [] {
      var front, nb := nbs[..|nbs| - 1], nbs[|nbs| - 1];
      ListStatusExactly(front);
      assert forall i :: 0 <= i < |front| ==> front[i] == nbs[i];
      forall i | LastUnsent(nbs, i)
        ensures ListStatus(nbs) == if TooLong(nbs[i]) then InvalidLength else Failure
      {
        assert Sendable(nb) ==> LastUnsent(front, i);
      }
      assert (forall i :: 0 <= i < |nbs| ==> Sendable(nbs[i]))
        <==> Sendable(nb) && forall i :: 0 <= i < |front| ==> Sendable(front[i]);
    }
  }

  predicate LastUnsent(nbs: seq<NetBuffer>, i: int) {
    0 <= i < |nbs| && !Sendable(nbs[i]) && forall j :: i < j < |nbs| ==> Sendable(nbs[j])
  }

  /** A chain on the active list: the ring offset behind it, and whether its copying is done. */
  datatype Entry = Entry(end: nat, completed: bool)

  /** Publishing pops the completed chains at the front, moving the tail behind each. */
  function PublishFront(active: seq<Entry>, tail: nat): (seq<Entry>, nat) {
    if active != [] && active[0].completed then PublishFront(active[1..], active[0].end) else (active, tail)
  }

  /** Why a chain is turned away, or Unset if it is admitted. */
  function Admission(running: bool, disconnected: bool, head: nat, ringTail: nat, cap: nat, required: nat): Status
    requires ValidCapacity(cap)
  {
    if !running then Paused
    else if disconnected then MediaDisconnected
    else if head >= cap then AdapterNotReady
    else if RingSpace(head, ringTail, cap) < required then BufferOverflow
    else Unset
  }

  /**
   * A chain is admitted if and only if the miniport runs, is connected to a ring that has not been invalidated, and the
   * space it measures is no more than what is left of a lap, less an alignment unit, between the positions h and t that
   * the ring's head and the reserved tail stand for. Otherwise the first of these that fails is the reason.
   */
  lemma {:induction false} AdmissionExactly(
    running: bool, disconnected: bool, head: nat, ringTail: nat, cap: nat, required: nat, h: nat, t: nat)
    requires ValidCapacity(cap) && h <= t <= h + cap - ALIGNMENT && ringTail == Offset(t, cap)
    requires head < cap ==> head == Offset(h, cap)
    ensures var reason := Admission(running, disconnected, head, ringTail, cap, required);
      var free := h + cap - ALIGNMENT - t;
      && (reason == Unset <==> running && !disconnected && head < cap && required <= free)
      && (reason == Paused <==> !running)
      && (reason == MediaDisconnected <==> running && disconnected)
      && (reason == AdapterNotReady <==> running && !disconnected && head >= cap)
      && (reason == BufferOverflow <==> running && !disconnected && head < cap && required > free)
  {
    hide Offset;
    if head < cap {
      WrapSpace(h, t, cap);
    }
  }

  class TunSendDevice {
    const capacity: nat
    const ring: TunRing
    var running: bool
    var disconnected: bool
    var ringTail: nat
    var active: seq<Entry>
    var tailMoved: bool
    var statistics: Stats

    ghost predicate Valid()
      reads this, ring.data
    {
      CursorOk(ring.data[..], ringTail, capacity)
    }

    constructor (ring: TunRing, capacity: nat)
      requires ValidCapacity(capacity) && ring.data.Length == capacity + SLACK && ring.tail < capacity
      requires ring.tail % 4 == 0
      ensures Valid() && this.ring == ring && this.capacity == capacity
      ensures ringTail == ring.tail && active == [] && disconnected == false
    {
      this.ring, this.capacity := ring, capacity;
      running, disconnected, tailMoved := true, false, false;
      ringTail, active := ring.tail, [];
      statistics := Stats(0, 0, 0, 0);
    }

    /** The second loop of TunSendNetBufferLists. */
    method CopyPackets(nbls: seq<seq<NetBuffer>>, start: nat) returns (end: nat, counted: Stats, statuses: seq<Status>)
      requires CursorOk(ring.data[..], start, capacity) && WellFormed(Flatten(nbls))
      modifies ring.data
      ensures Copied(ring.data[..], end, counted)
        == CopyAll(Copied(old(ring.data[..]), start, Stats(0, 0, 0, 0)), Flatten(nbls), capacity)
      ensures |statuses| == |nbls| && forall i :: 0 <= i < |nbls| ==> statuses[i] == ListStatus(nbls[i])
    {
      hide Offset, PacketSpace, CursorOk, CopyAll, ListStatus;
      end, counted, statuses := start, Stats(0, 0, 0, 0), [];
      ghost var from := Copied(ring.data[..], start, counted);
      CopyNothing(from, capacity);
      for i := 0 to |nbls|
        invariant |statuses| == i && forall k :: 0 <= k < i ==> statuses[k] == ListStatus(nbls[k])
        invariant WellFormed(Flatten(nbls[..i]))
        invariant Copied(ring.data[..], end, counted) == CopyAll(from, Flatten(nbls[..i]), capacity)
      {
        assert nbls[..i + 1] == nbls[..i] + [nbls[i]];
        FlattenAppend(nbls[..i], nbls[i]);
        FlattenPrefix(nbls, i);
        var status;
        end, counted, status := CopyList(nbls[i], end, counted, from, Flatten(nbls[..i]));
        statuses := statuses + [status];
      }
      assert nbls[..|nbls|] == nbls;
    }

    /** The buffers of one net buffer list; from and done say where the whole copying started and how far it is. */
    method CopyList(nbs: seq<NetBuffer>, start: nat, st: Stats, ghost from: Copied, ghost done: seq<NetBuffer>)
      returns (end: nat, counted: Stats, status: Status)
      requires CursorOk(from.mem, from.cursor, capacity) && WellFormed(done + nbs) && WellFormed(done)
      requires Copied(ring.data[..], start, st) == CopyAll(from, done, capacity)
      modifies ring.data
      ensures Copied(ring.data[..], end, counted) == CopyAll(from, done + nbs, capacity)
      ensures status == ListStatus(nbs)
    {
      hide Offset, PacketSpace, ValidCapacity, CopyOne, CopyAll, CursorOk;
      end, counted, status := start, st, Unset;
      assert done + nbs[..0] == done;
      for j := 0 to |nbs|
        invariant status == ListStatus(nbs[..j])
        invariant WellFormed(done + nbs[..j])
        invariant Copied(ring.data[..], end, counted) == CopyAll(from, done + nbs[..j], capacity)
      {
        var nb := nbs[j];
        assert nbs[..j + 1] == nbs[..j] + [nb];
        assert nb.WellFormed() by { assert nb == (done + nbs)[|done| + j]; }
        CopyAllAppend(from, done + nbs[..j], nb, capacity);
        assert done + nbs[..j] + [nb] == done + nbs[..j + 1];
        end, counted := CopyBuffer(nb, end, counted);
        if nb.length > MAX_IP_PACKET {
          status := InvalidLength;
        } else if nb.bytes.None? {
          status := Failure;
        }
      }
      assert nbs[..|nbs|] == nbs;
    }

    /** One turn of that loop: size word and bytes, or a zero packet, at the cursor; nothing for an oversize buffer. */
    method CopyBuffer(nb: NetBuffer, start: nat, st: Stats) returns (end: nat, counted: Stats)
      requires CursorOk(ring.data[..], start, capacity) && nb.WellFormed()
      modifies ring.data
      ensures Copied(ring.data[..], end, counted) == CopyOne(Copied(old(ring.data[..]), start, st), nb, capacity)
      ensures if nb.length > MAX_IP_PACKET then ring.data[..] == old(ring.data[..]) && end == start
              else PacketWritten(old(ring.data[..]), ring.data[..], start, nb)
    {
      hide Offset, PacketSpace, BitAnd, TunAlign, RingWrap, Splice, CopyPacket, PacketWritten;
      CursorStaysOk(start, nb.length, capacity);
      if nb.length <= MAX_IP_PACKET {
        CopyPacketWrites(ring.data[..], start, nb);
        CopyPacketIs(ring.data[..], start, nb);
      }
      if nb.length > MAX_IP_PACKET {
        return start, st.(errors := st.errors + 1);
      }
      ring.WriteULong(start, nb.length);
      ring.WriteBytes(start + PACKET_HEADER, nb.Content());
      if nb.bytes.None? {
        counted := st.(discarded := st.discarded + 1);
      } else {
        counted := st.(sent := st.sent + 1, sentSize := st.sentSize + nb.length);
      }
      TunAlignRoundsUp(nb.length);
      TunRingWrapIsOffset(start + TunAlign(PACKET_HEADER + nb.length), capacity);
      end := TunRingWrap(start + TunAlign(PACKET_HEADER + nb.length), capacity);
    }

    /** The last lock-held loop of TunSendNetBufferLists. */
    method Publish()
      modifies this`active, this`tailMoved, ring`tail
      ensures (active, ring.tail) == PublishFront(old(active), old(ring.tail))
      ensures tailMoved <==> old(tailMoved) || (old(active) != [] && old(active)[0].completed)
    {
      while active != [] && active[0].completed
        invariant PublishFront(active, ring.tail) == PublishFront(old(active), old(ring.tail))
        invariant tailMoved <==> old(tailMoved) || |active| < |old(active)|
        invariant |active| <= |old(active)| && (|active| == |old(active)| ==> active == old(active))
        invariant |active| < |old(active)| ==> old(active) != [] && old(active)[0].completed
        decreases |active|
      {
        ring.tail := active[0].end;
        active := active[1..];
        tailMoved := true;
      }
    }

    /** The tests before the reservation. */
    method Admit(requiredRingSpace: nat) returns (reason: Status)
      requires Valid()
      ensures ValidCapacity(capacity)
      ensures reason == Admission(running, disconnected, ring.head, ringTail, capacity, requiredRingSpace)
    {
      hide Offset, RingWrap, BitAnd;
      CapacityOf();
      if !running {
        return Paused;
      }
      if disconnected {
        return MediaDisconnected;
      }
      var ringHead := ring.head;
      if ringHead >= capacity {
        return AdapterNotReady;
      }
      var ringSpace := TunRingWrap(ringHead - ringTail - ALIGNMENT, capacity);
      TunRingWrapIsOffset(ringHead - ringTail - ALIGNMENT, capacity);
      if ringSpace < requiredRingSpace {
        return BufferOverflow;
      }
      reason := Unset;
    }

    /** TunSendNetBufferLists, run without interruption. */
    method SendNetBufferLists(nbls: seq<seq<NetBuffer>>) returns (statuses: seq<Status>)
      requires Valid() && WellFormed(Flatten(nbls))
      modifies this`ringTail, this`active, this`tailMoved, this`statistics, ring`tail, ring.data
      ensures Valid() && |statuses| == |nbls|
      ensures var nbs, space := Flatten(nbls), U32(Space(Flatten(nbls)));
        var reason := Admission(running, disconnected, ring.head, old(ringTail), capacity, space);
        if reason.Unset? then
          var copied := CopyAll(Copied(old(ring.data[..]), old(ringTail), Stats(0, 0, 0, 0)), nbs, capacity);
          && ring.data[..] == copied.mem
          && ringTail == copied.cursor == RingWrap(old(ringTail) + space, capacity)
          && (active, ring.tail) == PublishFront(old(active) + [Entry(ringTail, true)], old(ring.tail))
          && (tailMoved <==> old(tailMoved) || old(active) == [] || old(active)[0].completed)
          && statistics.sent == old(statistics).sent + copied.stats.sent
          && statistics.sentSize == old(statistics).sentSize + copied.stats.sentSize
          && statistics.errors == old(statistics).errors + copied.stats.errors
          && statistics.discarded == old(statistics).discarded + copied.stats.discarded
          && forall i :: 0 <= i < |nbls| ==> statuses[i] == ListStatus(nbls[i])
        else
          && ring.data[..] == old(ring.data[..])
          && ringTail == old(ringTail) && active == old(active)
          && ring.tail == old(ring.tail) && tailMoved == old(tailMoved)
          && statistics == old(statistics).(discarded := old(statistics).discarded + |nbs|)
          && forall i :: 0 <= i < |nbls| ==> statuses[i] == reason
    {
      hide Offset, PacketSpace, BitAnd, TunAlign, CopyAll, Splice, PublishFront, Space, ListStatus, CursorOk;
      var packetsCount, requiredRingSpace := Measure(nbls);
      var reason := Admit(requiredRingSpace);
      if reason != Unset {
        statistics := AddStats(statistics, Stats(0, 0, 0, packetsCount));
        return seq(|nbls|, _ => reason);
      }
      var start := ringTail;
      ghost var from := Copied(ring.data[..], start, Stats(0, 0, 0, 0));
      MeasureAndCopyAgree(from, Flatten(nbls), capacity);
      TunRingWrapIsOffset(ringTail + requiredRingSpace, capacity) by { CapacityOf(); }
      ringTail := TunRingWrap(ringTail + requiredRingSpace, capacity);
      active := active + [Entry(ringTail, false)];
      var end, counted;
      end, counted, statuses := CopyPackets(nbls, start);
      assert end == active[|active| - 1].end;
      active := active[|active| - 1 := active[|active| - 1].(completed := true)];
      assert active == old(active) + [Entry(ringTail, true)];
      Publish();
      statistics := AddStats(statistics, counted);
    }

    lemma {:induction false} CapacityOf()
      requires Valid()
      ensures ValidCapacity(capacity)
    {
    }
  }

  function AddStats(a: Stats, b: Stats): Stats {
    Stats(a.sent + b.sent, a.sentSize + b.sentSize, a.errors + b.errors, a.discarded + b.discarded)
  }

  lemma {:induction false} FlattenPrefix(nbls: seq<seq<NetBuffer>>, i: nat)
    requires i < |nbls| && WellFormed(Flatten(nbls))
    ensures WellFormed(Flatten(nbls[..i]) + nbls[i])
    decreases |nbls|
  {
    assert nbls[..i + 1] == nbls[..i] + [nbls[i]];
    FlattenAppend(nbls[..i], nbls[i]);
    if i + 1 < |nbls| {
      var front := nbls[..|nbls| - 1];
      assert nbls == front + [nbls[|nbls| - 1]];
      FlattenAppend(front, nbls[|nbls| - 1]);
      forall k | 0 <= k < |Flatten(front)| ensures Flatten(front)[k].WellFormed() {
        assert Flatten(nbls)[k] == Flatten(front)[k];
      }
      assert front[..i] == nbls[..i] && front[i] == nbls[i];
      FlattenPrefix(front, i);
    } else {
      assert nbls[..i + 1] == nbls;
    }
  }

  lemma {:induction false} CopyNothing(from: Copied, cap: nat)
    requires CursorOk(from.mem, from.cursor, cap)
    ensures CopyAll(from, [], cap) == from
  {
  }

  lemma {:induction false} CopyAllAppend(from: Copied, nbs: seq<NetBuffer>, nb: NetBuffer, cap: nat)
    requires CursorOk(from.mem, from.cursor, cap) && WellFormed(nbs) && nb.WellFormed()
    ensures CopyAll(from, nbs + [nb], cap) == CopyOne(CopyAll(from, nbs, cap), nb, cap)
  {
    assert (nbs + [nb])[..|nbs|] == nbs;
  }
}
