/** What every step of the send ring keeps, and what follows for every run. */
module SendRingInvariant {
  import opened Words
  import opened RingLayout
  import opened SendRing

  // ---- The invariant ----

  /** The reserved packets tile less than one lap of the ring. */
  ghost predicate Shape(s: State) {
    && ValidCapacity(s.cap) && |s.mem| == s.cap + SLACK
    && s.freed <= s.taken <= s.published <= |s.log|
    && Tiled(s.log)
    && Window(s.log, s.freed, s.cap)
  }

  /** Every stored offset is a position of the log after whole laps. */
  ghost predicate Offsets(s: State)
    requires s.cap > 0 && s.freed <= s.taken <= s.published <= |s.log|
  {
    && s.client == Client(Offset(Pos(s.log, s.taken), s.cap), Offset(Pos(s.log, s.freed), s.cap), s.taken - s.freed)
    && s.head == s.client.headRelease
    && s.ringTail == Offset(Pos(s.log, |s.log|), s.cap)
    && s.tail == (if s.phase in {Closed, Replaced} then MAXULONG else Offset(Pos(s.log, s.published), s.cap))
  }

  /** Every written packet that has not been freed is in memory. */
  ghost predicate Memory(s: State)
    requires s.cap > 0
  {
    && s.freed <= |s.log|
    && (forall i :: 0 <= i < |s.log| && s.log[i].marked ==> i < s.taken)
    && (s.freed < |s.log| ==> !s.log[s.freed].marked)
    && (forall i :: 0 <= i < |s.log| && i < s.published ==> s.log[i].written)
    && (forall i :: s.freed <= i < |s.log| && s.log[i].written ==> Holds(s.mem, s.cap, s.log[i]))
  }

  /** What is left to copy of a chain is what its remaining slots are reserved for. */
  ghost predicate ChainValid(c: Chain, log: seq<Slot>, cap: nat)
    requires cap > 0
  {
    && c.lo <= c.done <= c.hi <= |log| && c.next <= |c.nbs|
    && WellFormed(c.nbs)
    && c.cursor == Offset(Pos(log, c.done), cap)
    && c.end == Offset(Pos(log, c.hi), cap)
    && |Contents(c.nbs[c.next..])| == c.hi - c.done
    && (forall i :: c.done <= i < c.hi ==> log[i].data == Contents(c.nbs[c.next..])[i - c.done] && !log[i].marked)
    && (forall i :: c.lo <= i < c.done ==> log[i].written)
    && (c.completed ==> c.next == |c.nbs|)
  }

  /** The active list partitions the unpublished slots, in order. */
  ghost predicate Chains(s: State)
    requires s.cap > 0
  {
    && Linked(s.active, s.published, |s.log|)
    && forall k :: 0 <= k < |s.active| ==> ChainValid(s.active[k], s.log, s.cap)
  }

  ghost predicate Linked(active: seq<Chain>, published: nat, total: nat) {
    Ordered(active, published, total) && Consecutive(active, published, total)
  }

  ghost predicate Ordered(active: seq<Chain>, published: nat, total: nat) {
    && published <= total
    && (forall j, k :: 0 <= j < k < |active| ==> active[j].hi <= active[k].lo)
    && (forall k :: 0 <= k < |active| ==> published <= active[k].lo <= active[k].hi <= total)
  }

  ghost predicate Consecutive(active: seq<Chain>, published: nat, total: nat) {
    && (if active == [] then published == total
        else active[0].lo == published && active[|active| - 1].hi == total)
    && (forall k {:trigger PrecedingEnd(active, k)} :: 1 <= k < |active| ==> active[k].lo == PrecedingEnd(active, k))
  }

  function PrecedingEnd(active: seq<Chain>, k: nat): nat
    requires 1 <= k <= |active|
  {
    active[k - 1].hi
  }

  ghost predicate History(s: State) {
    && |s.accepted| == |s.log|
    && s.taken <= |s.log|
    && s.received == s.accepted[..s.taken]
    && forall i :: s.taken <= i < |s.log| ==> s.log[i].data == s.accepted[i]
  }

  /** After the barrier no thread works on the ring; a completed chain at the front has a thread to publish it. */
  ghost predicate Threads(s: State) {
    && (s.phase in {Drained, Closed, Replaced} ==> s.inside == s.publishers == 0 && s.active == [])
    && (s.active != [] && s.active[0].completed ==> s.publishers > 0)
  }

  ghost predicate Inv(s: State) {
    Shape(s) && Offsets(s) && Memory(s) && Chains(s) && History(s) && Threads(s)
  }

  lemma {:induction false} InitInv(s: State)
    requires Init(s)
    ensures Inv(s)
  {
  }

  // ---- Reserving ----

  lemma {:induction false} SlotsForContents(pos: nat, contents: seq<seq<byte>>)
    ensures var slots := SlotsFor(pos, contents);
      forall i :: 0 <= i < |slots| ==> slots[i].data == contents[i] && !slots[i].marked && !slots[i].written
    ensures contents != [] ==> SlotsFor(pos, contents)[0].pos == pos
    decreases |contents|
  {
    if contents != [] {
      SlotsForContents(pos + PacketSpace(|contents[0]|), contents[1..]);
    }
  }

  /** Reserving extends the tiling by exactly the measured space. */
  lemma {:induction false} SlotsTile(log: seq<Slot>, nbs: seq<NetBuffer>)
    requires Tiled(log) && WellFormed(nbs)
    ensures var log' := log + SlotsFor(Pos(log, |log|), Contents(nbs));
      Tiled(log') && Pos(log', |log'|) == Pos(log, |log|) + Space(nbs)
    decreases |nbs|
  {
    var pos := Pos(log, |log|);
    if nbs == [] {
      assert log + SlotsFor(pos, []) == log;
    } else if nbs[0].Oversize() {
      assert Contents(nbs) == Contents(nbs[1..]);
      SlotsTile(log, nbs[1..]);
    } else {
      var slot := Slot(pos, nbs[0].Content(), false, false);
      TiledAppend(log, slot);
      SlotsTile(log + [slot], nbs[1..]);
      SlotsForCons(log, slot, nbs);
    }
  }

  lemma {:induction false} SlotsForCons(log: seq<Slot>, slot: Slot, nbs: seq<NetBuffer>)
    requires nbs != [] && !nbs[0].Oversize() && slot == Slot(slot.pos, nbs[0].Content(), false, false)
    ensures log + SlotsFor(slot.pos, Contents(nbs)) == log + [slot] + SlotsFor(slot.End(), Contents(nbs[1..]))
  {
    var rest := Contents(nbs[1..]);
    assert Contents(nbs) == [slot.data] + rest;
    assert Contents(nbs)[1..] == rest;
    assert SlotsFor(slot.pos, Contents(nbs)) == [slot] + SlotsFor(slot.End(), rest);
  }

  /** The slots already in the log keep their positions. */
  lemma {:induction false} SlotsKeepPositions(log: seq<Slot>, contents: seq<seq<byte>>)
    ensures var log' := log + SlotsFor(Pos(log, |log|), contents);
      forall i {:trigger Pos(log', i)} :: 0 <= i <= |log| ==> Pos(log', i) == Pos(log, i)
  {
    SlotsForContents(Pos(log, |log|), contents);
  }

  ghost predicate CanReserve(s: State, nbs: seq<NetBuffer>) {
    ValidCapacity(s.cap) && s.inside > 0 && WellFormed(nbs) && Space(nbs) < TWO32 && Room(s, nbs)
  }

  /** The space test leaves a gap of one alignment unit behind the packets not yet freed. */
  lemma {:induction false} ReservedRegionFits(s: State, nbs: seq<NetBuffer>, first: nat, last: nat)
    requires ValidCapacity(s.cap) && Room(s, nbs) && Space(nbs) < TWO32
    requires first <= last <= first + s.cap - ALIGNMENT
    requires s.head == Offset(first, s.cap) && s.ringTail == Offset(last, s.cap)
    ensures last + Space(nbs) <= first + s.cap - ALIGNMENT
  {
    WrapSpace(first, last, s.cap);
  }

  lemma {:induction false} ReservedTail(last: nat, space: nat, cap: nat)
    requires ValidCapacity(cap) && space < TWO32
    ensures RingWrap(Offset(last, cap) + U32(space), cap) == Offset(last + space, cap)
  {
    WrapAdd(last, space, cap);
  }

  lemma {:induction false} ReserveKeepsShape(s: State, nbs: seq<NetBuffer>)
    requires Shape(s) && Offsets(s) && CanReserve(s, nbs)
    ensures Shape(ReserveStep(s, nbs))
  {
    assert Tiled(s.log + SlotsFor(Pos(s.log, |s.log|), Contents(nbs))) by { SlotsTile(s.log, nbs); }
    var first, last := Pos(s.log, s.freed), Pos(s.log, |s.log|);
    assert last + Space(nbs) <= first + s.cap - ALIGNMENT by {
      PosMonotone(s.log, s.freed, |s.log|);
      ReservedRegionFits(s, nbs, first, last);
    }
    var log' := s.log + SlotsFor(last, Contents(nbs));
    assert Pos(log', |log'|) == last + Space(nbs) by { SlotsTile(s.log, nbs); }
    assert Pos(log', s.freed) == first by { SlotsKeepPositions(s.log, Contents(nbs)); }
  }

  lemma {:induction false} ReserveKeepsOffsets(s: State, nbs: seq<NetBuffer>)
    requires Shape(s) && Offsets(s) && CanReserve(s, nbs)
    ensures Offsets(ReserveStep(s, nbs))
  {
    hide Offset, U32, RingWrap, Tiled;
    var last := Pos(s.log, |s.log|);
    var log' := s.log + SlotsFor(last, Contents(nbs));
    OffsetsOfLongerLog(s, log') by { SlotsKeepPositions(s.log, Contents(nbs)); }
    assert Pos(log', |log'|) == last + Space(nbs) by { SlotsTile(s.log, nbs); }
    ReservedTail(last, Space(nbs), s.cap);
  }

  lemma {:induction false} OffsetsOfLongerLog(s: State, log': seq<Slot>)
    requires s.cap > 0 && s.freed <= s.taken <= s.published <= |s.log| && Offsets(s)
    requires |s.log| <= |log'| && forall i :: 0 <= i <= |s.log| ==> Pos(log', i) == Pos(s.log, i)
    ensures Offsets(s.(log := log', ringTail := Offset(Pos(log', |log'|), s.cap)))
  {
  }

  lemma {:induction false} ReserveKeepsMemory(s: State, nbs: seq<NetBuffer>)
    requires s.cap > 0 && Memory(s) && s.published <= |s.log| && CanReserve(s, nbs)
    ensures Memory(ReserveStep(s, nbs))
  {
    var s' := ReserveStep(s, nbs);
    SlotsForContents(Pos(s.log, |s.log|), Contents(nbs));
    assert forall i :: 0 <= i < |s.log| ==> s'.log[i] == s.log[i];
  }

  /** A chain's view of the log depends only on its own slots. */
  lemma {:induction false} ChainValidLater(c: Chain, log: seq<Slot>, log': seq<Slot>, cap: nat)
    requires cap > 0 && ChainValid(c, log, cap) && |log| <= |log'|
    requires Pos(log', c.done) == Pos(log, c.done) && Pos(log', c.hi) == Pos(log, c.hi)
    requires forall i :: c.lo <= i < c.hi ==> log'[i].data == log[i].data && log'[i].marked == log[i].marked
    requires forall i :: c.lo <= i < c.done && log[i].written ==> log'[i].written
    ensures ChainValid(c, log', cap)
  {
  }

  lemma {:induction false} FreshChainValid(nbs: seq<NetBuffer>, log: seq<Slot>, cursor: nat, end: nat, cap: nat)
    requires cap > 0 && WellFormed(nbs) && cursor == Offset(Pos(log, |log|), cap)
    requires var log' := log + SlotsFor(Pos(log, |log|), Contents(nbs)); end == Offset(Pos(log', |log'|), cap)
    ensures var log' := log + SlotsFor(Pos(log, |log|), Contents(nbs));
      ChainValid(Chain(nbs, 0, cursor, end, false, |log|, |log'|, |log|), log', cap)
  {
    SlotsForContents(Pos(log, |log|), Contents(nbs));
    SlotsKeepPositions(log, Contents(nbs));
    assert nbs[0..] == nbs;
  }

  lemma {:induction false} NewChainValid(s: State, nbs: seq<NetBuffer>)
    requires ValidCapacity(s.cap) && CanReserve(s, nbs) && Tiled(s.log)
    requires s.ringTail == Offset(Pos(s.log, |s.log|), s.cap)
    ensures ChainValid(ReserveStep(s, nbs).active[|s.active|], ReserveStep(s, nbs).log, s.cap)
  {
    hide Offset, Tiled, PacketSpace, Contents;
    var last := Pos(s.log, |s.log|);
    var log' := s.log + SlotsFor(last, Contents(nbs));
    assert Pos(log', |log'|) == last + Space(nbs) by { SlotsTile(s.log, nbs); }
    ReservedTail(last, Space(nbs), s.cap);
    FreshChainValid(nbs, s.log, s.ringTail, RingWrap(s.ringTail + U32(Space(nbs)), s.cap), s.cap);
  }

  lemma {:induction false} LinkedAppend(active: seq<Chain>, c: Chain, published: nat, total: nat)
    requires Linked(active, published, total) && c.lo == total <= c.hi
    ensures Linked(active + [c], published, c.hi)
  {
    forall k | 1 <= k < |active| + 1 ensures (active + [c])[k].lo == PrecedingEnd(active + [c], k) {
      if k < |active| {
        assert active[k].lo == PrecedingEnd(active, k);
      }
    }
  }

  lemma {:induction false} ReserveKeepsChains(s: State, nbs: seq<NetBuffer>)
    requires Tiled(s.log) && ValidCapacity(s.cap) && s.published <= |s.log|
    requires s.ringTail == Offset(Pos(s.log, |s.log|), s.cap)
    requires Chains(s) && CanReserve(s, nbs)
    ensures Chains(ReserveStep(s, nbs))
  {
    var s' := ReserveStep(s, nbs);
    var c := s'.active[|s.active|];
    assert ChainValid(c, s'.log, s.cap) by { NewChainValid(s, nbs); }
    assert Linked(s'.active, s.published, |s'.log|) by { LinkedAppend(s.active, c, s.published, |s.log|); }
    forall k | 0 <= k < |s.active| ensures ChainValid(s.active[k], s'.log, s.cap) {
      ChainValidAfterReserve(s.active[k], s.log, Contents(nbs), s.cap);
    }
  }

  lemma {:induction false} ChainValidAfterReserve(c: Chain, log: seq<Slot>, contents: seq<seq<byte>>, cap: nat)
    requires cap > 0 && ChainValid(c, log, cap)
    ensures ChainValid(c, log + SlotsFor(Pos(log, |log|), contents), cap)
  {
    var log' := log + SlotsFor(Pos(log, |log|), contents);
    SlotsKeepPositions(log, contents);
    assert Pos(log', c.done) == Pos(log, c.done) && Pos(log', c.hi) == Pos(log, c.hi);
    ChainValidLater(c, log, log', cap);
  }

  lemma {:induction false} ReserveKeepsHistory(s: State, nbs: seq<NetBuffer>)
    requires History(s) && CanReserve(s, nbs)
    ensures History(ReserveStep(s, nbs))
  {
    hide Offset, Pos, RingWrap, Room, Space, WellFormed, Contents;
    SlotsForContents(Pos(s.log, |s.log|), Contents(nbs));
  }

  // ---- Copying ----

  /** The copy loop's cursor is at the slot reserved for the buffer it is about to copy. */
  lemma {:induction false} CopyTarget(c: Chain, log: seq<Slot>, cap: nat)
    requires cap > 0 && ChainValid(c, log, cap) && c.next < |c.nbs|
    ensures c.nbs[c.next].Oversize() ==> Contents(c.nbs[c.next..]) == Contents(c.nbs[c.next + 1..])
    ensures !c.nbs[c.next].Oversize() ==>
      && c.done < c.hi
      && log[c.done].data == c.nbs[c.next].Content() && !log[c.done].marked
      && c.cursor == Offset(log[c.done].pos, cap)
      && Contents(c.nbs[c.next..]) == [log[c.done].data] + Contents(c.nbs[c.next + 1..])
  {
    hide Offset, PacketSpace;
    var rest := c.nbs[c.next..];
    assert rest[0] == c.nbs[c.next] && rest[1..] == c.nbs[c.next + 1..];
    if !rest[0].Oversize() {
      assert Contents(rest)[0] == rest[0].Content();
    }
  }

  /** A completed copy loop ends at exactly the offset that was reserved: the source's assertion. */
  lemma {:induction false} CopyEndsAtReservedOffset(c: Chain, log: seq<Slot>, cap: nat)
    requires cap > 0 && ChainValid(c, log, cap) && c.next == |c.nbs|
    ensures c.cursor == c.end && c.done == c.hi
  {
    assert c.nbs[c.next..] == [];
  }

  lemma {:induction false} CopyPacketHolds(mem: seq<byte>, cap: nat, slot: Slot, nb: NetBuffer)
    requires cap > 0 && slot.Valid() && !slot.marked && nb.WellFormed() && !nb.Oversize() && slot.data == nb.Content()
    requires Offset(slot.pos, cap) + PACKET_HEADER + nb.length <= |mem|
    ensures Holds(CopyPacket(mem, Offset(slot.pos, cap), nb), cap, slot)
  {
    var at := Offset(slot.pos, cap);
    ReadBack32(mem, at, nb.length);
    HoldsData(Write32(mem, at, nb.length), cap, slot, slot.data);
    assert slot.(data := slot.data) == slot;
  }

  /** Copying into slot j leaves the other live slots in memory. */
  lemma {:induction false} CopyPacketFrame(mem: seq<byte>, cap: nat, log: seq<Slot>, first: nat, j: nat, nb: NetBuffer)
    requires ValidCapacity(cap) && |mem| == cap + SLACK && Tiled(log) && Window(log, first, cap) && first <= j < |log|
    requires nb.WellFormed() && !nb.Oversize() && |log[j].data| == nb.length
    requires Offset(log[j].pos, cap) + PACKET_HEADER + nb.length <= |mem|
    ensures forall i :: first <= i < |log| && i != j && Holds(mem, cap, log[i]) ==>
      Holds(CopyPacket(mem, Offset(log[j].pos, cap), nb), cap, log[i])
  {
    var at := Offset(log[j].pos, cap);
    SlotFits(log, j, cap);
    WriteInSlot(mem, at, LittleEndian32(nb.length), cap, log, first, j);
    WriteInSlot(Write32(mem, at, nb.length), at + PACKET_HEADER, nb.Content(), cap, log, first, j);
  }

  ghost predicate CanCopy(s: State, k: nat) {
    && ValidCapacity(s.cap) && |s.mem| == s.cap + SLACK
    && k < |s.active| && !s.active[k].completed && s.active[k].next < |s.active[k].nbs|
    && s.active[k].nbs[s.active[k].next].WellFormed() && s.active[k].cursor + MAX_PACKET <= |s.mem|
  }

  /** A copying thread can always take its next step: the cursor leaves room for a packet of any size. */
  lemma {:induction false} CopyIsEnabled(s: State, k: nat)
    requires Shape(s) && Chains(s) && k < |s.active| && !s.active[k].completed && s.active[k].next < |s.active[k].nbs|
    ensures CanCopy(s, k)
  {
    hide Contents;
    var c := s.active[k];
    assert ChainValid(c, s.log, s.cap);
    PosAligned(s.log, c.done);
    RangeFits(Pos(s.log, c.done), s.cap);
  }

  /** Filling slot j keeps the memory invariant. */
  lemma {:induction false} FillKeepsMemory(s: State, j: nat, nb: NetBuffer)
    requires Shape(s) && Memory(s) && s.freed <= j < |s.log|
    requires nb.WellFormed() && !nb.Oversize() && s.log[j].data == nb.Content() && !s.log[j].marked
    ensures Offset(s.log[j].pos, s.cap) + MAX_PACKET <= |s.mem|
    ensures Memory(s.(mem := CopyPacket(s.mem, Offset(s.log[j].pos, s.cap), nb), log := MarkWritten(s.log, j)))
  {
    hide Offset, Pos, PacketSpace;
    PosAligned(s.log, j);
    RangeFits(Pos(s.log, j), s.cap);
    assert Pos(s.log, j) == s.log[j].pos by { PosOfSlot(s.log, j); }
    CopyPacketHolds(s.mem, s.cap, s.log[j], nb);
    CopyPacketFrame(s.mem, s.cap, s.log, s.freed, j, nb);
    MemoryAfterCopy(s, j, CopyPacket(s.mem, Offset(s.log[j].pos, s.cap), nb));
  }

  lemma {:induction false} MemoryAfterCopy(s: State, j: nat, mem': seq<byte>)
    requires s.cap > 0 && Memory(s) && s.freed <= j < |s.log| && Holds(mem', s.cap, s.log[j])
    requires forall i :: s.freed <= i < |s.log| && i != j && Holds(s.mem, s.cap, s.log[i]) ==>
                           Holds(mem', s.cap, s.log[i])
    ensures Memory(s.(mem := mem', log := MarkWritten(s.log, j)))
  {
    hide Offset;
    var log' := MarkWritten(s.log, j);
    forall i | s.freed <= i < |log'| && log'[i].written ensures Holds(mem', s.cap, log'[i]) {
      assert Holds(mem', s.cap, s.log[i]);
    }
  }

  lemma {:induction false} CopyKeepsMemory(s: State, k: nat)
    requires CanCopy(s, k) && Shape(s) && Memory(s) && Chains(s)
    ensures Memory(CopyStep(s, k))
  {
    hide Offset, Pos, Contents, PacketSpace, Tiled, Memory, CopyPacket;
    var c := s.active[k];
    assert ChainValid(c, s.log, s.cap);
    CopyTarget(c, s.log, s.cap);
    if c.nbs[c.next].Oversize() {
      MemoryFrame(s, CopyStep(s, k));
    } else {
      FillKeepsMemory(s, c.done, c.nbs[c.next]);
      MemoryFrame(s.(mem := CopyPacket(s.mem, c.cursor, c.nbs[c.next]), log := MarkWritten(s.log, c.done)),
                  CopyStep(s, k));
    }
  }

  /** The memory invariant reads only these fields. */
  lemma {:induction false} MemoryFrame(s: State, s': State)
    requires s.cap > 0 && Memory(s)
    requires s'.cap == s.cap && s'.mem == s.mem && s'.log == s.log
    requires s'.freed == s.freed && s'.taken == s.taken && s'.published == s.published
    ensures Memory(s')
  {
  }

  lemma {:induction false} CopyKeepsShape(s: State, k: nat)
    requires CanCopy(s, k) && Shape(s)
    ensures Shape(CopyStep(s, k))
  {
    hide Offset, PacketSpace, Contents, CopyPacket, NextCopied;
    var s' := CopyStep(s, k);
    assert SameShape(s.log, s'.log);
    TiledSameShape(s.log, s'.log);
  }

  lemma {:induction false} CopyKeepsOffsets(s: State, k: nat)
    requires CanCopy(s, k) && Shape(s) && Offsets(s)
    ensures Offsets(CopyStep(s, k))
  {
    hide Offset, PacketSpace, Contents, CopyPacket, NextCopied, Tiled, Pos;
    var s' := CopyStep(s, k);
    assert SameShape(s.log, s'.log);
    PosSameShape(s.log, s'.log);
  }

  lemma {:induction false} CopyKeepsHistory(s: State, k: nat)
    requires CanCopy(s, k) && History(s)
    ensures History(CopyStep(s, k))
  {
    hide Offset, PacketSpace, Contents, CopyPacket, NextCopied;
  }

  lemma {:induction false} LinkedUpdate(active: seq<Chain>, k: nat, c: Chain, published: nat, total: nat)
    requires Linked(active, published, total) && k < |active| && c.lo == active[k].lo && c.hi == active[k].hi
    ensures Linked(active[k := c], published, total)
  {
    hide Ordered;
    var active' := active[k := c];
    forall i | 1 <= i < |active'| ensures active'[i].lo == PrecedingEnd(active', i) {
      assert active[i].lo == PrecedingEnd(active, i);
    }
    OrderedUpdate(active, k, c, published, total);
  }

  lemma {:induction false} OrderedUpdate(active: seq<Chain>, k: nat, c: Chain, published: nat, total: nat)
    requires Ordered(active, published, total) && k < |active| && c.lo == active[k].lo && c.hi == active[k].hi
    ensures Ordered(active[k := c], published, total)
  {
    assert forall i :: 0 <= i < |active| ==>
                         active[k := c][i].lo == active[i].lo && active[k := c][i].hi == active[i].hi;
  }

  lemma {:induction false} FilledChainValid(c: Chain, log: seq<Slot>, cap: nat)
    requires ValidCapacity(cap) && ChainValid(c, log, cap)
    requires c.next < |c.nbs| && !c.completed && !c.nbs[c.next].Oversize()
    requires Tiled(log)
    ensures ChainValid(NextCopied(c, cap), MarkWritten(log, c.done), cap)
  {
    hide Offset, PacketSpace;
    CopyTarget(c, log, cap);
    var log' := MarkWritten(log, c.done);
    assert SameShape(log, log');
    PosSameShape(log, log');
    assert Pos(log, c.done + 1) == log[c.done].End() by { assert Adjacent(log, c.done); }
    assert c.nbs[c.next].WellFormed();
    WrapAdd(log[c.done].pos, log[c.done].Space(), cap);
  }

  /** Replacing one chain and the flags of written slots leaves a valid list of chains. */
  lemma {:induction false} ChainsAfterCopy(s: State, s': State, k: nat)
    requires s.cap > 0 && Chains(s) && k < |s.active| && SameShape(s.log, s'.log) && s'.cap == s.cap
    requires |s'.active| == |s.active| && s'.active == s.active[k := s'.active[k]] && s'.published == s.published
    requires s'.active[k].lo == s.active[k].lo && s'.active[k].hi == s.active[k].hi
    requires ChainValid(s'.active[k], s'.log, s.cap)
    requires forall i :: 0 <= i < |s.log| ==> s'.log[i].data == s.log[i].data && s'.log[i].marked == s.log[i].marked
    requires forall i :: 0 <= i < |s.log| && s.log[i].written ==> s'.log[i].written
    ensures Chains(s')
  {
    LinkedUpdate(s.active, k, s'.active[k], s.published, |s.log|);
    PosSameShape(s.log, s'.log);
    forall i | 0 <= i < |s.active| && i != k ensures ChainValid(s'.active[i], s'.log, s.cap) {
      ChainValidLater(s.active[i], s.log, s'.log, s.cap);
    }
  }

  lemma {:induction false} SkippedChainValid(c: Chain, log: seq<Slot>, cap: nat)
    requires cap > 0 && ChainValid(c, log, cap) && c.next < |c.nbs| && !c.completed && c.nbs[c.next].Oversize()
    ensures ChainValid(NextCopied(c, cap), log, cap)
  {
    hide Offset, Pos, Contents;
    CopyTarget(c, log, cap);
  }

  lemma {:induction false} CopyKeepsChains(s: State, k: nat)
    requires CanCopy(s, k) && Tiled(s.log) && Chains(s)
    ensures Chains(CopyStep(s, k))
  {
    hide Offset, Pos, Contents, PacketSpace, Tiled;
    var c := s.active[k];
    assert ChainValid(c, s.log, s.cap);
    if c.nbs[c.next].Oversize() {
      SkippedChainValid(c, s.log, s.cap);
    } else {
      FilledChainValid(c, s.log, s.cap);
    }
    ChainsAfterCopy(s, CopyStep(s, k), k);
  }

  lemma {:induction false} CopyKeepsThreads(s: State, k: nat)
    requires CanCopy(s, k) && Threads(s)
    ensures Threads(CopyStep(s, k))
  {
    hide Offset, PacketSpace, Contents, CopyPacket, MarkWritten;
  }

  lemma {:induction false} CopyKeepsInv(s: State, k: nat)
    requires CanCopy(s, k) && Inv(s)
    ensures Inv(CopyStep(s, k))
  {
    hide Shape, Offsets, Memory, Chains, History, Threads, CopyStep;
    assert Tiled(s.log) by { ShapeTiles(s); }
    CopyKeepsShape(s, k);
    CopyKeepsOffsets(s, k);
    CopyKeepsMemory(s, k);
    CopyKeepsChains(s, k);
    CopyKeepsHistory(s, k);
    CopyKeepsThreads(s, k);
  }

  lemma {:induction false} ShapeTiles(s: State)
    requires Shape(s)
    ensures Tiled(s.log)
  {
  }

  // ---- Publishing ----

  lemma {:induction false} MarkCompletedKeepsChains(s: State, k: nat)
    requires s.cap > 0 && Chains(s) && k < |s.active| && s.active[k].next == |s.active[k].nbs|
    ensures Chains(s.(active := s.active[k := s.active[k].(completed := true)]))
  {
    hide Offset, Pos, Contents;
    LinkedUpdate(s.active, k, s.active[k].(completed := true), s.published, |s.log|);
    assert ChainValid(s.active[k], s.log, s.cap);
  }

  lemma {:induction false} MarkCompletedKeepsInv(s: State, k: nat)
    requires Inv(s) && k < |s.active| && !s.active[k].completed && s.active[k].next == |s.active[k].nbs|
    ensures Inv(s.(active := s.active[k := s.active[k].(completed := true)], publishers := s.publishers + 1))
  {
    hide Chains, Memory, Tiled, Pos, Offset;
    MarkCompletedKeepsChains(s, k);
    var s' := s.(active := s.active[k := s.active[k].(completed := true)]);
    ChainsFrame(s', s'.(publishers := s.publishers + 1));
    MemoryFrame(s, s'.(publishers := s.publishers + 1));
  }

  /** The chain invariant reads only these fields. */
  lemma {:induction false} ChainsFrame(s: State, s': State)
    requires s.cap > 0 && Chains(s)
    requires s'.cap == s.cap && s'.active == s.active && s'.log == s.log && s'.published == s.published
    ensures Chains(s')
  {
  }

  /** A chain that may be published is written completely. */
  lemma {:induction false} CompletedChainIsWritten(c: Chain, log: seq<Slot>, cap: nat)
    requires cap > 0 && ChainValid(c, log, cap) && c.completed
    ensures c.end == Offset(Pos(log, c.hi), cap)
    ensures forall i :: c.lo <= i < c.hi ==> log[i].written
  {
    CopyEndsAtReservedOffset(c, log, cap);
  }

  lemma {:induction false} LinkedRest(active: seq<Chain>, published: nat, total: nat)
    requires Linked(active, published, total) && active != []
    ensures Linked(active[1..], active[0].hi, total)
  {
    var rest := active[1..];
    assert forall k :: 0 <= k < |rest| ==> rest[k] == active[k + 1];
    OrderedRest(active, published, total);
    forall k | 1 <= k < |rest| ensures rest[k].lo == PrecedingEnd(rest, k) {
      assert active[k + 1].lo == PrecedingEnd(active, k + 1);
    }
    if rest != [] {
      assert active[1].lo == PrecedingEnd(active, 1);
    }
  }

  lemma {:induction false} OrderedRest(active: seq<Chain>, published: nat, total: nat)
    requires Ordered(active, published, total) && active != []
    ensures Ordered(active[1..], active[0].hi, total)
  {
  }

  lemma {:induction false} PublishKeepsInv(s: State)
    requires Inv(s) && s.publishers > 0 && s.active != [] && s.active[0].completed
    ensures Inv(s.(active := s.active[1..], tail := s.active[0].end, published := s.active[0].hi))
  {
    hide Holds, Tiled, Pos, Offset, Contents;
    var c := s.active[0];
    assert ChainValid(c, s.log, s.cap);
    CompletedChainIsWritten(c, s.log, s.cap);
    LinkedRest(s.active, s.published, |s.log|);
    var s' := s.(active := s.active[1..], tail := c.end, published := c.hi);
    assert forall k :: 0 <= k < |s'.active| ==> s'.active[k] == s.active[k + 1];
    assert Chains(s');
    assert Offsets(s');
    assert Memory(s');
  }

  // ---- Taking ----

  lemma {:induction false} ReceiveNext(cap: nat, c: Client, tail: nat, mem: seq<byte>, slot: Slot, end: nat)
    requires ValidCapacity(cap) && |mem| == cap + SLACK && slot.Valid() && !slot.marked && Holds(mem, cap, slot)
    requires c.head == Offset(slot.pos, cap) && tail == Offset(end, cap) && slot.End() <= end < slot.pos + cap
    ensures ClientReceive(cap, c, tail, mem) ==
      (c.(head := Offset(slot.End(), cap), packetsToRelease := c.packetsToRelease + 1),
       Packet(c.head + PACKET_HEADER, |slot.data|))
  {
    hide Offset, PacketSpace;
    WrapSub(end, slot.pos, cap);
    WrapAdd(slot.pos, slot.Space(), cap);
  }

  /** What WintunReceivePacket finds: the next published packet in the order of reservation, or why there is none. */
  lemma {:induction false} TakeOutcome(s: State)
    requires Shape(s) && Offsets(s) && Memory(s)
    ensures var (c, r) := ClientReceive(s.cap, s.client, s.tail, s.mem);
      && (s.phase in {Closed, Replaced} ==> r == EndOfFile && c == s.client)
      && (s.phase !in {Closed, Replaced} && s.taken == s.published ==> r == NoMoreItems && c == s.client)
      && (s.phase !in {Closed, Replaced} && s.taken < s.published ==>
            && r == Packet(s.client.head + PACKET_HEADER, |s.log[s.taken].data|)
            && r.at + r.size <= |s.mem|
            && s.mem[r.at..r.at + r.size] == s.log[s.taken].data
            && c == Client(Offset(Pos(s.log, s.taken + 1), s.cap), s.client.headRelease, s.client.packetsToRelease + 1))
  {
    hide Offset, PacketSpace, Tiled, Pos, Holds;
    if s.phase !in {Closed, Replaced} && s.taken < s.published {
      var slot := s.log[s.taken];
      assert Holds(s.mem, s.cap, slot);
      NextPacketRange(s);
      ReceiveNext(s.cap, s.client, s.tail, s.mem, slot, Pos(s.log, s.published));
      HoldsReads(s.mem, s.cap, slot);
    }
  }

  lemma {:induction false} NextPacketRange(s: State)
    requires Shape(s) && s.taken < s.published
    ensures var slot := s.log[s.taken];
      && slot.Valid() && slot.pos == Pos(s.log, s.taken) && slot.End() == Pos(s.log, s.taken + 1)
      && slot.End() <= Pos(s.log, s.published) < slot.pos + s.cap
  {
    hide PacketSpace;
    PosMonotone(s.log, s.freed, s.taken);
    PosMonotone(s.log, s.taken, s.published);
    PosMonotone(s.log, s.published, |s.log|);
    assert s.log[s.taken].Valid() && Adjacent(s.log, s.taken);
  }

  lemma {:induction false} HoldsReads(mem: seq<byte>, cap: nat, slot: Slot)
    requires cap > 0 && Holds(mem, cap, slot)
    ensures var at := Offset(slot.pos, cap) + PACKET_HEADER;
      at + |slot.data| <= |mem| && mem[at..at + |slot.data|] == slot.data
  {
  }

  lemma {:induction false} TakeKeepsInv(s: State)
    requires Inv(s)
    ensures Inv(TakeStep(s))
  {
    hide Holds, Tiled, Pos, Offset, Contents, ClientReceive, Chains;
    TakeOutcome(s);
    ChainsFrame(s, TakeStep(s));
  }

  // ---- Client writes ----

  lemma {:induction false} WriteDataKeepsMemory(s: State, i: nat, bytes: seq<byte>)
    requires Shape(s) && Memory(s) && Outstanding(s, i) && |bytes| == |s.log[i].data|
    ensures Offset(s.log[i].pos, s.cap) + PACKET_HEADER + |bytes| <= |s.mem|
    ensures Memory(s.(mem := Splice(s.mem, Offset(s.log[i].pos, s.cap) + PACKET_HEADER, bytes),
                      log := s.log[i := s.log[i].(data := bytes)]))
  {
    hide Offset, Pos, PacketSpace;
    SlotFits(s.log, i, s.cap);
    assert Holds(s.mem, s.cap, s.log[i]);
    HoldsData(s.mem, s.cap, s.log[i], bytes);
    WriteInSlot(s.mem, Offset(s.log[i].pos, s.cap) + PACKET_HEADER, bytes, s.cap, s.log, s.freed, i);
  }

  /** Changing slots that are published changes nothing for the chains. */
  lemma {:induction false} ChainsIgnorePublished(s: State, log': seq<Slot>)
    requires s.cap > 0 && Chains(s) && SameShape(s.log, log')
    requires forall i :: s.published <= i < |s.log| ==> log'[i] == s.log[i]
    ensures Chains(s.(log := log'))
  {
    hide Offset, Pos, Contents;
    PosSameShape(s.log, log');
    forall k | 0 <= k < |s.active| ensures ChainValid(s.active[k], log', s.cap) {
      ChainValidLater(s.active[k], s.log, log', s.cap);
    }
  }

  lemma {:induction false} SameShapeKeepsShape(s: State, log': seq<Slot>)
    requires Shape(s) && Offsets(s) && SameShape(s.log, log')
    ensures Shape(s.(log := log')) && Offsets(s.(log := log'))
  {
    hide Offset, Pos, Tiled;
    TiledSameShape(s.log, log');
  }

  lemma {:induction false} ClientWritesKeepsInv(s: State, i: nat, bytes: seq<byte>)
    requires Inv(s) && Outstanding(s, i) && |bytes| == |s.log[i].data|
    requires Offset(s.log[i].pos, s.cap) + PACKET_HEADER + |bytes| <= |s.mem|
    ensures Inv(s.(mem := Splice(s.mem, Offset(s.log[i].pos, s.cap) + PACKET_HEADER, bytes),
                   log := s.log[i := s.log[i].(data := bytes)]))
  {
    hide Offset, Pos, Tiled, Memory, Chains, Splice;
    var log' := s.log[i := s.log[i].(data := bytes)];
    var s' := s.(mem := Splice(s.mem, Offset(s.log[i].pos, s.cap) + PACKET_HEADER, bytes), log := log');
    WriteDataKeepsMemory(s, i, bytes);
    SameShapeKeepsShape(s, log');
    ChainsIgnorePublished(s, log');
    ChainsFrame(s.(log := log'), s');
  }

  // ---- Releasing ----

  lemma {:induction false} ReleaseTurn(cap: nat, c: Client, mem: seq<byte>, slot: Slot)
    requires ValidCapacity(cap) && |mem| == cap + SLACK && slot.Valid() && Holds(mem, cap, slot)
    requires c.headRelease == Offset(slot.pos, cap) && c.packetsToRelease > 0
    ensures ReleaseFront(cap, c, mem) ==
      if slot.marked then
        ReleaseFront(cap, c.(headRelease := Offset(slot.End(), cap), packetsToRelease := c.packetsToRelease - 1), mem)
      else c
  {
    hide Offset, PacketSpace;
    WrapAdd(slot.pos, slot.Space(), cap);
  }

  /** The release loop stops at the first packet the client still holds. */
  lemma {:induction false} ReleaseFrontStops(cap: nat, c: Client, mem: seq<byte>, log: seq<Slot>, freed: nat,
      taken: nat)
    requires ValidCapacity(cap) && |mem| == cap + SLACK && Tiled(log) && freed <= taken <= |log|
    requires c.headRelease == Offset(Pos(log, freed), cap) && c.packetsToRelease == taken - freed
    requires forall i :: freed <= i < taken ==> Holds(mem, cap, log[i])
    ensures var c' := ReleaseFront(cap, c, mem);
      && c'.packetsToRelease <= taken - freed
      && var f := taken - c'.packetsToRelease;
      && c' == Client(c.head, Offset(Pos(log, f), cap), taken - f)
      && (forall i :: freed <= i < f ==> log[i].marked)
      && (f < taken ==> !log[f].marked)
    decreases taken - freed
  {
    hide Offset, PacketSpace, Holds;
    if freed < taken {
      var slot := log[freed];
      assert slot.Valid() && Adjacent(log, freed);
      ReleaseTurn(cap, c, mem, slot);
      if slot.marked {
        var next := c.(headRelease := Offset(slot.End(), cap), packetsToRelease := c.packetsToRelease - 1);
        ReleaseFrontStops(cap, next, mem, log, freed + 1, taken);
      }
    }
  }

  /** Setting the release bit of an outstanding packet, everything else in memory as before. */
  lemma {:induction false} MarkReleasedHolds(s: State, i: nat)
    requires Shape(s) && Memory(s) && Outstanding(s, i)
    ensures Offset(s.log[i].pos, s.cap) + PACKET_HEADER <= |s.mem|
    ensures var mem' := MarkReleased(s.mem, Offset(s.log[i].pos, s.cap) + PACKET_HEADER);
      var log' := s.log[i := s.log[i].(marked := true)];
      forall j :: s.freed <= j < |log'| && log'[j].written ==> Holds(mem', s.cap, log'[j])
  {
    hide Offset, Pos, PacketSpace, Read32, LittleEndian32;
    var slot := s.log[i];
    SlotFits(s.log, i, s.cap);
    assert Holds(s.mem, s.cap, slot) && slot.Valid();
    HoldsSizeWord(s.mem, s.cap, slot, true);
    WriteInSlot(s.mem, Offset(slot.pos, s.cap), LittleEndian32(slot.(marked := true).SizeWord()), s.cap, s.log, s.freed,
                i);
  }

  lemma {:induction false} ReleaseAdvances(s: State, i: nat)
    requires Shape(s) && Offsets(s) && Memory(s) && Outstanding(s, i)
    ensures var s' := ReleaseStep(s, i);
      && s.freed <= s'.freed <= s.taken
      && s'.client == Client(s.client.head, Offset(Pos(s.log, s'.freed), s.cap), s.taken - s'.freed)
      && (forall j :: s.freed <= j < s'.freed ==> s'.log[j].marked)
      && (s'.freed < s.taken ==> !s'.log[s'.freed].marked)
  {
    hide Offset, Pos, PacketSpace, Holds, ReleaseFront, MarkReleased, Tiled;
    var mem' := MarkReleased(s.mem, Offset(s.log[i].pos, s.cap) + PACKET_HEADER);
    var log' := s.log[i := s.log[i].(marked := true)];
    MarkReleasedHolds(s, i);
    TiledSameShape(s.log, log');
    PosSameShape(s.log, log');
    assert Pos(log', s.freed) == Pos(s.log, s.freed);
    ReleaseFrontStops(s.cap, s.client, mem', log', s.freed, s.taken);
  }

  lemma {:induction false} ReleaseKeepsMemory(s: State, i: nat)
    requires Shape(s) && Offsets(s) && Memory(s) && Outstanding(s, i)
    ensures Memory(ReleaseStep(s, i))
  {
    hide Offset, Pos, PacketSpace, Holds, ReleaseFront, MarkReleased, Tiled;
    ReleaseAdvances(s, i);
    MarkReleasedHolds(s, i);
  }

  lemma {:induction false} ReleaseKeepsShape(s: State, i: nat)
    requires Shape(s) && Offsets(s) && Memory(s) && Outstanding(s, i)
    ensures Shape(ReleaseStep(s, i)) && Offsets(ReleaseStep(s, i))
  {
    hide Offset, Pos, PacketSpace, Holds, ReleaseFront, MarkReleased, Tiled;
    var s' := ReleaseStep(s, i);
    ReleaseAdvances(s, i);
    TiledSameShape(s.log, s'.log);
    PosMonotone(s.log, s.freed, s'.freed);
    assert Pos(s'.log, |s.log|) == Pos(s.log, |s.log|) && Pos(s'.log, s'.freed) == Pos(s.log, s'.freed);
    assert Pos(s'.log, s.taken) == Pos(s.log, s.taken) && Pos(s'.log, s.published) == Pos(s.log, s.published);
  }

  lemma {:induction false} ReleaseKeepsInv(s: State, i: nat)
    requires Inv(s) && Outstanding(s, i)
    ensures Inv(ReleaseStep(s, i))
  {
    hide Offset, Pos, Tiled, Memory, Chains, ReleaseFront, MarkReleased;
    var s' := ReleaseStep(s, i);
    ReleaseKeepsMemory(s, i);
    ReleaseKeepsShape(s, i);
    ChainsIgnorePublished(s, s'.log);
    ChainsFrame(s.(log := s'.log), s');
  }

  // ---- Every step, every run ----

  lemma {:induction false} ReserveKeepsInv(s: State, nbs: seq<NetBuffer>)
    requires Inv(s) && CanReserve(s, nbs)
    ensures Inv(ReserveStep(s, nbs))
  {
    hide Offset, Pos, Tiled, Memory, Chains, History, Contents;
    ReserveKeepsShape(s, nbs);
    ReserveKeepsOffsets(s, nbs);
    ReserveKeepsMemory(s, nbs);
    ReserveKeepsChains(s, nbs);
    ReserveKeepsHistory(s, nbs);
  }

  /** The steps that change no ring memory and no list. */
  lemma {:induction false} CountingStepKeepsInv(s: State, e: Event)
    requires Inv(s) && Enabled(s, e)
    requires e.SenderEnters? || e.SenderTurnedAway? || e.SenderAdmitted? || e.ReserveFails? || e.PublishDone?
      || e.SetDisconnected? || e.PassBarrier? || e.InvalidateTail? || e.Reregister?
    ensures Inv(Step(s, e))
  {
    hide Offset, Pos, Tiled, Holds, ChainValid, Linked;
  }

  lemma {:induction false} StepKeepsInv(s: State, e: Event)
    requires Inv(s) && Enabled(s, e)
    ensures Inv(Step(s, e))
  {
    hide Offset, Pos, Inv, Room, Space, TakeStep, ReleaseStep, CopyStep, ReserveStep, Outstanding, WellFormed;
    InvBasics(s);
    match e
    case Reserve(nbs) => CanReserveNow(s, nbs); ReserveKeepsInv(s, nbs);
    case CopyNext(k) => CopyKeepsInv(s, k);
    case MarkCompleted(k) => MarkCompletedKeepsInv(s, k);
    case PublishNext => PublishKeepsInv(s);
    case ClientTakes => TakeKeepsInv(s);
    case ClientWrites(i, bytes) => ClientWritesKeepsInv(s, i, bytes);
    case ClientReleases(i) => ReleaseKeepsInv(s, i);
    case _ => CountingStepKeepsInv(s, e);
  }

  lemma {:induction false} InvBasics(s: State)
    requires Inv(s)
    ensures ValidCapacity(s.cap) && |s.mem| == s.cap + SLACK
  {
  }

  lemma {:induction false} CanReserveNow(s: State, nbs: seq<NetBuffer>)
    requires Inv(s) && Enabled(s, Reserve(nbs))
    ensures CanReserve(s, nbs)
  {
  }
}
