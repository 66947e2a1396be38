/** What every step of the receive ring keeps. */
module ReceiveRingInvariant {
  import opened Words
  import opened RingLayout
  import opened ReceiveRing

  // ---- The invariant ----

  ghost predicate Shape(s: State) {
    && ValidCapacity(s.cap) && |s.mem| == s.cap + SLACK
    && s.popped <= s.consumed <= s.published <= s.released <= |s.log|
    && Tiled(s.log)
    && Window(s.log, s.popped, s.cap)
  }

  ghost predicate Offsets(s: State)
    requires s.cap > 0 && s.popped <= s.consumed <= s.published <= s.released <= |s.log|
  {
    && s.client
        == Client(Offset(Pos(s.log, |s.log|), s.cap), Offset(Pos(s.log, s.released), s.cap), |s.log| - s.released)
    && s.tail == Offset(Pos(s.log, s.published), s.cap)
    && s.ringHead == Offset(Pos(s.log, s.consumed), s.cap)
  }

  /** The ring's head stands for a position that has been given up, and clients have used less than a lap from there. */
  ghost predicate Head(s: State)
    requires s.cap > 0 && s.popped <= |s.log|
  {
    && s.freed <= Pos(s.log, s.popped)
    && Pos(s.log, |s.log|) <= s.freed + s.cap - ALIGNMENT
    && (s.head == Offset(s.freed, s.cap) || (s.head == MAXULONG && s.driverPc == Finished))
  }

  /** Live packets are in memory; up to TailRelease all are sent, and the next one is not. */
  ghost predicate Memory(s: State)
    requires s.cap > 0
  {
    && s.popped <= s.released <= |s.log|
    && (forall i :: s.popped <= i < |s.log| ==> Holds(s.mem, s.cap, s.log[i]))
    && (forall i :: 0 <= i < s.released ==> !s.log[i].marked)
    && (s.released < |s.log| ==> s.log[s.released].marked)
  }

  /** The packet the driver is handling, which is on no list. */
  predicate Handling(pc: DriverPc) {
    pc in {Classifying, AwaitingEmpty, WritingHead}
  }

  /**
   * The active list holds the fetched packets that have not been given up, in order; an unlinked list is one of those
   * before them.
   */
  ghost predicate Lent(s: State)
    requires s.cap > 0
  {
    && s.consumed <= |s.log|
    && s.popped + |s.active| + (if Handling(s.driverPc) then 1 else 0) == s.consumed
    && (forall k :: 0 <= k < |s.active| ==> NblAt(s.active[k], s.popped + k + 1, s.log, s.cap))
    && (s.unlinked.Some? ==> s.unlinked.value.upTo <= s.popped)
    && (s.unlinked.Some? ==> NblAt(s.unlinked.value, s.unlinked.value.upTo, s.log, s.cap))
  }

  ghost predicate NblAt(nbl: Nbl, upTo: nat, log: seq<Slot>, cap: nat)
    requires cap > 0
  {
    nbl.upTo == upTo <= |log| && nbl.offset == Offset(Pos(log, upTo), cap)
  }

  ghost predicate Delivered(s: State) {
    && |s.delivered| == s.consumed <= s.released <= |s.log|
    && forall i :: 0 <= i < s.consumed ==> s.delivered[i] == s.log[i].data
  }

  /** The tail the driver has read, while it relies on it: between its head and the published tail. */
  ghost predicate TailRead(s: State)
    requires s.cap > 0
  {
    ReliesOnTail(s.driverPc) ==> exists t {:trigger SeenTail(s, t)} :: SeenTail(s, t)
  }

  predicate ReliesOnTail(pc: DriverPc) {
    pc in {HavePacket, ClearingAlertable, ClearingEvent}
  }

  ghost predicate SeenTail(s: State, t: nat)
    requires s.cap > 0
  {
    s.consumed < t <= s.published && t <= |s.log| && s.ringTail == Offset(Pos(s.log, t), s.cap)
  }

  ghost predicate Threads(s: State) {
    && (s.alertable <==> s.driverPc in {Rechecking, Blocked, ClearingAfterWait, ClearingAlertable})
    && (if s.clientPc == TailToWrite then s.published < s.released else s.published == s.released)
    && (s.driverPc in {WritingHead, Invalidating, Finished} ==> s.active == [])
    && (s.active != [] && s.active[0].completed ==> s.popping > 0)
  }

  /** A client thread is past its write of the tail and will still look at Alertable, or has and will set the event. */
  predicate WillSignal(s: State) {
    s.clientPc in {AlertableToRead, EventToSet}
  }

  ghost predicate Wakeup(s: State) {
    s.driverPc == Blocked && s.consumed != s.published ==> s.tailMoved || WillSignal(s)
  }

  ghost predicate Inv(s: State) {
    Shape(s) && Offsets(s) && Head(s) && Memory(s) && Lent(s) && Delivered(s) && TailRead(s) && Threads(s) && Wakeup(s)
  }

  lemma {:induction false} InitInv(s: State)
    requires Init(s)
    ensures Inv(s)
  {
  }

  lemma {:induction false} InvBasics(s: State)
    requires Inv(s)
    ensures WellSized(s)
  {
    hide Offset, Pos, Tiled, Memory, Lent;
  }

  // ---- Frames ----

  lemma {:induction false} MemoryFrame(s: State, s': State)
    requires s.cap > 0 && Memory(s)
    requires s'.cap == s.cap && s'.mem == s.mem && s'.log == s.log && s'.popped == s.popped && s'.released == s.released
    ensures Memory(s')
  {
  }

  lemma {:induction false} LentFrame(s: State, s': State)
    requires s.cap > 0 && Lent(s)
    requires s'.cap == s.cap && s'.log == s.log && s'.popped == s.popped && s'.consumed == s.consumed
    requires s'.unlinked == s.unlinked && s'.active == s.active && Handling(s'.driverPc) == Handling(s.driverPc)
    ensures Lent(s')
  {
  }

  /** Other contents of the same sizes, and a longer log, leave the list and the offsets as they are. */
  lemma {:induction false} LentLater(s: State, log': seq<Slot>)
    requires s.cap > 0 && Lent(s) && |s.log| <= |log'|
    requires forall i :: 0 <= i <= |s.log| ==> Pos(log', i) == Pos(s.log, i)
    ensures Lent(s.(log := log'))
  {
    hide Offset, Pos;
    forall k | 0 <= k < |s.active| ensures NblAt(s.active[k], s.popped + k + 1, log', s.cap) {
      assert NblAt(s.active[k], s.popped + k + 1, s.log, s.cap);
    }
  }

  lemma {:induction false} TailReadLater(s: State, log': seq<Slot>)
    requires s.cap > 0 && TailRead(s) && |s.log| <= |log'|
    requires forall i :: 0 <= i <= |s.log| ==> Pos(log', i) == Pos(s.log, i)
    ensures TailRead(s.(log := log'))
  {
    hide Offset, Pos;
    if ReliesOnTail(s.driverPc) {
      var t :| SeenTail(s, t);
      assert SeenTail(s.(log := log'), t);
    }
  }

  lemma {:induction false} TailReadFrame(s: State, s': State)
    requires s.cap > 0 && TailRead(s)
    requires s'.cap == s.cap && s'.log == s.log && s'.consumed == s.consumed && s'.published >= s.published
    requires s'.ringTail == s.ringTail && (ReliesOnTail(s'.driverPc) ==> ReliesOnTail(s.driverPc))
    ensures TailRead(s')
  {
    hide Offset, Pos;
    if ReliesOnTail(s'.driverPc) {
      var t :| SeenTail(s, t);
      assert SeenTail(s', t);
    }
  }

  // ---- Allocating ----

  lemma {:induction false} AllocationFits(s: State, size: nat)
    requires Shape(s) && Offsets(s) && Head(s) && size <= MAX_IP_PACKET
    requires ClientAllocate(s.cap, s.client, s.head, size).1.Allocated?
    ensures Pos(s.log, |s.log|) + PacketSpace(size) <= s.freed + s.cap - ALIGNMENT
    ensures s.freed <= Pos(s.log, s.popped)
    ensures ClientAllocate(s.cap, s.client, s.head, size).0.tail
      == Offset(Pos(s.log, |s.log|) + PacketSpace(size), s.cap)
  {
    hide Offset, PacketSpace, Pos, Tiled;
    var last := Pos(s.log, |s.log|);
    PosMonotone(s.log, s.popped, |s.log|);
    WrapSpace(s.freed, last, s.cap);
    WrapAdd(last, PacketSpace(size), s.cap);
  }

  ghost predicate Allocates(s: State, size: nat) {
    && s.cap > 0 && size <= MAX_IP_PACKET && s.client.tail + MAX_PACKET <= |s.mem| == s.cap + SLACK
    && s.client.tail < s.cap && s.client.tailRelease < s.cap && s.ringHead < s.cap && ValidCapacity(s.cap)
    && ClientAllocate(s.cap, s.client, s.head, size).1.Allocated?
  }

  function AllocatedSlot(s: State, size: nat): Slot
    requires size <= MAX_IP_PACKET && s.client.tail + MAX_PACKET <= |s.mem|
  {
    var at := s.client.tail + PACKET_HEADER;
    Slot(Pos(s.log, |s.log|), Write32(s.mem, s.client.tail, size + RELEASE_BIT)[at..at + size], true, true)
  }

  lemma {:induction false} AllocatedLog(s: State, size: nat)
    requires Shape(s) && Offsets(s) && Head(s) && Allocates(s, size)
    ensures var log' := s.log + [AllocatedSlot(s, size)];
      Tiled(log') && Window(log', s.popped, s.cap) && forall i :: 0 <= i <= |s.log| ==> Pos(log', i) == Pos(s.log, i)
    ensures Pos(s.log + [AllocatedSlot(s, size)], |s.log| + 1) == Pos(s.log, |s.log|) + PacketSpace(size)
  {
    hide Offset, PacketSpace, ClientAllocate;
    TiledAppend(s.log, AllocatedSlot(s, size));
    AllocationFits(s, size);
  }

  lemma {:induction false} AllocateKeepsShape(s: State, size: nat)
    requires Shape(s) && Offsets(s) && Head(s) && Allocates(s, size)
    ensures Shape(AllocateStep(s, size)) && Offsets(AllocateStep(s, size)) && Head(AllocateStep(s, size))
  {
    hide Offset, PacketSpace, Pos, Tiled, Window;
    AllocatedLog(s, size);
    AllocationFits(s, size);
  }

  lemma {:induction false} NewPacketHolds(s: State, size: nat)
    requires Shape(s) && Offsets(s) && Head(s) && Allocates(s, size)
    ensures Holds(Write32(s.mem, s.client.tail, size + RELEASE_BIT), s.cap, AllocatedSlot(s, size))
  {
    hide Offset, PacketSpace, Pos, Tiled;
    ReadBack32(s.mem, s.client.tail, size + RELEASE_BIT);
  }

  lemma {:induction false} AllocateKeepsMemory(s: State, size: nat)
    requires Shape(s) && Offsets(s) && Head(s) && Memory(s) && Allocates(s, size)
    ensures Memory(AllocateStep(s, size))
  {
    hide Offset, PacketSpace, Pos, Tiled, Window, Holds, ClientAllocate;
    var slot := AllocatedSlot(s, size);
    var log' := s.log + [slot];
    AllocatedLog(s, size);
    NewPacketHolds(s, size);
    assert slot.Space() >= 4 && Offset(slot.pos, s.cap) == s.client.tail;
    WriteInSlot(s.mem, s.client.tail, LittleEndian32(size + RELEASE_BIT), s.cap, log', s.popped, |s.log|);
    forall i | s.popped <= i < |log'| ensures Holds(Write32(s.mem, s.client.tail, size + RELEASE_BIT), s.cap, log'[i]) {
      if i < |s.log| {
        assert Holds(s.mem, s.cap, log'[i]);
      }
    }
  }

  lemma {:induction false} AllocateKeepsInv(s: State, size: nat)
    requires Inv(s) && Allocates(s, size)
    ensures Inv(AllocateStep(s, size))
  {
    hide Offset, PacketSpace, Pos, Tiled, Window, Memory, ClientAllocate, Shape, Offsets, SeenTail, NblAt;
    var s' := AllocateStep(s, size);
    var log' := s.log + [AllocatedSlot(s, size)];
    AllocateKeepsShape(s, size);
    AllocateKeepsMemory(s, size);
    AllocatedLog(s, size);
    LentLater(s, log');
    LentFrame(s.(log := log'), s');
    TailReadLater(s, log');
    TailReadFrame(s.(log := log'), s');
  }

  // ---- Filling ----

  lemma {:induction false} FillKeepsMemory(s: State, i: nat, bytes: seq<byte>)
    requires Shape(s) && Memory(s) && Unsent(s, i) && |bytes| == |s.log[i].data|
    ensures Offset(s.log[i].pos, s.cap) + PACKET_HEADER + |bytes| <= |s.mem|
    ensures Memory(FillStep(s, i, bytes))
  {
    hide Offset, Pos, PacketSpace, Tiled, Window, Memory, Holds, FillStep;
    UnsentIsLive(s, i);
    ShapeIndices(s);
    SlotFits(s.log, i, s.cap);
    var mem' := Splice(s.mem, Offset(s.log[i].pos, s.cap) + PACKET_HEADER, bytes);
    HoldsData(s.mem, s.cap, s.log[i], bytes) by { HoldsSizeRead(s.mem, s.cap, s.log[i]); }
    WriteInSlot(s.mem, Offset(s.log[i].pos, s.cap) + PACKET_HEADER, bytes, s.cap, s.log, s.popped, i);
    MemoryAfterFill(s, i, bytes, mem');
  }

  lemma {:induction false} UnsentIsLive(s: State, i: nat)
    requires s.cap > 0 && Memory(s) && Unsent(s, i)
    ensures s.released <= i && s.popped <= i && Holds(s.mem, s.cap, s.log[i])
  {
  }

  lemma {:induction false} HoldsSizeRead(mem: seq<byte>, cap: nat, slot: Slot)
    requires cap > 0 && Holds(mem, cap, slot)
    ensures Offset(slot.pos, cap) + PACKET_HEADER + |slot.data| <= |mem|
    ensures Read32(mem, Offset(slot.pos, cap)) == slot.SizeWord()
  {
  }

  lemma {:induction false} MemoryAfterFill(s: State, i: nat, bytes: seq<byte>, mem': seq<byte>)
    requires s.cap > 0 && Memory(s) && s.popped <= i < |s.log| && Holds(mem', s.cap, s.log[i].(data := bytes))
    requires forall j :: s.popped <= j < |s.log| && j != i && Holds(s.mem, s.cap, s.log[j]) ==>
                           Holds(mem', s.cap, s.log[j])
    requires |bytes| == |s.log[i].data| && Offset(s.log[i].pos, s.cap) + PACKET_HEADER + |bytes| <= |s.mem|
    requires mem' == Splice(s.mem, Offset(s.log[i].pos, s.cap) + PACKET_HEADER, bytes)
    ensures Memory(FillStep(s, i, bytes))
  {
    hide Holds;
  }

  lemma {:induction false} SameShapeKeeps(s: State, log': seq<Slot>)
    requires Shape(s) && Offsets(s) && Head(s) && Lent(s) && TailRead(s) && SameShape(s.log, log')
    ensures Shape(s.(log := log')) && Offsets(s.(log := log')) && Head(s.(log := log'))
    ensures Lent(s.(log := log')) && TailRead(s.(log := log'))
  {
    hide Offset, Pos, Tiled, Lent, TailRead;
    TiledSameShape(s.log, log');
    LentLater(s, log');
    TailReadLater(s, log');
  }

  lemma {:induction false} FillKeepsInv(s: State, i: nat, bytes: seq<byte>)
    requires Inv(s) && Unsent(s, i) && |bytes| == |s.log[i].data|
    requires Offset(s.log[i].pos, s.cap) + PACKET_HEADER + |bytes| <= |s.mem|
    ensures Inv(FillStep(s, i, bytes))
  {
    hide Offset, Pos, Tiled, Window, Holds, Lent, TailRead, Splice;
    var s' := FillStep(s, i, bytes);
    FillKeepsMemory(s, i, bytes);
    SameShapeKeeps(s, s'.log);
    LentFrame(s.(log := s'.log), s');
    TailReadFrame(s.(log := s'.log), s');
  }

  // ---- Sending ----

  lemma {:induction false} SendTurn(cap: nat, c: Client, mem: seq<byte>, slot: Slot)
    requires ValidCapacity(cap) && |mem| == cap + SLACK && slot.Valid() && Holds(mem, cap, slot)
    requires c.tailRelease == Offset(slot.pos, cap) && c.packetsToRelease > 0
    ensures SendFront(cap, c, mem) ==
      if slot.marked then c
          else SendFront(cap, c.(tailRelease := Offset(slot.End(), cap), packetsToRelease := c.packetsToRelease - 1),
              mem)
  {
    hide Offset, PacketSpace;
    WrapAdd(slot.pos, slot.Space(), cap);
  }

  /** The loop of WintunSendPacket stops at the first packet not sent yet. */
  lemma {:induction false} SendFrontStops(cap: nat, c: Client, mem: seq<byte>, log: seq<Slot>, released: nat)
    requires ValidCapacity(cap) && |mem| == cap + SLACK && Tiled(log) && released <= |log|
    requires c.tailRelease == Offset(Pos(log, released), cap) && c.packetsToRelease == |log| - released
    requires forall i :: released <= i < |log| ==> Holds(mem, cap, log[i])
    ensures var c' := SendFront(cap, c, mem);
      && c'.packetsToRelease <= |log| - released
      && var r := |log| - c'.packetsToRelease;
      && c' == Client(c.tail, Offset(Pos(log, r), cap), |log| - r)
      && (forall i :: released <= i < r ==> !log[i].marked)
      && (r < |log| ==> log[r].marked)
    decreases |log| - released
  {
    hide Offset, PacketSpace, Holds;
    if released < |log| {
      var slot := log[released];
      assert slot.Valid() && Adjacent(log, released);
      SendTurn(cap, c, mem, slot);
      if !slot.marked {
        var next := c.(tailRelease := Offset(slot.End(), cap), packetsToRelease := c.packetsToRelease - 1);
        SendFrontStops(cap, next, mem, log, released + 1);
      }
    }
  }

  lemma {:induction false} MarkSentHolds(s: State, i: nat)
    requires Shape(s) && Memory(s) && Unsent(s, i)
    ensures Offset(s.log[i].pos, s.cap) + PACKET_HEADER <= |s.mem|
    ensures var mem' := MarkSent(s.mem, Offset(s.log[i].pos, s.cap) + PACKET_HEADER);
      var log' := s.log[i := s.log[i].(marked := false)];
      forall j :: s.popped <= j < |log'| ==> Holds(mem', s.cap, log'[j])
  {
    hide Offset, Pos, PacketSpace, Read32, LittleEndian32;
    var slot := s.log[i];
    SlotFits(s.log, i, s.cap);
    assert Holds(s.mem, s.cap, slot) && slot.Valid();
    HoldsSizeWord(s.mem, s.cap, slot, false);
    WriteInSlot(s.mem, Offset(slot.pos, s.cap), LittleEndian32(slot.(marked := false).SizeWord()), s.cap, s.log,
        s.popped, i);
  }

  lemma {:induction false} SendAdvances(s: State, i: nat)
    requires Shape(s) && Offsets(s) && Memory(s) && Unsent(s, i)
    ensures var s' := SendStep(s, i);
      && s.released <= s'.released <= |s.log|
      && s'.client == Client(s.client.tail, Offset(Pos(s.log, s'.released), s.cap), |s.log| - s'.released)
      && (forall j :: s.released <= j < s'.released ==> !s'.log[j].marked)
      && (s'.released < |s.log| ==> s'.log[s'.released].marked)
  {
    hide Offset, Pos, PacketSpace, Holds, SendFront, MarkSent, Tiled;
    var mem' := MarkSent(s.mem, Offset(s.log[i].pos, s.cap) + PACKET_HEADER);
    var log' := s.log[i := s.log[i].(marked := false)];
    MarkSentHolds(s, i);
    TiledSameShape(s.log, log');
    PosSameShape(s.log, log');
    assert Pos(log', s.released) == Pos(s.log, s.released);
    SendFrontStops(s.cap, s.client, mem', log', s.released);
  }

  lemma {:induction false} SendKeepsMemory(s: State, i: nat)
    requires Shape(s) && Offsets(s) && Memory(s) && Unsent(s, i)
    ensures Memory(SendStep(s, i))
  {
    hide Offset, Pos, PacketSpace, Holds, SendFront, MarkSent, Tiled;
    SendAdvances(s, i);
    MarkSentHolds(s, i);
  }

  /** The tail comparison tells exactly whether there is something new to publish. */
  lemma {:induction false} SendComparesTails(s: State, i: nat)
    requires Shape(s) && Offsets(s) && Memory(s) && Unsent(s, i)
    ensures SendStep(s, i).clientPc == if s.published < SendStep(s, i).released then TailToWrite else Unlocked
  {
    hide Offset, Pos, PacketSpace, Holds, SendFront, MarkSent, Tiled, Memory;
    SendAdvances(s, i);
    var r := SendStep(s, i).released;
    PosMonotone(s.log, s.popped, s.published);
    PosMonotone(s.log, s.published, r);
    PosMonotone(s.log, r, |s.log|);
    WrapSub(Pos(s.log, r), Pos(s.log, s.published), s.cap);
  }

  lemma {:induction false} SendKeepsShape(s: State, i: nat)
    requires Shape(s) && Offsets(s) && Head(s) && Memory(s) && Unsent(s, i)
    ensures Shape(SendStep(s, i)) && Offsets(SendStep(s, i)) && Head(SendStep(s, i))
  {
    hide Offset, Pos, PacketSpace, Holds, SendFront, MarkSent, Tiled;
    var s' := SendStep(s, i);
    SendAdvances(s, i);
    TiledSameShape(s.log, s'.log);
    PosSameShape(s.log, s'.log);
    assert Pos(s'.log, |s.log|) == Pos(s.log, |s.log|) && Pos(s'.log, s.popped) == Pos(s.log, s.popped);
    assert Pos(s'.log, s'.released) == Pos(s.log, s'.released) && Pos(s'.log, s.published) == Pos(s.log, s.published);
    assert Pos(s'.log, s.consumed) == Pos(s.log, s.consumed);
  }

  lemma {:induction false} SendKeepsInv(s: State, i: nat)
    requires Inv(s) && Unsent(s, i) && s.clientPc == Unlocked
    ensures Inv(SendStep(s, i))
  {
    hide Offset, Pos, Tiled, Window, Holds, Lent, TailRead, SendFront, MarkSent;
    var s' := SendStep(s, i);
    SendKeepsShape(s, i);
    SendKeepsMemory(s, i);
    SendComparesTails(s, i);
    assert SameShape(s.log, s'.log);
    SameShapeKeeps(s, s'.log);
    LentFrame(s.(log := s'.log), s');
    TailReadFrame(s.(log := s'.log), s');
  }

  // ---- Consuming ----

  lemma {:induction false} FetchAt(cap: nat, ringHead: nat, ringTail: nat, mem: seq<byte>, slot: Slot, end: nat)
    requires ValidCapacity(cap) && |mem| == cap + SLACK && slot.Valid() && !slot.marked && Holds(mem, cap, slot)
    requires ringHead == Offset(slot.pos, cap) && ringTail == Offset(end, cap) && slot.End() <= end < slot.pos + cap
    ensures FetchPacket(cap, ringHead, ringTail, mem) == Fetched(|slot.data|, Offset(slot.End(), cap))
    ensures var at := ringHead + PACKET_HEADER; at + |slot.data| <= |mem| && mem[at..at + |slot.data|] == slot.data
  {
    hide Offset, PacketSpace;
    WrapSub(end, slot.pos, cap);
    WrapAdd(slot.pos, slot.Space(), cap);
  }

  /**
   * The driver's checks never stop it: the next packet in allocation order is there, with the bytes the client sent.
   */
  lemma {:induction false} FetchOutcome(s: State)
    requires Shape(s) && Offsets(s) && Memory(s) && TailRead(s) && s.driverPc == HavePacket
    ensures s.consumed < s.published
    ensures FetchPacket(s.cap, s.ringHead, s.ringTail, s.mem) ==
      Fetched(|s.log[s.consumed].data|, Offset(Pos(s.log, s.consumed + 1), s.cap))
    ensures var at := s.ringHead + PACKET_HEADER;
      at + |s.log[s.consumed].data| <= |s.mem| && s.mem[at..at + |s.log[s.consumed].data|] == s.log[s.consumed].data
  {
    hide Offset, PacketSpace, Holds, FetchPacket, Pos, Tiled;
    var t :| SeenTail(s, t);
    NextPacketRange(s, t);
    assert Holds(s.mem, s.cap, s.log[s.consumed]);
    FetchAt(s.cap, s.ringHead, s.ringTail, s.mem, s.log[s.consumed], Pos(s.log, t));
  }

  lemma {:induction false} NextPacketRange(s: State, t: nat)
    requires Shape(s) && s.consumed < t <= s.published
    ensures var slot := s.log[s.consumed];
      && slot.Valid() && slot.pos == Pos(s.log, s.consumed) && slot.End() == Pos(s.log, s.consumed + 1)
      && slot.End() <= Pos(s.log, t) < slot.pos + s.cap
  {
    hide PacketSpace;
    PosMonotone(s.log, s.popped, s.consumed);
    PosMonotone(s.log, s.consumed, t);
    PosMonotone(s.log, t, |s.log|);
    assert s.log[s.consumed].Valid() && Adjacent(s.log, s.consumed);
  }

  lemma {:induction false} FetchKeepsInv(s: State)
    requires Inv(s) && s.driverPc == HavePacket
    ensures Inv(FetchStep(s))
  {
    hide Offset, Pos, Tiled, Window, Memory, FetchPacket;
    InvBasics(s);
    FetchOutcome(s);
    MemoryFrame(s, FetchStep(s));
  }

  /** Moving the indices up keeps the shape. */
  lemma {:induction false} ShapeOf(s: State, s': State)
    requires Shape(s) && s'.cap == s.cap && s'.mem == s.mem && s'.log == s.log
    requires s.popped <= s'.popped <= s'.consumed <= s'.published <= s'.released <= |s.log|
    ensures Shape(s')
  {
    hide Offset, PacketSpace, Tiled;
    PosMonotone(s.log, s.popped, s'.popped);
  }

  /** Giving up more packets keeps the head where it may be. */
  lemma {:induction false} HeadFrame(s: State, s': State)
    requires Shape(s) && Head(s) && s'.cap == s.cap && s'.log == s.log && s'.freed == s.freed
    requires s.popped <= s'.popped <= |s.log|
    requires || (s'.head == s.head && (s.driverPc == Finished ==> s'.driverPc == Finished))
             || (s'.driverPc == Finished && s'.head == MAXULONG)
    ensures Head(s')
  {
    hide Offset, PacketSpace, Tiled;
    PosMonotone(s.log, s.popped, s'.popped);
  }

  lemma {:induction false} ReadTailKeepsInv(s: State, pc: DriverPc)
    requires Inv(s) && s.driverPc in {ReadingTail, Spinning, Rechecking}
    requires pc == if s.tail == s.ringHead then (if s.driverPc == Rechecking then Blocked else Spinning)
                   else if s.driverPc == Rechecking then ClearingAlertable else HavePacket
    ensures Inv(s.(ringTail := s.tail, driverPc := pc))
  {
    hide Offset, Pos, Tiled, Window, Holds, NblAt;
    var s' := s.(ringTail := s.tail, driverPc := pc);
    HeadEqualsTail(s);
    if s.consumed < s.published {
      assert SeenTail(s', s.published);
    }
  }

  /** Comparing the offsets tells exactly whether everything published has been fetched. */
  lemma {:induction false} HeadEqualsTail(s: State)
    requires Shape(s) && Offsets(s)
    ensures s.tail == s.ringHead <==> s.consumed == s.published
  {
    hide Offset, Pos, Tiled;
    PosMonotone(s.log, s.popped, s.consumed);
    PosMonotone(s.log, s.consumed, s.published);
    PosMonotone(s.log, s.published, |s.log|);
    WrapSub(Pos(s.log, s.published), Pos(s.log, s.consumed), s.cap);
  }

  lemma {:induction false} IndicateKeepsLent(s: State)
    requires Shape(s) && Offsets(s) && Lent(s) && s.driverPc == Classifying
    ensures Lent(s.(active := s.active + [Nbl(s.ringHead, false, s.consumed)], driverPc := AtLoop))
  {
    hide Offset, Pos, Tiled;
  }

  lemma {:induction false} IndicateKeepsInv(s: State)
    requires Inv(s) && s.driverPc == Classifying
    ensures Inv(s.(active := s.active + [Nbl(s.ringHead, false, s.consumed)], driverPc := AtLoop))
  {
    hide Offset, Pos, Tiled, Window, Memory, Lent;
    IndicateKeepsLent(s);
    MemoryFrame(s, s.(active := s.active + [Nbl(s.ringHead, false, s.consumed)], driverPc := AtLoop));
  }

  lemma {:induction false} WriteHeadKeepsInv(s: State)
    requires Inv(s) && s.driverPc == WritingHead
    ensures Inv(WriteHeadStep(s))
  {
    hide Offset, Pos, Tiled, Window, Holds, Shape, NblAt;
    ShapeIndices(s);
    assert Shape(WriteHeadStep(s)) by { ShapeOf(s, WriteHeadStep(s)); }
    WindowOf(WriteHeadStep(s));
  }

  lemma {:induction false} WindowOf(s: State)
    requires Shape(s)
    ensures s.popped <= |s.log| && Pos(s.log, |s.log|) <= Pos(s.log, s.popped) + s.cap - ALIGNMENT
  {
    hide Tiled, Pos;
  }

  lemma {:induction false} ShapeIndices(s: State)
    requires Shape(s)
    ensures s.popped <= s.consumed <= s.published <= s.released <= |s.log|
  {
  }

  // ---- Returning ----

  lemma {:induction false} ReturnKeepsInv(s: State, k: nat)
    requires Inv(s) && k < |s.active| && !s.active[k].completed
    ensures Inv(s.(active := s.active[k := s.active[k].(completed := true)], popping := s.popping + 1))
  {
    hide Offset, Pos, Tiled, Window, Memory, Shape, SeenTail;
    var s' := s.(active := s.active[k := s.active[k].(completed := true)], popping := s.popping + 1);
    MemoryFrame(s, s');
    TailReadFrame(s, s');
    ShapeIndices(s);
    HeadFrame(s, s');
    assert Shape(s') by { ShapeOf(s, s'); }
    forall j | 0 <= j < |s'.active| ensures NblAt(s'.active[j], s.popped + j + 1, s.log, s.cap) {
      assert NblAt(s.active[j], s.popped + j + 1, s.log, s.cap);
    }
  }

  lemma {:induction false} UnlinkKeepsLent(s: State)
    requires s.cap > 0 && Lent(s) && s.active != []
    ensures s.active[0].upTo == s.popped + 1 <= s.consumed && Lent(UnlinkStep(s))
  {
    hide Offset, Pos;
    assert NblAt(s.active[0], s.popped + 0 + 1, s.log, s.cap);
    var s' := UnlinkStep(s);
    forall k | 0 <= k < |s'.active| ensures NblAt(s'.active[k], s'.popped + k + 1, s.log, s.cap) {
      assert NblAt(s.active[k + 1], s.popped + (k + 1) + 1, s.log, s.cap);
    }
  }

  lemma {:induction false} UnlinkKeepsInv(s: State)
    requires Inv(s) && s.popping > 0 && s.unlinked.None? && s.active != [] && s.active[0].completed
    ensures Inv(UnlinkStep(s))
  {
    hide Offset, Pos, Tiled, Window, Holds, Shape, SeenTail, Lent;
    var s' := UnlinkStep(s);
    UnlinkKeepsLent(s);
    TailReadFrame(s, s');
    ShapeIndices(s);
    HeadFrame(s, s');
    assert Shape(s') by { ShapeOf(s, s'); }
  }

  /** A head at this offset gives clients no more space than there is: a lap from what has been given up on. */
  ghost predicate Allows(s: State, offset: nat) {
    && s.cap > 0 && s.popped <= |s.log|
    && RingWrap(offset - s.client.tail - ALIGNMENT, s.cap) + Pos(s.log, |s.log|)
       <= Pos(s.log, s.popped) + s.cap - ALIGNMENT
  }

  /** A return about to write the head may have been overtaken; clients must not see space where there is none. */
  ghost predicate SafeWrite(s: State, e: Event) {
    e.WritePopped? && s.unlinked.Some? ==> Allows(s, s.unlinked.value.offset)
  }

  lemma {:induction false} WritePoppedKeepsHead(s: State)
    requires Shape(s) && Offsets(s) && Head(s) && Lent(s) && s.unlinked.Some?
    ensures Head(WritePoppedStep(s)) <==> SafeWrite(s, WritePopped)
  {
    hide Offset, Pos, Tiled, RingWrap, LastAt;
    var earlier, given, tail := Pos(s.log, s.unlinked.value.upTo), Pos(s.log, s.popped), Pos(s.log, |s.log|);
    PosMonotone(s.log, s.unlinked.value.upTo, s.popped);
    PosMonotone(s.log, s.popped, |s.log|);
    LastAtIs(given, earlier, s.cap);
    SpaceAllowedExactly(earlier, given, tail, s.cap);
  }

  lemma {:induction false} WritePoppedKeepsInv(s: State)
    requires Inv(s) && s.unlinked.Some?
    ensures Inv(WritePoppedStep(s)) <==> SafeWrite(s, WritePopped)
  {
    hide Offset, Pos, Tiled, Window, Memory, Shape, SeenTail, LastAt, Head, SafeWrite;
    var s' := WritePoppedStep(s);
    ShapeIndices(s);
    WritePoppedKeepsHead(s);
    MemoryFrame(s, s');
    TailReadFrame(s, s');
    assert Shape(s') by { ShapeOf(s, s'); }
  }

  // ---- Every step ----

  /** The steps that move only program counters and flags: of clients and returners, */
  predicate OthersMove(e: Event) {
    e.ReadAlertable? || e.SignalTailMoved? || e.Disconnect? || e.PopDone?
  }

  /** of the driver's thread around the wake-up, */
  predicate WakeupMoves(e: Event) {
    || e.CheckDisconnected? || e.SpinEnds? || e.SetAlertable? || e.WakeDisconnected? || e.WakeTailMoved?
    || e.ClearAlertable? || e.ClearTailMoved?
  }

  /** and of the driver's thread waiting for the active list to be empty, with the invalidation at the very end. */
  predicate WaitMoves(e: Event) {
    e.Skip? || e.SeeEmpty? || e.WriteMaxHead?
  }

  predicate Moves(e: Event) {
    OthersMove(e) || WakeupMoves(e) || WaitMoves(e)
  }

  lemma {:induction false} HandshakeStepKeepsInv(s: State, e: Event)
    requires Inv(s) && WellSized(s) && Enabled(s, e) && Moves(e)
    ensures Inv(Step(s, e))
  {
    hide Step, Enabled, Moves, Shape, Memory, Lent, TailRead, Offsets, Head, Delivered, Threads, Wakeup;
    var s' := Step(s, e);
    MovesOnlyCounters(s, e);
    ShapeIndices(s);
    MemoryFrame(s, s');
    LentFrame(s, s');
    TailReadFrame(s, s');
    ShapeOf(s, s');
    HeadFrame(s, s');
    OffsetsFrame(s, s');
    DeliveredFrame(s, s');
    HandshakeKeepsThreads(s, e);
    HandshakeKeepsWakeup(s, e);
  }

  ghost predicate OnlyCounters(s: State, s': State) {
    && s'.cap == s.cap && s'.mem == s.mem && s'.log == s.log && s'.client == s.client && s'.tail == s.tail
    && s'.ringHead == s.ringHead && s'.active == s.active && s'.delivered == s.delivered
    && s'.freed == s.freed && s'.popped == s.popped && s'.unlinked == s.unlinked
    && s'.consumed == s.consumed && s'.published == s.published && s'.released == s.released
    && Handling(s'.driverPc) == Handling(s.driverPc)
    && s'.ringTail == s.ringTail && (ReliesOnTail(s'.driverPc) ==> ReliesOnTail(s.driverPc))
    && ((s'.head == s.head && (s.driverPc == Finished ==> s'.driverPc == Finished))
        || (s'.driverPc == Finished && s'.head == MAXULONG))
  }

  lemma {:induction false} MovesOnlyCounters(s: State, e: Event)
    requires WellSized(s) && Enabled(s, e) && Moves(e)
    ensures OnlyCounters(s, Step(s, e))
  {
    hide Enabled, Step, OnlyCounters, WellSized, OthersMove, WakeupMoves, WaitMoves;
    if OthersMove(e) {
      OthersMoveCounters(s, e);
    } else if WakeupMoves(e) {
      WakeupMovesCounters(s, e);
    } else {
      WaitMovesCounters(s, e);
    }
  }

  lemma {:induction false} OthersMoveCounters(s: State, e: Event)
    requires WellSized(s) && Enabled(s, e) && OthersMove(e)
    ensures OnlyCounters(s, Step(s, e))
  {
    hide Offset, WellSized;
  }

  lemma {:induction false} WakeupMovesCounters(s: State, e: Event)
    requires WellSized(s) && Enabled(s, e) && WakeupMoves(e)
    ensures OnlyCounters(s, Step(s, e))
  {
    hide Offset, WellSized;
  }

  lemma {:induction false} WaitMovesCounters(s: State, e: Event)
    requires WellSized(s) && Enabled(s, e) && WaitMoves(e)
    ensures OnlyCounters(s, Step(s, e))
  {
    hide Offset, WellSized, FetchedBytes, IsIp;
  }

  lemma {:induction false} HandshakeKeepsThreads(s: State, e: Event)
    requires WellSized(s) && Enabled(s, e) && Moves(e) && Threads(s)
    ensures Threads(Step(s, e))
  {
    hide Enabled, Step, Threads, WellSized, OthersMove, WakeupMoves, WaitMoves;
    if OthersMove(e) {
      OthersKeepThreads(s, e);
    } else if WakeupMoves(e) {
      WakeupKeepsThreads(s, e);
    } else {
      WaitKeepsThreads(s, e);
    }
  }

  lemma {:induction false} OthersKeepThreads(s: State, e: Event)
    requires WellSized(s) && Enabled(s, e) && OthersMove(e) && Threads(s)
    ensures Threads(Step(s, e))
  {
    hide Offset, WellSized;
  }

  lemma {:induction false} WakeupKeepsThreads(s: State, e: Event)
    requires WellSized(s) && Enabled(s, e) && WakeupMoves(e) && Threads(s)
    ensures Threads(Step(s, e))
  {
    hide Offset, WellSized;
  }

  lemma {:induction false} WaitKeepsThreads(s: State, e: Event)
    requires WellSized(s) && Enabled(s, e) && WaitMoves(e) && Threads(s)
    ensures Threads(Step(s, e))
  {
    hide Offset, WellSized, FetchedBytes, IsIp;
  }

  lemma {:induction false} HandshakeKeepsWakeup(s: State, e: Event)
    requires WellSized(s) && Enabled(s, e) && Moves(e) && Threads(s) && Wakeup(s)
    ensures Wakeup(Step(s, e))
  {
    hide Enabled, Step, Threads, Wakeup, WellSized, OthersMove, WakeupMoves, WaitMoves;
    if OthersMove(e) {
      OthersKeepWakeup(s, e);
    } else if WakeupMoves(e) {
      WakeupKeepsWakeup(s, e);
    } else {
      WaitKeepsWakeup(s, e);
    }
  }

  lemma {:induction false} OthersKeepWakeup(s: State, e: Event)
    requires WellSized(s) && Enabled(s, e) && OthersMove(e) && Threads(s) && Wakeup(s)
    ensures Wakeup(Step(s, e))
  {
    hide Offset, WellSized;
  }

  lemma {:induction false} WakeupKeepsWakeup(s: State, e: Event)
    requires WellSized(s) && Enabled(s, e) && WakeupMoves(e) && Threads(s) && Wakeup(s)
    ensures Wakeup(Step(s, e))
  {
    hide Offset, WellSized;
  }

  lemma {:induction false} WaitKeepsWakeup(s: State, e: Event)
    requires WellSized(s) && Enabled(s, e) && WaitMoves(e) && Threads(s) && Wakeup(s)
    ensures Wakeup(Step(s, e))
  {
    hide Offset, WellSized, FetchedBytes, IsIp;
  }

  lemma {:induction false} OffsetsFrame(s: State, s': State)
    requires s.cap > 0 && s.popped <= s.consumed <= s.published <= s.released <= |s.log| && Offsets(s)
    requires s'.cap == s.cap && s'.log == s.log && s'.client == s.client && s'.tail == s.tail
    requires s'.ringHead == s.ringHead
    requires s'.popped == s.popped && s'.consumed == s.consumed && s'.published == s.published
    requires s'.released == s.released
    ensures Offsets(s')
  {
  }

  lemma {:induction false} DeliveredFrame(s: State, s': State)
    requires Delivered(s)
    requires s'.delivered == s.delivered && s'.log == s.log && s'.consumed == s.consumed && s'.released == s.released
    ensures Delivered(s')
  {
  }

  lemma {:induction false} WriteTailKeepsInv(s: State)
    requires Inv(s) && s.clientPc == TailToWrite
    ensures Inv(s.(tail := s.client.tailRelease, published := s.released, clientPc := AlertableToRead))
  {
    hide Offset, Pos, Tiled, Window, Memory, Lent, Shape, SeenTail;
    var s' := s.(tail := s.client.tailRelease, published := s.released, clientPc := AlertableToRead);
    ShapeIndices(s);
    assert Shape(s') by { ShapeOf(s, s'); }
    MemoryFrame(s, s');
    LentFrame(s, s');
    TailReadFrame(s, s');
  }

  /** Every step keeps the invariant, the write of the ring's head by a returner if clients see no space too many. */
  lemma {:induction false} StepKeepsInv(s: State, e: Event)
    requires Inv(s) && WellSized(s) && Enabled(s, e) && SafeWrite(s, e)
    ensures Inv(Step(s, e))
  {
    hide Offset, Pos, Inv, AllocateStep, FillStep, SendStep, FetchStep, Unsent, IsIp;
    match e
    case Allocate(size) => AllocateOrNot(s, size);
    case Fill(i, bytes) => FillKeepsInv(s, i, bytes);
    case Send(i) => SendKeepsInv(s, i);
    case WriteTail => WriteTailKeepsInv(s);
    case ReadTail => ReadTailKeepsInv(s, Step(s, e).driverPc);
    case SpinRead => ReadTailKeepsInv(s, Step(s, e).driverPc);
    case Recheck => ReadTailKeepsInv(s, Step(s, e).driverPc);
    case FetchNext => FetchKeepsInv(s);
    case Indicate => IndicateKeepsInv(s);
    case WriteHead => WriteHeadKeepsInv(s);
    case ReturnNbl(k) => ReturnKeepsInv(s, k);
    case Unlink => UnlinkKeepsInv(s);
    case WritePopped => WritePoppedKeepsInv(s);
    case _ => HandshakeStepKeepsInv(s, e);
  }

  lemma {:induction false} AllocateOrNot(s: State, size: nat)
    requires Inv(s) && WellSized(s) && size <= MAX_IP_PACKET && s.client.tail + MAX_PACKET <= |s.mem|
    ensures Inv(AllocateStep(s, size))
  {
    hide Offset, Pos, Inv, PacketSpace;
    if Allocates(s, size) {
      AllocateKeepsInv(s, size);
    }
  }
}
