/**
 * What the receive ring guarantees over every run, whatever the interleaving of clients, driver and returners, as long
 * as no returner writes a head that shows clients more space than there is. ReceiveRingReturns says when that cannot
 * happen, and what happens when it does.
 */
module ReceiveRingTheorems {
  import opened Words
  import opened RingLayout
  import opened ReceiveRing
  import opened ReceiveRingInvariant

  ghost predicate Next(s: State, e: Event, s': State) {
    WellSized(s) && Enabled(s, e) && SafeWrite(s, e) && s' == Step(s, e)
  }

  ghost predicate IsRun(states: seq<State>, events: seq<Event>) {
    && |states| == |events| + 1
    && Init(states[0])
    && forall k :: 0 <= k < |events| ==> Next(states[k], events[k], states[k + 1])
  }

  lemma {:induction false} RunKeepsInv(states: seq<State>, events: seq<Event>, k: nat)
    requires IsRun(states, events) && k < |states|
    ensures Inv(states[k])
    decreases k
  {
    hide Init, Enabled, Step, Inv;
    if k == 0 {
      InitInv(states[0]);
    } else {
      RunKeepsInv(states, events, k - 1);
      assert Next(states[k - 1], events[k - 1], states[k]);
      StepKeepsInv(states[k - 1], events[k - 1]);
    }
  }

  ghost predicate Reachable(s: State) {
    exists states, events :: IsRun(states, events) && states[|events|] == s
  }

  lemma {:induction false} ReachableInv(s: State)
    requires Reachable(s)
    ensures Inv(s)
  {
    hide Init, Enabled, Step, Inv, Next;
    var states, events :| IsRun(states, events) && states[|events|] == s;
    RunKeepsInv(states, events, |events|);
  }

  lemma {:induction false} RunReaches(states: seq<State>, events: seq<Event>, k: nat)
    requires IsRun(states, events) && k < |states|
    ensures Reachable(states[k])
  {
    hide Init, Enabled, Step, Next;
    var first, steps := states[..k + 1], events[..k];
    forall i | 0 <= i < k
      ensures Next(first[i], steps[i], first[i + 1])
    {
      assert Next(states[i], events[i], states[i + 1]);
    }
    assert IsRun(first, steps);
  }

  // ---- Delivery ----

  /** A packet that has been sent is final, and every packet keeps its place in the order of allocation. */
  lemma {:induction false} SentIsFinal(s: State, e: Event, s': State, i: nat)
    requires Next(s, e, s') && i < |s.log|
    ensures |s.log| <= |s'.log| && s'.log[i].pos == s.log[i].pos && |s'.log[i].data| == |s.log[i].data|
    ensures !s.log[i].marked ==> s'.log[i] == s.log[i]
    ensures s.delivered <= s'.delivered
  {
    hide Enabled, Step, SafeWrite, WellSized;
    if e.Allocate? || e.FetchNext? {
      GrowingIsFinal(s, e);
    } else if e.Fill? || e.Send? {
      WritingIsFinal(s, e, i);
    } else {
      OtherStepsKeepLog(s, e);
    }
  }

  lemma {:induction false} GrowingIsFinal(s: State, e: Event)
    requires WellSized(s) && Enabled(s, e) && (e.Allocate? || e.FetchNext?)
    ensures s.log <= Step(s, e).log && s.delivered <= Step(s, e).delivered && (e.FetchNext? ==> Step(s, e).log == s.log)
  {
    hide Offset, Pos, ClientAllocate, FetchPacket, PacketSpace;
  }

  lemma {:induction false} WritingIsFinal(s: State, e: Event, i: nat)
    requires WellSized(s) && Enabled(s, e) && (e.Fill? || e.Send?) && i < |s.log|
    ensures var s' := Step(s, e);
      && |s'.log| == |s.log| && s'.delivered == s.delivered
      && s'.log[i].pos == s.log[i].pos && |s'.log[i].data| == |s.log[i].data|
      && (!s.log[i].marked ==> s'.log[i] == s.log[i])
  {
    hide Offset, SendFront, MarkSent, PacketSpace;
  }

  lemma {:induction false} OtherStepsKeepLog(s: State, e: Event)
    requires WellSized(s) && Enabled(s, e) && !(e.Allocate? || e.Fill? || e.Send? || e.FetchNext?)
    ensures Step(s, e).log == s.log && Step(s, e).delivered == s.delivered
  {
    hide Enabled, Step, WellSized, OthersMove, WakeupMoves, WaitMoves;
    if Moves(e) {
      MovesOnlyCounters(s, e);
    } else {
      ActsKeepLog(s, e);
    }
  }

  lemma {:induction false} ActsKeepLog(s: State, e: Event)
    requires WellSized(s) && Enabled(s, e) && !Moves(e) && !(e.Allocate? || e.Fill? || e.Send? || e.FetchNext?)
    ensures Step(s, e).log == s.log && Step(s, e).delivered == s.delivered
  {
    hide Offset, WellSized, IsIp, FetchedBytes, Position, LastAt;
  }

  /**
   * End to end: at every moment of every run the driver has consumed exactly a prefix of the packets in the order they
   * were allocated, each one sent by then and with the bytes it had when it was sent, whatever order they were sent in.
   */
  lemma {:induction false} ConsumedInAllocationOrder(states: seq<State>, events: seq<Event>, j: nat, k: nat, i: nat)
    requires IsRun(states, events) && j <= k < |states| && i < states[j].consumed
    ensures i < |states[j].log| && !states[j].log[i].marked
    ensures i < |states[k].delivered| && i < |states[k].log|
    ensures states[k].delivered[i] == states[k].log[i].data && states[k].log[i] == states[j].log[i]
    decreases k
  {
    hide Init, Enabled, Step, Inv;
    RunKeepsInv(states, events, k);
    RunKeepsInv(states, events, j);
    DeliveredPrefix(states[j]);
    DeliveredPrefix(states[k]);
    if j < k {
      ConsumedInAllocationOrder(states, events, j, k - 1, i);
      RunKeepsInv(states, events, k - 1);
      DeliveredPrefix(states[k - 1]);
      assert Next(states[k - 1], events[k - 1], states[k]);
      SentIsFinal(states[k - 1], events[k - 1], states[k], i);
    }
  }

  lemma {:induction false} DeliveredPrefix(s: State)
    requires Inv(s)
    ensures |s.delivered| == s.consumed <= s.published <= s.released <= |s.log|
    ensures forall i :: 0 <= i < s.consumed ==> s.delivered[i] == s.log[i].data
    ensures forall i :: 0 <= i < s.released ==> !s.log[i].marked
  {
    hide Tiled, Holds, Offset, Pos;
  }

  /** The driver's checks never fail on what the client published: it leaves its loop only when disconnected. */
  lemma {:induction false} DriverStopsOnlyWhenDisconnected(s: State, e: Event, s': State)
    requires Reachable(s) && Next(s, e, s') && s.driverPc != Draining && s'.driverPc == Draining
    ensures s.disconnected && e == CheckDisconnected
  {
    hide Offset, Pos, Shape, Offsets, Memory, Lent, Delivered, TailRead, Enabled, Step, WellSized;
    hide FetchPacket, PacketSpace, Reachable;
    ReachableInv(s);
    OnlyTheseDrain(s, e);
    if e.FetchNext? {
      FetchesOn(s);
    }
  }

  lemma {:induction false} OnlyTheseDrain(s: State, e: Event)
    requires WellSized(s) && Enabled(s, e) && s.driverPc != Draining && Step(s, e).driverPc == Draining
    ensures e.FetchNext? || (e == CheckDisconnected && s.disconnected)
  {
    hide WellSized, Offset, Pos, ClientAllocate, SendFront, MarkSent, FetchStep, IsIp, FetchedBytes, Unsent;
  }

  lemma {:induction false} FetchesOn(s: State)
    requires Inv(s) && WellSized(s) && Enabled(s, FetchNext)
    ensures Step(s, FetchNext).driverPc == Classifying
  {
    hide Offset, Pos, FetchPacket, Tiled, Window, Holds, Lent, Delivered;
    FetchOutcome(s);
  }

  /** Once every allocation has been sent, and no client is between its two locked writes, nothing is held back. */
  lemma {:induction false} AllSentMeansAllPublished(s: State)
    requires Reachable(s) && s.clientPc != TailToWrite
    requires forall i :: 0 <= i < |s.log| ==> !s.log[i].marked
    ensures s.published == s.released == |s.log|
    ensures s.tail == s.client.tailRelease == s.client.tail && s.client.packetsToRelease == 0
  {
    hide Tiled, Holds, Offset, Pos, Lent, TailRead, IsRun;
    ReachableInv(s);
  }

  // ---- Space ----

  /**
   * The cursors never overtake one another: as positions before wrapping, the ring's Head, what has been given up, the
   * driver's head, the ring's Tail, TailRelease and the client's Tail come in this order and within one lap less an
   * alignment unit.
   */
  lemma {:induction false} CursorsInOrder(s: State)
    requires Reachable(s)
    ensures s.cap > 0 && s.popped <= s.consumed <= s.published <= s.released <= |s.log|
    ensures s.freed <= Pos(s.log, s.popped) <= Pos(s.log, s.consumed) <= Pos(s.log, s.published)
    ensures Pos(s.log, s.published) <= Pos(s.log, s.released) <= Pos(s.log, |s.log|)
    ensures Pos(s.log, |s.log|) <= s.freed + s.cap - ALIGNMENT
    ensures s.head == Offset(s.freed, s.cap) || (s.head == MAXULONG && s.driverPc == Finished)
    ensures s.ringHead == Offset(Pos(s.log, s.consumed), s.cap) && s.tail == Offset(Pos(s.log, s.published), s.cap)
    ensures s.client.tailRelease == Offset(Pos(s.log, s.released), s.cap)
    ensures s.client.tail == Offset(Pos(s.log, |s.log|), s.cap)
  {
    hide Offset, Pos, Tiled, Memory, Lent, Delivered, TailRead, IsRun;
    ReachableInv(s);
    PosMonotone(s.log, s.popped, s.consumed);
    PosMonotone(s.log, s.consumed, s.published);
    PosMonotone(s.log, s.published, s.released);
    PosMonotone(s.log, s.released, |s.log|);
  }

  /**
   * WintunAllocateSendPacket in any reachable state: it reports end of file exactly after the head was invalidated, a
   * full ring exactly when the packet does not fit within the lap from the head, and otherwise returns the place behind
   * the last packet.
   */
  lemma {:induction false} AllocateOutcome(s: State, size: nat)
    requires Reachable(s) && size <= MAX_IP_PACKET
    ensures s.cap > 0
    ensures var r := ClientAllocate(s.cap, s.client, s.head, size).1;
      && (r == EndOfFile <==> s.head == MAXULONG)
      && (s.head != MAXULONG ==>
            (r == BufferOverflow <==> Pos(s.log, |s.log|) + PacketSpace(size) > s.freed + s.cap - ALIGNMENT))
      && (r.Allocated? ==> r.at == Offset(Pos(s.log, |s.log|), s.cap) + PACKET_HEADER)
  {
    hide Offset, Pos, PacketSpace, Tiled, Memory, Lent, Delivered, TailRead, IsRun, RingWrap;
    ReachableInv(s);
    PosMonotone(s.log, s.popped, |s.log|);
    WrapSpace(s.freed, Pos(s.log, |s.log|), s.cap);
  }

  /** Every packet behind the ring's head lies in the allocated data area, and no two of them share a byte. */
  lemma {:induction false} LivePacketsDisjoint(s: State, i: nat, j: nat)
    requires Reachable(s) && i < j < |s.log| && s.freed <= s.log[i].pos
    ensures s.cap > 0
    ensures var a, b := Offset(s.log[i].pos, s.cap), Offset(s.log[j].pos, s.cap);
      && a + s.log[i].Space() <= s.cap + SLACK && b + s.log[j].Space() <= s.cap + SLACK
      && (a + s.log[i].Space() <= b || b + s.log[j].Space() <= a)
  {
    hide Offset, Pos, PacketSpace, Offsets, Memory, Lent, Delivered, TailRead, Threads, IsRun;
    ReachableInv(s);
    SlotFits(s.log, i, s.cap);
    SlotFits(s.log, j, s.cap);
    PosMonotone(s.log, j, |s.log|);
    assert s.log[i].End() <= s.log[j].pos && s.log[j].End() <= s.log[i].pos + s.cap;
    RangesDisjoint(s.log[i].pos, s.log[i].Space(), s.log[j].pos, s.log[j].Space(), s.cap);
  }

  /**
   * The ring's head never passes the start of a packet still lent to NDIS. It is at the start of the first packet on
   * the active list, unless a returner has yet to write it or wrote it after the driver did; and with no returner at
   * work that packet is one NDIS still holds.
   */
  lemma {:induction false} HeadStaysBehindLent(s: State, k: nat)
    requires Reachable(s) && k < |s.active|
    ensures s.cap > 0 && s.popped < s.active[k].upTo <= s.consumed <= |s.log| && 0 < s.active[0].upTo <= |s.log|
    ensures s.head == Offset(s.freed, s.cap) && s.freed <= Pos(s.log, s.active[k].upTo - 1)
    ensures s.freed == Pos(s.log, s.popped) ==> s.head == Offset(Pos(s.log, s.active[0].upTo - 1), s.cap)
    ensures s.popping == 0 ==> !s.active[0].completed
  {
    hide Tiled, Holds, Offset, Pos, TailRead, Delivered, IsRun;
    ReachableInv(s);
    assert NblAt(s.active[k], s.popped + k + 1, s.log, s.cap) && NblAt(s.active[0], s.popped + 0 + 1, s.log, s.cap);
    PosMonotone(s.log, s.popped, s.popped + k);
  }

  /** While NDIS holds a packet no step of anyone changes its bytes or frees its space. */
  lemma {:induction false} LentPacketUntouched(s: State, e: Event, s': State, k: nat)
    requires Reachable(s) && Next(s, e, s') && k < |s.active| && !s.active[k].completed
    ensures var i := s.active[k].upTo - 1;
      && 0 <= i < |s.log| && i < |s'.log| && s'.popped <= i && s'.freed <= s'.log[i].pos && s.cap > 0
      && var at := Offset(s.log[i].pos, s.cap) + PACKET_HEADER;
        var end := at + |s.log[i].data|;
        end <= |s.mem| == |s'.mem| && s'.mem[at..end] == s.mem[at..end]
  {
    hide Offset, Pos, PacketSpace, Enabled, Step, Inv, IsRun;
    ReachableInv(s);
    LentSlot(s, k);
    var i := s.active[k].upTo - 1;
    LentNotFreed(s, e, k);
    StepKeepsInv(s, e);
    SentIsFinal(s, e, s', i);
    GivenUpBefore(s', i);
    SlotInMemory(s, i);
    SlotInMemory(s', i);
    StepKeepsCapacity(s, e);
  }

  lemma {:induction false} GivenUpBefore(s: State, i: nat)
    requires Inv(s) && s.popped <= i < |s.log|
    ensures s.freed <= s.log[i].pos
  {
    hide Tiled, Holds, Offset, Pos, Window;
    PosMonotone(s.log, s.popped, i);
    PosOfSlot(s.log, i);
  }

  lemma {:induction false} StepKeepsCapacity(s: State, e: Event)
    requires WellSized(s) && Enabled(s, e)
    ensures Step(s, e).cap == s.cap
  {
    hide Offset, Pos, ClientAllocate, SendFront, MarkSent, FetchPacket, PacketSpace;
  }

  lemma {:induction false} LentSlot(s: State, k: nat)
    requires Inv(s) && k < |s.active|
    ensures s.popped < s.active[k].upTo <= |s.log| && s.cap > 0 && !s.log[s.active[k].upTo - 1].marked
  {
    hide Tiled, Holds, Offset, Pos, TailRead, Delivered;
    assert NblAt(s.active[k], s.popped + k + 1, s.log, s.cap);
  }

  lemma {:induction false} SlotInMemory(s: State, i: nat)
    requires Inv(s) && s.popped <= i < |s.log|
    ensures |s.mem| == s.cap + SLACK && s.cap > 0
    ensures var at := Offset(s.log[i].pos, s.cap) + PACKET_HEADER;
      at + |s.log[i].data| <= |s.mem| && s.mem[at..at + |s.log[i].data|] == s.log[i].data
  {
    hide Tiled, Offset, Pos, Lent;
    assert Holds(s.mem, s.cap, s.log[i]);
  }

  lemma {:induction false} LentNotFreed(s: State, e: Event, k: nat)
    requires Inv(s) && WellSized(s) && Enabled(s, e) && k < |s.active| && !s.active[k].completed
    ensures Step(s, e).popped < s.active[k].upTo
  {
    hide Step, Enabled, Inv;
    LentSlot(s, k);
    if e.Unlink? || e.WriteHead? {
      GivesUpFront(s, e, k);
    } else {
      OthersGiveUpNothing(s, e);
    }
  }

  lemma {:induction false} GivesUpFront(s: State, e: Event, k: nat)
    requires Inv(s) && WellSized(s) && Enabled(s, e) && (e.Unlink? || e.WriteHead?)
    requires k < |s.active| && !s.active[k].completed
    ensures Step(s, e).popped < s.active[k].upTo
  {
    hide Tiled, Holds, Offset, Pos, TailRead, Delivered, Memory, Shape;
    assert NblAt(s.active[k], s.popped + k + 1, s.log, s.cap) && NblAt(s.active[0], s.popped + 0 + 1, s.log, s.cap);
  }

  lemma {:induction false} OthersGiveUpNothing(s: State, e: Event)
    requires WellSized(s) && Enabled(s, e) && !e.Unlink? && !e.WriteHead?
    ensures Step(s, e).popped == s.popped
  {
    hide Offset, ClientAllocate, SendFront, MarkSent, FetchPacket, PacketSpace, WellSized, IsIp, FetchedBytes, Unsent;
    hide Position;
  }

  // ---- The wake-up ----

  /**
   * No wake-up is lost: whenever the driver's thread is blocked although the ring's tail differs from its head, the
   * event is set, or a client that wrote the tail is still to read Alertable, which is set, or is about to set the
   * event.
   */
  lemma {:induction false} NoLostWakeup(s: State)
    requires Reachable(s) && s.driverPc == Blocked && s.ringHead != s.tail
    ensures s.alertable && (s.tailMoved || WillSignal(s))
  {
    hide Tiled, Holds, Offset, Pos, TailRead, Delivered, Lent, IsRun;
    ReachableInv(s);
    HeadEqualsTail(s);
  }

  /** How many steps of its own a client is away from setting the event for a blocked driver. */
  function StepsToSignal(s: State): nat {
    if s.clientPc == AlertableToRead then 2 else if s.clientPc == EventToSet then 1 else 0
  }

  /** The steps of the client thread that holds the lock. */
  predicate ByLockHolder(e: Event) {
    e.WriteTail? || e.ReadAlertable? || e.SignalTailMoved?
  }

  /**
   * The client goes through with it: as long as the driver stays blocked, each of its steps brings it nearer to the
   * event, one of them is always possible, nobody else's step takes it away from there, and the last one sets the
   * event.
   */
  lemma {:induction false} ClientSignalsBlockedDriver(s: State, e: Event, s': State)
    requires Reachable(s) && Next(s, e, s') && s.driverPc == Blocked && s.ringHead != s.tail && !s.tailMoved
    ensures 1 <= StepsToSignal(s) <= 2
    ensures WellSized(s) && Enabled(s, if StepsToSignal(s) == 2 then ReadAlertable else SignalTailMoved)
    ensures ByLockHolder(e) ==> StepsToSignal(s') == StepsToSignal(s) - 1
    ensures ByLockHolder(e) && StepsToSignal(s) == 1 ==> s'.tailMoved
    ensures !ByLockHolder(e) ==> StepsToSignal(s') == StepsToSignal(s)
    ensures e != WakeDisconnected ==> s'.driverPc == Blocked
  {
    hide Tiled, Holds, Offset, Pos, TailRead, Delivered, Lent, ClientAllocate, SendFront, MarkSent, FetchPacket;
    hide PacketSpace, IsRun;
    ReachableInv(s);
    NoLostWakeup(s);
  }
}
