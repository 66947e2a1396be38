/** What the send ring guarantees over every run, whatever the interleaving of senders, takers and releasers. */
module SendRingTheorems {
  import opened Words
  import opened RingLayout
  import opened SendRing
  import opened SendRingInvariant

  ghost predicate Next(s: State, e: Event, s': State) {
    ValidCapacity(s.cap) && |s.mem| == s.cap + SLACK && Enabled(s, e) && s' == Step(s, e)
  }

  ghost predicate IsRun(states: seq<State>, events: seq<Event>) {
    && |states| == |events| + 1
    && Init(states[0])
    && forall k :: 0 <= k < |events| ==> Next(states[k], events[k], states[k + 1])
  }

  lemma {:induction false} RunKeepsInv(states: seq<State>, events: seq<Event>, k: nat)
    requires IsRun(states, events) && k < |states|
    ensures Inv(states[k])
    decreases k
  {
    if k == 0 {
      InitInv(states[0]);
    } else {
      RunKeepsInv(states, events, k - 1);
      assert Next(states[k - 1], events[k - 1], states[k]);
      StepKeepsInv(states[k - 1], events[k - 1]);
    }
  }

  ghost predicate Reachable(s: State) {
    exists states, events :: IsRun(states, events) && states[|events|] == s
  }

  lemma {:induction false} ReachableInv(s: State)
    requires Reachable(s)
    ensures Inv(s)
  {
    hide Init, Enabled, Step, Inv, Next;
    var states, events :| IsRun(states, events) && states[|events|] == s;
    RunKeepsInv(states, events, |events|);
  }

  lemma {:induction false} RunReaches(states: seq<State>, events: seq<Event>, k: nat)
    requires IsRun(states, events) && k < |states|
    ensures Reachable(states[k])
  {
    hide Init, Enabled, Step, Next;
    var first, steps := states[..k + 1], events[..k];
    forall i | 0 <= i < k
      ensures Next(first[i], steps[i], first[i + 1])
    {
      assert Next(states[i], events[i], states[i + 1]);
    }
    assert IsRun(first, steps);
  }

  // ---- Delivery ----

  lemma {:induction false} StepGrowsHistory(s: State, e: Event)
    requires Inv(s) && Enabled(s, e)
    ensures s.accepted <= Step(s, e).accepted && s.received <= Step(s, e).received
    ensures s.freed <= Step(s, e).freed
  {
    hide Offset, Pos, Tiled, Holds, ChainValid, Linked, ClientReceive, ReleaseFront, MarkReleased;
  }

  /**
   * End to end: at every moment of every run the packets the client has received are a prefix of the packets the
   * driver accepted, in the order of reservation and with the bytes of their buffers, none lost and none twice; and
   * neither sequence is ever revised.
   */
  lemma {:induction false} DeliveredInOrder(states: seq<State>, events: seq<Event>, j: nat, k: nat)
    requires IsRun(states, events) && j <= k < |states|
    ensures states[k].received <= states[k].accepted
    ensures states[j].received <= states[k].received && states[j].accepted <= states[k].accepted
    decreases k
  {
    hide Init, Enabled, Step;
    RunKeepsInv(states, events, k);
    assert states[k].received <= states[k].accepted by { ReceivedPrefix(states[k]); }
    if j < k {
      DeliveredInOrder(states, events, j, k - 1);
      RunKeepsInv(states, events, k - 1);
      assert Next(states[k - 1], events[k - 1], states[k]);
      StepGrowsHistory(states[k - 1], events[k - 1]);
    }
  }

  lemma {:induction false} ReceivedPrefix(s: State)
    requires Inv(s)
    ensures s.received <= s.accepted && |s.received| == s.taken <= s.published <= |s.accepted|
  {
    hide Tiled, Memory, Chains, Offsets;
  }

  /**
   * Whenever a thread has finished its copy loop it stands at exactly the offset that was reserved for its chain, the
   * source's assertion, and every packet of the chain is written; while it has not, it has room for its next packet.
   */
  lemma {:induction false} CopyLoopIsExact(s: State, k: nat)
    requires Reachable(s) && k < |s.active|
    ensures var c := s.active[k];
      && c.lo <= c.hi <= |s.log| && c.next <= |c.nbs|
      && (c.next == |c.nbs| ==> c.cursor == c.end && forall i :: c.lo <= i < c.hi ==> s.log[i].written)
      && (!c.completed && c.next < |c.nbs| ==> CanCopy(s, k))
  {
    hide Offset, Pos, Tiled, Memory, Contents, IsRun, History, Linked;
    ReachableInv(s);
    var c := s.active[k];
    assert ChainValid(c, s.log, s.cap);
    if c.next == |c.nbs| {
      CopyEndsAtReservedOffset(c, s.log, s.cap);
    } else if !c.completed {
      CopyIsEnabled(s, k);
    }
  }

  /**
   * WintunReceivePacket in any reachable state: it reports end of file exactly after the tail was invalidated, no more
   * items exactly when everything published has been taken, and otherwise returns the next accepted packet in full.
   */
  lemma {:induction false} ReceiveReturnsNextAccepted(s: State)
    requires Reachable(s)
    ensures ValidCapacity(s.cap) && |s.mem| == s.cap + SLACK
    ensures var r := ClientReceive(s.cap, s.client, s.tail, s.mem).1;
      && (r == EndOfFile <==> s.phase in {Closed, Replaced})
      && (r == NoMoreItems <==> s.phase !in {Closed, Replaced} && |s.received| == s.published)
      && r != InvalidData
      && (r.Packet? ==>
            && |s.received| < s.published <= |s.accepted|
            && r.at + r.size <= |s.mem|
            && s.mem[r.at..r.at + r.size] == s.accepted[|s.received|])
  {
    hide Tiled, Chains, Offset, Pos, ClientReceive, Holds, IsRun;
    ReachableInv(s);
    TakeOutcome(s);
  }

  /**
   * A packet that WintunReceivePacket returns is the client's: it can be written to and released, at the place
   * returned, until it has been released.
   */
  lemma {:induction false} TakenIsHeld(s: State)
    requires Reachable(s)
    ensures ValidCapacity(s.cap) && |s.mem| == s.cap + SLACK
    ensures var r := ClientReceive(s.cap, s.client, s.tail, s.mem).1;
      r.Packet? ==>
        var t, i := Step(s, ClientTakes), s.taken;
        && t.cap == s.cap && |t.mem| == |s.mem| && Outstanding(t, i) && Enabled(t, ClientReleases(i))
        && (forall bytes :: |bytes| == r.size ==> Enabled(t, ClientWrites(i, bytes)))
        && i < |s.accepted| && t.received == s.received + [s.accepted[i]] && t.taken == i + 1
        && r.at == Offset(t.log[i].pos, t.cap) + PACKET_HEADER && r.size == |t.log[i].data|
  {
    hide Tiled, Chains, Offset, Pos, ClientReceive, Holds, IsRun;
    ReachableInv(s);
    TakeOutcome(s);
    if s.taken < s.published {
      NextPacketRange(s);
    }
  }

  /** Once every packet taken has been released, all their space is free again. */
  lemma {:induction false} AllReleasedMeansAllFree(s: State)
    requires Reachable(s) && s.taken <= |s.log| && forall i :: 0 <= i < s.taken ==> s.log[i].marked
    ensures s.freed == s.taken && s.head == s.client.headRelease == s.client.head && s.client.packetsToRelease == 0
  {
    hide Tiled, Chains, Offset, Pos, Holds, IsRun;
    ReachableInv(s);
  }

  // ---- Memory safety of the packets in flight ----

  /**
   * The cursors never overtake one another: as positions before wrapping, HeadRelease, the client's Head, the ring's
   * Tail and the reserved RingTail come in this order and within one lap less an alignment unit, and every stored
   * offset is its position wrapped.
   */
  lemma {:induction false} CursorsInOrder(s: State)
    requires Reachable(s)
    ensures ValidCapacity(s.cap) && s.freed <= s.taken <= s.published <= |s.log|
    ensures Pos(s.log, s.freed) <= Pos(s.log, s.taken) <= Pos(s.log, s.published) <= Pos(s.log, |s.log|)
    ensures Pos(s.log, |s.log|) <= Pos(s.log, s.freed) + s.cap - ALIGNMENT
    ensures s.head == s.client.headRelease == Offset(Pos(s.log, s.freed), s.cap)
    ensures s.client.head == Offset(Pos(s.log, s.taken), s.cap)
    ensures s.phase !in {Closed, Replaced} ==> s.tail == Offset(Pos(s.log, s.published), s.cap)
    ensures s.ringTail == Offset(Pos(s.log, |s.log|), s.cap)
  {
    hide Offset, Pos, Tiled, Memory, Chains, IsRun;
    ReachableInv(s);
    PosMonotone(s.log, s.freed, s.taken);
    PosMonotone(s.log, s.taken, s.published);
    PosMonotone(s.log, s.published, |s.log|);
  }

  /** Every live packet lies in the allocated data area, and no two of them share a byte. */
  lemma {:induction false} LivePacketsDisjoint(s: State, i: nat, j: nat)
    requires Reachable(s) && s.freed <= i < j < |s.log|
    ensures s.cap > 0
    ensures var a, b := Offset(s.log[i].pos, s.cap), Offset(s.log[j].pos, s.cap);
      && a + s.log[i].Space() <= s.cap + SLACK && b + s.log[j].Space() <= s.cap + SLACK
      && (a + s.log[i].Space() <= b || b + s.log[j].Space() <= a)
      && RING_HEADER + s.cap + SLACK == RingSize(s.cap)
  {
    hide Offset, Pos, PacketSpace, Offsets, Memory, Chains, History, Threads, IsRun;
    ReachableInv(s);
    SlotFits(s.log, i, s.cap);
    SlotFits(s.log, j, s.cap);
    SlotsApart(s.log, s.freed, s.cap, i, j);
    RangesDisjoint(s.log[i].pos, s.log[i].Space(), s.log[j].pos, s.log[j].Space(), s.cap);
  }

  /** Between receiving and releasing a packet, its bytes change only by the client's own hand. */
  lemma {:induction false} HeldPacketUntouched(s: State, e: Event, s': State, i: nat)
    requires Reachable(s) && Next(s, e, s') && Outstanding(s, i)
    requires !(e.ClientWrites? && e.slot == i) && !(e.ClientReleases? && e.slot == i)
    ensures Outstanding(s', i) && s.cap > 0
    ensures var at, end := Offset(s.log[i].pos, s.cap) + PACKET_HEADER,
      Offset(s.log[i].pos, s.cap) + PACKET_HEADER + |s.log[i].data|;
      end <= |s.mem| == |s'.mem| && s'.mem[at..end] == s.mem[at..end]
  {
    hide Offset, Pos, Tiled, Holds, ChainValid, Linked, ClientReceive, ReleaseFront, MarkReleased, CopyPacket, Splice;
    hide IsRun;
    ReachableInv(s);
    StepKeepsInv(s, e);
    assert Outstanding(s', i) && s'.log[i].data == s.log[i].data && s'.log[i].pos == s.log[i].pos && s'.cap == s.cap
        by {
      HeldSlotStays(s, e, i);
    }
    assert Holds(s.mem, s.cap, s.log[i]) && Holds(s'.mem, s.cap, s'.log[i]);
    HoldsReads(s.mem, s.cap, s.log[i]);
    HoldsReads(s'.mem, s.cap, s'.log[i]);
  }

  lemma {:induction false} HeldSlotStays(s: State, e: Event, i: nat)
    requires Inv(s) && Enabled(s, e) && Outstanding(s, i)
    requires !(e.ClientWrites? && e.slot == i) && !(e.ClientReleases? && e.slot == i)
    ensures var s' := Step(s, e);
      Outstanding(s', i) && s'.log[i].data == s.log[i].data && s'.log[i].pos == s.log[i].pos && s'.cap == s.cap
  {
    hide Offset, Pos, Tiled, Holds, Linked, ClientReceive, ReleaseFront, MarkReleased, CopyPacket, Splice, ReleaseStep;
    match e
    case ClientReleases(k) => ReleasedSlotStays(s, k, i);
    case _ =>
  }

  lemma {:induction false} ReleasedSlotStays(s: State, k: nat, i: nat)
    requires Inv(s) && Outstanding(s, k) && Outstanding(s, i) && i != k
    ensures var s' := ReleaseStep(s, k); Outstanding(s', i) && s'.log[i] == s.log[i] && s'.cap == s.cap
  {
    hide Offset, Pos, Tiled, Holds, Chains, ReleaseFront, MarkReleased;
    ReleaseAdvances(s, k);
    assert !ReleaseStep(s, k).log[i].marked;
  }

  // ---- Completion and disconnection ----

  /** With no sender at work, everything reserved is published. */
  lemma {:induction false} NothingStranded(s: State)
    requires Reachable(s) && s.inside == s.publishers == 0
    requires forall k :: 0 <= k < |s.active| ==> s.active[k].completed
    ensures s.active == [] && s.published == |s.accepted|
    ensures s.phase !in {Closed, Replaced} ==> s.tail == s.ringTail
  {
    hide Tiled, Memory, ChainValid, Offset, Pos, IsRun;
    ReachableInv(s);
  }

  /** Once the barrier is passed no sender uses this ring any more: none can reserve, copy or publish. */
  lemma {:induction false} NoSenderAfterBarrier(s: State, e: Event, s': State)
    requires Reachable(s) && Next(s, e, s') && s.phase in {Drained, Closed, Replaced}
    ensures !e.Reserve? && !e.CopyNext? && !e.MarkCompleted? && !e.PublishNext?
    ensures s'.phase in {Drained, Closed, Replaced}
    ensures s.phase != Drained ==> s'.phase != Drained && s'.tail == MAXULONG
  {
    hide Tiled, Memory, ChainValid, Offset, Pos, ClientReceive, ReleaseFront, MarkReleased, IsRun;
    ReachableInv(s);
  }

  /** The invalidated tail is final: from then on every WintunReceivePacket on the session reports end of file. */
  lemma {:induction false} EndOfFileIsFinal(states: seq<State>, events: seq<Event>, j: nat, k: nat)
    requires IsRun(states, events) && j <= k < |states| && states[j].phase in {Closed, Replaced}
    ensures states[k].phase in {Closed, Replaced} && states[k].tail == MAXULONG
    ensures ValidCapacity(states[k].cap) && |states[k].mem| == states[k].cap + SLACK
    ensures ClientReceive(states[k].cap, states[k].client, states[k].tail, states[k].mem)
      == (states[k].client, EndOfFile)
    decreases k
  {
    hide Init, Enabled, Step, Inv, ClientReceive, Reachable;
    RunKeepsInv(states, events, k);
    if j < k {
      EndOfFileIsFinal(states, events, j, k - 1);
      RunReaches(states, events, k - 1);
      assert Next(states[k - 1], events[k - 1], states[k]);
      NoSenderAfterBarrier(states[k - 1], events[k - 1], states[k]);
    }
    ClosedReportsEndOfFile(states[k]);
  }

  lemma {:induction false} ClosedReportsEndOfFile(s: State)
    requires Inv(s) && s.phase in {Closed, Replaced}
    ensures ValidCapacity(s.cap) && |s.mem| == s.cap + SLACK && s.tail == MAXULONG
    ensures ClientReceive(s.cap, s.client, s.tail, s.mem) == (s.client, EndOfFile)
  {
    hide Tiled, Offset, Pos, Chains, History, ClientReceive;
    TakeOutcome(s);
  }
}
