/** Runs of the receive ring in which the driver overtakes a return between its two halves, and what comes of them. */
module ReceiveRingRace {
  import opened Words
  import opened RingLayout
  import opened ReceiveRing
  import opened ReceiveRingInvariant
  import opened ReceiveRingTheorems
  import opened ReceiveRingReturns

  lemma {:induction false} InitReaches(s: State)
    requires Init(s)
    ensures Reachable(s)
  {
    hide Init, Next;
    var states, events: seq<Event> := [s], [];
    assert IsRun(states, events) && states[|events|] == s;
  }

  lemma {:induction false} Advance(s: State, e: Event) returns (t: State)
    requires Reachable(s) && WellSized(s) && Enabled(s, e) && SafeWrite(s, e)
    ensures t == Step(s, e) && Reachable(t) && WellSized(t) && Next(s, e, t)
  {
    hide Init, Enabled, Step, WellSized, Inv, SafeWrite;
    t := Step(s, e);
    var states, events :| IsRun(states, events) && states[|events|] == s;
    var more, steps := states + [t], events + [e];
    forall i | 0 <= i < |steps|
      ensures Next(more[i], steps[i], more[i + 1])
    {
      if i < |events| {
        assert Next(states[i], events[i], states[i + 1]);
      }
    }
    assert IsRun(more, steps) && more[|steps|] == t;
    ReachableInv(t);
    InvBasics(t);
  }

  /** What the client's steps leave alone. */
  ghost predicate SameDriver(s: State, t: State) {
    && t.cap == s.cap && t.disconnected == s.disconnected && t.alertable == s.alertable
    && t.driverPc == s.driverPc && t.ringHead == s.ringHead && t.active == s.active && t.popping == s.popping
    && t.unlinked == s.unlinked && t.freed == s.freed && t.popped == s.popped && t.consumed == s.consumed
  }

  ghost predicate AllSent(log: seq<Slot>, n: nat) {
    n <= |log| && forall i :: 0 <= i < n ==> !log[i].marked
  }

  /** All packets are sent and published, and the driver is at its loop. */
  ghost predicate Quiet(s: State, used: nat) {
    && Reachable(s) && WellSized(s) && s.cap == MIN_CAPACITY
    && !s.disconnected && !s.alertable && s.clientPc == Unlocked
    && s.published == |s.log|
    && Pos(s.log, |s.log|) == used && AllSent(s.log, |s.log|)
  }

  lemma {:induction false} StartQuiet() returns (s: State)
    ensures Quiet(s, 0) && s.freed == 0 && s.log == [] && s.consumed == 0 && s.active == [] && s.popping == 0
    ensures s.driverPc == AtLoop
    ensures s.unlinked.None?
  {
    var mem := seq(MIN_CAPACITY + SLACK, _ => 0);
    var client := Client(0, 0, 0);
    s := State(MIN_CAPACITY, mem, 0, 0, false, false, false, client, Unlocked, AtLoop, 0, 0, [], 0, None, [],
               0, 0, 0, 0, 0, []);
    assert IsPow2(MIN_CAPACITY, 17) by {
      Pow2Table();
      assert Pow2(17) == 2 * Pow2(16);
    }
    InitReaches(s);
  }

  /** The client allocates a packet that fits. */
  lemma {:induction false} Allocates(s: State, size: nat) returns (t: State)
    requires Reachable(s) && WellSized(s) && s.clientPc == Unlocked && s.driverPc != Finished && size <= MAX_IP_PACKET
    requires Pos(s.log, |s.log|) + PacketSpace(size) <= s.freed + s.cap - ALIGNMENT
    ensures Reachable(t) && WellSized(t) && SameDriver(s, t) && t.clientPc == Unlocked && t.published == s.published
    ensures |t.log| == |s.log| + 1 && t.log[..|s.log|] == s.log
    ensures t.log[|s.log|].marked && |t.log[|s.log|].data| == size
    ensures Pos(t.log, |t.log|) == Pos(s.log, |s.log|) + PacketSpace(size)
    ensures forall i :: 0 <= i <= |s.log| ==> Pos(t.log, i) == Pos(s.log, i)
  {
    hide Offset, Pos, Tiled, Memory, Lent, Delivered, TailRead, IsRun, RingWrap, Reachable, PacketSpace;
    ReachableInv(s);
    PosMonotone(s.log, s.popped, |s.log|);
    WrapSpace(s.freed, Pos(s.log, |s.log|), s.cap);
    PosAligned(s.log, |s.log|);
    RangeFits(Pos(s.log, |s.log|), s.cap);
    t := Advance(s, Allocate(size));
    AllocatedLog(s, size);
  }

  lemma {:induction false} FirstPos(log: seq<Slot>)
    requires Tiled(log)
    ensures Pos(log, 0) == 0
  {
  }

  lemma {:induction false} Fills(s: State, i: nat, bytes: seq<byte>) returns (t: State)
    requires Reachable(s) && WellSized(s) && Unsent(s, i) && |bytes| == |s.log[i].data| && AllSent(s.log, i)
    ensures Reachable(t) && WellSized(t) && SameDriver(s, t) && t.clientPc == s.clientPc && t.published == s.published
    ensures |t.log| == |s.log| && AllSent(t.log, i) && t.log[i].marked && t.log[i].data == bytes
    ensures Pos(t.log, |t.log|) == Pos(s.log, |s.log|)
  {
    hide Offset, Pos, Tiled, IsRun, Inv, Reachable;
    ReachableInv(s);
    LiveSlot(s, i);
    t := Advance(s, Fill(i, bytes));
    PosSameShape(s.log, t.log);
  }

  lemma {:induction false} LiveSlot(s: State, i: nat)
    requires Inv(s) && Unsent(s, i)
    ensures Tiled(s.log) && s.cap > 0 && Offset(s.log[i].pos, s.cap) + PACKET_HEADER + |s.log[i].data| <= |s.mem|
  {
    hide Offset, Pos, Tiled, Lent;
    UnsentIsLive(s, i);
    SlotInMemory(s, i);
  }

  lemma {:induction false} Sends(s: State, i: nat) returns (t: State)
    requires Reachable(s) && WellSized(s) && s.clientPc == Unlocked && !s.alertable
    requires |s.log| == i + 1 && s.published == i && s.log[i].marked && AllSent(s.log, i)
    ensures Reachable(t) && WellSized(t) && SameDriver(s, t)
    ensures t.clientPc == Unlocked && t.published == |t.log| == |s.log|
    ensures AllSent(t.log, |t.log|) && t.log[i].data == s.log[i].data && Pos(t.log, |t.log|) == Pos(s.log, |s.log|)
  {
    hide Offset, Pos, Tiled, Holds, IsRun, Reachable, SendFront, MarkSent, Lent, Delivered, TailRead;
    var a := Advance(s, Send(i));
    ReachableInv(s);
    PosSameShape(s.log, a.log);
    ReachableInv(a);
    SentIsWaiting(a);
    var b := Advance(a, WriteTail);
    t := Advance(b, ReadAlertable);
  }

  /** When everything is sent but not published, the client is about to write the tail. */
  lemma {:induction false} SentIsWaiting(s: State)
    requires Inv(s) && AllSent(s.log, |s.log|) && s.published < |s.log|
    ensures s.clientPc == TailToWrite && s.released == |s.log|
  {
    hide Offset, Pos, Tiled, Holds;
  }

  /** The client sends a packet. */
  lemma {:induction false} ClientSends(s: State, used: nat, bytes: seq<byte>) returns (t: State)
    requires Quiet(s, used) && s.driverPc != Finished && |bytes| <= MAX_IP_PACKET
    requires used + PacketSpace(|bytes|) <= s.freed + MIN_CAPACITY - ALIGNMENT
    ensures Quiet(t, used + PacketSpace(|bytes|)) && SameDriver(s, t)
    ensures |t.log| == |s.log| + 1 && t.log[|s.log|].data == bytes
  {
    hide Offset, Pos, Reachable, PacketSpace;
    StartsAtZero(s);
    var a := Allocates(s, |bytes|);
    assert AllSent(a.log, |s.log|) by { assert forall i :: 0 <= i < |s.log| ==> a.log[i] == a.log[..|s.log|][i]; }
    var b := Fills(a, |s.log|, bytes);
    t := Sends(b, |s.log|);
  }

  lemma {:induction false} StartsAtZero(s: State)
    requires Reachable(s)
    ensures Pos(s.log, 0) == 0
  {
    hide Offset, Pos, Memory, Lent, Delivered, TailRead, IsRun, Tiled;
    ReachableInv(s);
    FirstPos(s.log);
  }

  /** The driver fetches the next packet. */
  lemma {:induction false} DriverFetches(s: State, used: nat) returns (t: State)
    requires Quiet(s, used) && s.driverPc == AtLoop && s.consumed < s.published
    ensures Quiet(t, used) && t.log == s.log && t.active == s.active && t.popping == s.popping
    ensures t.unlinked == s.unlinked && t.popped == s.popped && t.freed == s.freed
    ensures t.driverPc == Classifying && t.consumed == s.consumed + 1
    ensures FetchedBytes(t) == s.log[s.consumed].data
  {
    hide Offset, Pos, Tiled, Holds, IsRun, Reachable, Lent, Delivered, FetchPacket;
    ReachableInv(s);
    HeadEqualsTail(s);
    var a := Advance(s, CheckDisconnected);
    var b := Advance(a, ReadTail);
    ReachableInv(b);
    FetchOutcome(b);
    t := Advance(b, FetchNext);
  }

  /** One packet is lent to NDIS, and the driver is back at its loop. */
  lemma {:induction false} OneLent() returns (s: State)
    ensures Quiet(s, 24) && s.freed == 0 && s.driverPc == AtLoop && s.consumed == |s.log| == 1
    ensures s.popping == 0 && s.unlinked.None?
    ensures |s.active| == 1 && !s.active[0].completed && s.active[0].upTo == 1
  {
    hide Offset, Pos, Reachable, Quiet, WellSized;
    var s0 := StartQuiet();
    var packet: seq<byte> := seq(20, _ => 0x45);
    var s1 := ClientSends(s0, 0, packet);
    QuietDriver(s1, 24);
    var s2 := DriverFetches(s1, 24);
    QuietDriver(s2, 24);
    s := Advance(s2, Indicate);
    QuietLater(s2, s, 24);
  }

  lemma {:induction false} QuietDriver(s: State, used: nat)
    requires Quiet(s, used)
    ensures Reachable(s) && WellSized(s) && s.published == |s.log| && Pos(s.log, |s.log|) == used
    ensures s.clientPc == Unlocked && s.cap == MIN_CAPACITY
  {
    hide Reachable, Pos;
  }

  ghost predicate SameFlags(s: State, t: State) {
    && t.published == s.published && t.disconnected == s.disconnected && t.alertable == s.alertable
    && t.clientPc == s.clientPc
  }

  lemma {:induction false} QuietLater(s: State, t: State, used: nat)
    requires Quiet(s, used) && Reachable(t) && WellSized(t) && t.log == s.log && t.cap == s.cap
    requires SameFlags(s, t)
    ensures Quiet(t, used)
  {
    hide Reachable, Pos;
  }

  // ---- The driver skips a packet between the halves ----

  /** One packet is lent, and the driver has fetched the next, an empty one. */
  lemma {:induction false} OneLentOneFetched() returns (s: State)
    ensures Quiet(s, 28) && s.driverPc == Classifying && s.unlinked.None? && s.consumed == 2
    ensures |s.active| == 1 && !s.active[0].completed && s.active[0].upTo == 1 && |s.log| == 2 && |s.log[1].data| == 0
  {
    hide Offset, Pos, Reachable, Quiet, WellSized, Step, Enabled;
    var s0 := OneLent();
    QuietDriver(s0, 24);
    var s1 := ClientSends(s0, 24, []);
    QuietDriver(s1, 28);
    s := DriverFetches(s1, 28);
  }

  /** The packet lent has been returned, and the driver waits for that to skip the next one. */
  lemma {:induction false} SkipAwaitsReturn() returns (s: State)
    ensures Quiet(s, 28) && s.driverPc == AwaitingEmpty && s.popping > 0 && s.unlinked.None? && s.consumed == 2
    ensures |s.active| == 1 && s.active[0].completed && s.active[0].upTo == 1 && |s.log| == 2 && |s.log[1].data| == 0
  {
    hide Offset, Pos, Reachable, Quiet, WellSized;
    var s0 := OneLentOneFetched();
    QuietDriver(s0, 28);
    var s1 := Advance(s0, Skip);
    QuietLater(s0, s1, 28);
    s := Advance(s1, ReturnNbl(0));
    QuietLater(s1, s, 28);
  }

  /** The driver skips the packet and writes the head past it between the halves of the return. */
  lemma {:induction false} SkipOvertakesReturn() returns (s: State)
    ensures Reachable(s) && WellSized(s) && s.cap == MIN_CAPACITY && s.clientPc == Unlocked && s.driverPc == AtLoop
    ensures |s.log| == 2 && Pos(s.log, 1) == 24 && Pos(s.log, 2) == 28
    ensures s.unlinked.Some? && s.unlinked.value.upTo == 1 && s.unlinked.value.offset == 24
    ensures s.popped == s.consumed == 2 && s.freed == 28 && s.active == [] && Quiet(s, 28)
  {
    hide Offset, Pos, Reachable, Quiet, Inv, WellSized;
    var s0 := SkipAwaitsReturn();
    QuietDriver(s0, 28);
    s := UnlinksAndSkips(s0);
    QuietLater(s0, s, 28);
    UnlinkedAt(s, 28);
  }

  lemma {:induction false} UnlinksAndSkips(s: State) returns (t: State)
    requires Reachable(s) && WellSized(s) && s.driverPc == AwaitingEmpty && s.popping > 0 && s.unlinked.None?
    requires |s.active| == 1 && s.active[0].completed
    ensures Reachable(t) && WellSized(t) && t.driverPc == AtLoop && t.clientPc == s.clientPc && t.cap == s.cap
    ensures t.log == s.log && t.unlinked == Some(s.active[0]) && t.popped == t.consumed == s.consumed && t.active == []
    ensures t.consumed <= |t.log| && t.freed == Pos(t.log, t.consumed) && SameFlags(s, t)
  {
    hide Offset, Pos, Reachable, Inv;
    var a := Advance(s, Unlink);
    var b := Advance(a, SeeEmpty);
    t := Advance(b, WriteHead);
    ConsumedInLog(t);
  }

  lemma {:induction false} ConsumedInLog(s: State)
    requires Reachable(s)
    ensures s.consumed <= |s.log|
  {
    hide Reachable, Inv;
    ReachableInv(s);
    DeliveredPrefix(s);
  }

  /** A packet of 20 bytes before an empty one takes up 24 bytes. */
  lemma {:induction false} UnlinkedAt(s: State, used: nat)
    requires Reachable(s) && |s.log| == 2 && Pos(s.log, 2) == used && s.cap == MIN_CAPACITY
    requires s.unlinked.Some? && s.unlinked.value.upTo == 1 && |s.log[1].data| == 0
    ensures Pos(s.log, 1) == used - 4 && (used == 28 ==> s.unlinked.value.offset == 24)
  {
    hide Pos, Memory, Delivered, TailRead, IsRun;
    ReachableInv(s);
    assert s.log[1].Valid() && Adjacent(s.log, 1);
    PosOfSlot(s.log, 1);
    PosOfEnd(s.log, 1);
  }

  lemma {:induction false} PosOfEnd(log: seq<Slot>, i: nat)
    requires Tiled(log) && i < |log|
    ensures Pos(log, i + 1) == Pos(log, i) + PacketSpace(|log[i].data|)
  {
    assert log[i].Valid() && Adjacent(log, i);
  }

  /** The return then leaves the head at the packet that was skipped. */
  lemma {:induction false} HeadIsLeftBehind() returns (s: State, t: State)
    ensures Reachable(s) && Next(s, WritePopped, t) && t.cap > 0 && t.popped <= |t.log|
    ensures t.head == 24 && Offset(Pos(t.log, t.popped), t.cap) == 28 && !HeadIsCurrent(t)
  {
    hide Pos, Offset, Reachable, Inv, RingWrap, LastAt;
    s := SkipOvertakesReturn();
    TailOf(s);
    SmallOffsets();
    WriteAt(s, 24);
    t := Advance(s, WritePopped);
  }

  lemma {:induction false} SmallOffsets()
    ensures Offset(24, MIN_CAPACITY) == 24 && Offset(28, MIN_CAPACITY) == 28
    ensures Offset(24 + MIN_CAPACITY, MIN_CAPACITY) == 24
  {
  }

  lemma {:induction false} TailOf(s: State)
    requires Reachable(s)
    ensures s.cap > 0 && s.popped <= |s.log| && ValidCapacity(s.cap)
    ensures s.client.tail == Offset(Pos(s.log, |s.log|), s.cap)
  {
    hide Pos, Offset, IsRun, Tiled, Memory, Lent, Delivered, TailRead;
    ReachableInv(s);
  }

  /** A head that stands for a position no more than a lap behind the client's tail is safe to write. */
  lemma {:induction false} WriteAt(s: State, last: nat)
    requires Reachable(s) && s.unlinked.Some? && s.cap > 0 && s.popped <= |s.log|
    requires last <= Pos(s.log, s.popped) && last <= Pos(s.log, |s.log|) <= last + s.cap - ALIGNMENT
    requires s.unlinked.value.offset == Offset(last, s.cap)
    ensures SafeWrite(s, WritePopped)
  {
    hide Pos, Offset, Reachable, RingWrap;
    TailOf(s);
    WrapSpace(last, Pos(s.log, |s.log|), s.cap);
  }

  // ---- Clients fill the ring between the halves ----

  /** Clients, seeing the later head, fill the ring with two packets before the return writes the earlier head. */
  lemma {:induction false} FilledMeanwhile() returns (s: State)
    ensures Reachable(s) && WellSized(s) && s.cap == MIN_CAPACITY && s.clientPc == Unlocked
    ensures |s.log| == 4 && s.log[2].marked && s.log[3].marked && |s.log[2].data| == 0xFFFF
    ensures Pos(s.log, 2) == 28 && Pos(s.log, 4) == 28 + MIN_CAPACITY - ALIGNMENT && s.popped == 2
    ensures s.unlinked.Some? && s.unlinked.value.offset == 24 && s.unlinked.value.upTo == 1 && Pos(s.log, 1) == 24
  {
    hide Offset, Pos, Reachable;
    var s0 := SkipOvertakesReturn();
    var s1 := Allocates(s0, 0xFFFF);
    s := Allocates(s1, 0xFFF4);
    assert s.log[2] == s.log[..3][2];
  }

  /**
   * The write is late, which nothing in the code prevents, and the next allocation is admitted to a ring that is full:
   * its packet shares bytes with one that is allocated and not sent yet.
   */
  lemma {:induction false} LateReturnLetsPacketsOverlap() returns (s: State, t: State, u: State)
    ensures Reachable(s) && WellSized(s) && Enabled(s, WritePopped) && !SafeWrite(s, WritePopped)
    ensures t == Step(s, WritePopped)
    ensures WellSized(t) && Enabled(t, Allocate(4)) && u == Step(t, Allocate(4)) && |u.log| == 5 && u.cap > 0
    ensures u.popped <= 2 && u.log[2].marked && u.log[4].marked
    ensures var a, b := Offset(u.log[2].pos, u.cap), Offset(u.log[4].pos, u.cap);
      a < b + u.log[4].Space() && b < a + u.log[2].Space()
  {
    hide Pos, Reachable, Offset, RingWrap;
    s := FilledMeanwhile();
    t := Step(s, WritePopped);
    TailWraps(s);
    RingIsFreeAgain();
    u := Step(t, Allocate(4));
    PosOfSlot(s.log, 2);
    OffsetIsMod(28, MIN_CAPACITY);
    OffsetIsMod(28 + MIN_CAPACITY - ALIGNMENT, MIN_CAPACITY);
  }

  lemma {:induction false} TailWraps(s: State)
    requires Reachable(s) && s.cap == MIN_CAPACITY && Pos(s.log, |s.log|) == 28 + MIN_CAPACITY - ALIGNMENT
    ensures s.client.tail == 24
  {
    hide Pos, Offset, IsRun, Tiled, Memory, Lent, Delivered, TailRead;
    ReachableInv(s);
    OffsetIsMod(28 + MIN_CAPACITY - ALIGNMENT, MIN_CAPACITY);
  }

  lemma {:induction false} RingIsFreeAgain()
    ensures RingWrap(24 - 24 - ALIGNMENT, MIN_CAPACITY) == MIN_CAPACITY - ALIGNMENT
  {
    hide Offset, RingWrap;
    Smallest();
    RingWrapIsMod(-4, MIN_CAPACITY);
  }

  lemma {:induction false} Smallest()
    ensures ValidCapacity(MIN_CAPACITY)
  {
    Pow2Table();
    assert IsPow2(MIN_CAPACITY, 17) by {
      assert Pow2(17) == 2 * Pow2(16);
    }
  }

  // ---- The driver skips a whole lap between the halves ----

  /** The driver fetches and skips the next packet; no list is active. */
  lemma {:induction false} DriverSkips(s: State, used: nat) returns (t: State)
    requires Quiet(s, used) && s.driverPc == AtLoop && s.consumed < s.published && s.active == []
    ensures Quiet(t, used) && t.log == s.log && t.active == [] && t.unlinked == s.unlinked && t.driverPc == AtLoop
    ensures t.popped == t.consumed == s.consumed + 1 <= |t.log| && t.freed == Pos(t.log, t.consumed)
  {
    hide Offset, Pos, Reachable, Quiet, Inv, WellSized;
    var a := DriverFetches(s, used);
    QuietDriver(a, used);
    var b := Advance(a, Skip);
    var c := Advance(b, SeeEmpty);
    t := Advance(c, WriteHead);
    ConsumedInLog(t);
    QuietLater(a, t, used);
  }

  /**
   * The return is overtaken, and by the time it writes the head the driver has skipped a whole lap of packets. The head
   * it writes is the current one.
   */
  lemma {:induction false} LapLateReturnIsHarmless() returns (s: State, t: State)
    ensures Reachable(s) && s.unlinked.Some? && s.unlinked.value.upTo == 1 < s.popped == 4
    ensures Next(s, WritePopped, t) && t.cap > 0 && t.popped <= |t.log| && HeadIsCurrent(t)
  {
    hide Pos, Offset, Reachable, Inv, RingWrap, LastAt, Quiet;
    var s0 := SkipOvertakesReturn();
    QuietDriver(s0, 28);
    var s1 := ClientSends(s0, 28, seq(0xFFFF, _ => 0));
    QuietDriver(s1, 65568);
    var s2 := ClientSends(s1, 65568, seq(0xFFF4, _ => 0));
    QuietDriver(s2, 131096);
    var s3 := DriverSkips(s2, 131096);
    QuietDriver(s3, 131096);
    s := DriverSkips(s3, 131096);
    QuietDriver(s, 131096);
    SmallOffsets();
    WriteAt(s, 131096);
    t := Advance(s, WritePopped);
  }

  // ---- The driver finishes between the halves ----

  /** The driver, disconnected, drains and invalidates the head between the halves of the last return. */
  lemma {:induction false} FinishOvertakesReturn() returns (s: State)
    ensures Reachable(s) && s.head == MAXULONG && s.driverPc == Finished && s.unlinked.Some?
    ensures s.popped == s.unlinked.value.upTo
  {
    hide Offset, Pos, Reachable, Quiet;
    var s0 := OneLent();
    QuietDriver(s0, 24);
    var s1 := Advance(s0, Disconnect);
    var s2 := Advance(s1, CheckDisconnected);
    var s3 := Advance(s2, ReturnNbl(0));
    s := UnlinksAndFinishes(s3);
  }

  lemma {:induction false} UnlinksAndFinishes(s: State) returns (t: State)
    requires Reachable(s) && WellSized(s) && s.driverPc == Draining && s.popping > 0 && s.unlinked.None?
    requires |s.active| == 1 && s.active[0].completed
    ensures Reachable(t) && t.head == MAXULONG && t.driverPc == Finished && t.unlinked.Some?
    ensures t.popped == t.unlinked.value.upTo
  {
    hide Offset, Pos, Reachable, Inv;
    var a := Advance(s, Unlink);
    var b := Advance(a, SeeEmpty);
    t := Advance(b, WriteMaxHead);
  }

  /** The return then replaces the invalid head, and a later allocation is admitted although the driver is gone. */
  lemma {:induction false} InvalidHeadIsOverwritten() returns (s: State, t: State)
    ensures Reachable(s) && s.head == MAXULONG && Next(s, WritePopped, t)
    ensures t.cap > 0 && t.driverPc == Finished && ClientAllocate(t.cap, t.client, t.head, 0).1 != EndOfFile
  {
    hide Offset, Pos, Reachable, Inv;
    s := FinishOvertakesReturn();
    InvalidHeadLastsExactly(s);
    ReachableInv(s);
    PromptReturnIsSafe(s);
    t := Advance(s, WritePopped);
  }
}
