/**
 * The two halves of a return. TunReturnNetBufferLists sets the Empty event before it writes the ring's head; the
 * driver's thread, which waits for the event without the lock, may write the head in between.
 */
module ReceiveRingReturns {
  import opened Words
  import opened RingLayout
  import opened ReceiveRing
  import opened ReceiveRingInvariant
  import opened ReceiveRingTheorems

  predicate DriverWritesHead(e: Event) {
    e.WriteHead? || e.WriteMaxHead?
  }

  /** The ring's head says what has been given up so far, or that the driver has finished. */
  ghost predicate HeadIsCurrent(s: State)
    requires s.cap > 0 && s.popped <= |s.log|
  {
    s.head == if s.driverPc == Finished then MAXULONG else Offset(Pos(s.log, s.popped), s.cap)
  }

  // ---- When a return is overtaken ----

  /** The driver writes the head between the events j and i. */
  ghost predicate Overtaken(events: seq<Event>, j: nat, i: nat) {
    exists m :: j < m < i && m < |events| && DriverWritesHead(events[m])
  }

  /** Where a returner stands between its halves. */
  ghost predicate Between(s: State, nbl: Nbl, overtaken: bool) {
    && s.unlinked == Some(nbl)
    && if overtaken then s.popped > nbl.upTo || s.driverPc == Finished
       else s.popped == nbl.upTo && s.driverPc != Finished
  }

  lemma {:induction false} UnlinkStarts(s: State, s': State)
    requires Reachable(s) && Next(s, Unlink, s')
    ensures Between(s', s.active[0], false)
  {
    hide Tiled, Holds, Offset, Pos, TailRead, Delivered, Lent, Memory, IsRun;
    ReachableInv(s);
  }

  lemma {:induction false} BetweenStep(s: State, e: Event, s': State, nbl: Nbl, overtaken: bool)
    requires Reachable(s) && Next(s, e, s') && e != WritePopped && Between(s, nbl, overtaken)
    ensures Between(s', nbl, overtaken || DriverWritesHead(e))
  {
    hide Offset, Pos, Enabled, Step, Inv, Reachable;
    ReachableInv(s);
    if DriverWritesHead(e) {
      DriverOvertakes(s, e, nbl, overtaken);
    } else {
      OthersDoNot(s, e, nbl, overtaken);
    }
  }

  lemma {:induction false} DriverOvertakes(s: State, e: Event, nbl: Nbl, overtaken: bool)
    requires Inv(s) && WellSized(s) && Enabled(s, e) && DriverWritesHead(e) && Between(s, nbl, overtaken)
    ensures Between(Step(s, e), nbl, true)
  {
    hide Tiled, Holds, Offset, Pos, TailRead, Delivered, Memory;
  }

  lemma {:induction false} OthersDoNot(s: State, e: Event, nbl: Nbl, overtaken: bool)
    requires WellSized(s) && Enabled(s, e) && !DriverWritesHead(e) && e != WritePopped && Between(s, nbl, overtaken)
    ensures Between(Step(s, e), nbl, overtaken)
  {
    hide Step, WellSized, IsIp, FetchedBytes, Unsent;
    OthersKeepHead(s, e);
  }

  /** Nothing but the halves of a return and the driver's own writes concerns the ring's head. */
  lemma {:induction false} OthersKeepHead(s: State, e: Event)
    requires WellSized(s) && Enabled(s, e) && !DriverWritesHead(e) && e != WritePopped && e != Unlink
    ensures SameHead(s, Step(s, e))
  {
    hide Enabled, Step, WellSized, SameHead, OthersMove, WakeupMoves;
    if OthersMove(e) || WakeupMoves(e) {
      CountersKeepHead(s, e);
    } else if e.Skip? || e.SeeEmpty? || e.Indicate? || e.ReturnNbl? || e.WriteTail? {
      ListKeepsHead(s, e);
    } else {
      PacketsKeepHead(s, e);
    }
  }

  ghost predicate SameHead(s: State, t: State) {
    && t.head == s.head && t.freed == s.freed && t.popped == s.popped && t.unlinked == s.unlinked
    && (t.driverPc == Finished <==> s.driverPc == Finished)
  }

  lemma {:induction false} CountersKeepHead(s: State, e: Event)
    requires WellSized(s) && Enabled(s, e) && (OthersMove(e) || WakeupMoves(e))
    ensures SameHead(s, Step(s, e))
  {
    hide Offset, WellSized;
  }

  lemma {:induction false} ListKeepsHead(s: State, e: Event)
    requires WellSized(s) && Enabled(s, e)
    requires e.Skip? || e.SeeEmpty? || e.Indicate? || e.ReturnNbl? || e.WriteTail?
    ensures SameHead(s, Step(s, e))
  {
    hide Offset, WellSized, IsIp, FetchedBytes;
  }

  lemma {:induction false} PacketsKeepHead(s: State, e: Event)
    requires WellSized(s) && Enabled(s, e) && !DriverWritesHead(e) && e != WritePopped && e != Unlink
    requires !OthersMove(e) && !WakeupMoves(e)
    requires !(e.Skip? || e.SeeEmpty? || e.Indicate? || e.ReturnNbl? || e.WriteTail?)
    ensures SameHead(s, Step(s, e))
  {
    hide Offset, Pos, ClientAllocate, SendFront, MarkSent, FetchPacket, PacketSpace, ValidCapacity;
  }

  lemma {:induction false} StaysBetween(states: seq<State>, events: seq<Event>, j: nat, i: nat)
    requires IsRun(states, events) && j < i < |states| && events[j] == Unlink
    requires forall m :: j < m < i ==> events[m] != WritePopped
    ensures states[j].active != [] && Between(states[i], states[j].active[0], Overtaken(events, j, i))
    decreases i
  {
    hide Init, Enabled, Step, Inv, Reachable, Between, SafeWrite;
    assert Next(states[i - 1], events[i - 1], states[i]);
    RunReaches(states, events, i - 1);
    if i == j + 1 {
      UnlinkIsEnabled(states[j], states[i]);
      UnlinkStarts(states[j], states[i]);
    } else {
      StaysBetween(states, events, j, i - 1);
      BetweenStep(states[i - 1], events[i - 1], states[i], states[j].active[0], Overtaken(events, j, i - 1));
      assert Overtaken(events, j, i) <==> Overtaken(events, j, i - 1) || DriverWritesHead(events[i - 1]);
    }
  }

  lemma {:induction false} UnlinkIsEnabled(s: State, s': State)
    requires Next(s, Unlink, s')
    ensures s.active != []
  {
  }

  /** The space of the packets given up since the list was unlinked; the driver has skipped those behind it. */
  ghost function GivenUpSince(s: State): int {
    if s.unlinked.Some? then Position(s.log, s.popped) - Position(s.log, s.unlinked.value.upTo) else 0
  }

  /**
   * A return that is about to write the ring's head, whatever it does to it then: it leaves the head behind, or
   * overwrites the driver's invalidation of it, if and only if the driver has written the head since the return's first
   * half, and has finished or skipped packets of other than whole laps.
   */
  lemma {:induction false} HeadIsLeftBehindExactly(states: seq<State>, events: seq<Event>, j: nat)
    requires IsRun(states, events) && j < |events| && events[j] == Unlink
    requires forall m :: j < m < |events| ==> events[m] != WritePopped
    ensures var s := states[|events|];
      && WellSized(s) && Enabled(s, WritePopped)
      && var t := Step(s, WritePopped);
        && t.cap > 0 && t.popped <= |t.log|
        && (!HeadIsCurrent(t) <==>
              Overtaken(events, j, |events|) && (s.driverPc == Finished || GivenUpSince(s) % s.cap != 0))
  {
    hide Init, Enabled, Step, Inv, Reachable, Overtaken, SafeWrite, HeadIsCurrent, WellSized;
    var s := states[|events|];
    StaysBetween(states, events, j, |events|);
    RunReaches(states, events, |events|);
    ReachableInv(s);
    InvBasics(s);
    WriteAfter(s, states[j].active[0], Overtaken(events, j, |events|));
  }

  lemma {:induction false} WriteAfter(s: State, nbl: Nbl, overtaken: bool)
    requires Inv(s) && WellSized(s) && Between(s, nbl, overtaken)
    ensures Enabled(s, WritePopped)
    ensures var t := Step(s, WritePopped);
      && t.cap > 0 && t.popped <= |t.log|
      && (!HeadIsCurrent(t) <==> overtaken && (s.driverPc == Finished || GivenUpSince(s) % s.cap != 0))
  {
    hide Tiled, Holds, Offset, Pos, TailRead, Delivered, Memory, Window;
    PosMonotone(s.log, nbl.upTo, s.popped);
    SameOffsetExactly(Pos(s.log, nbl.upTo), Pos(s.log, s.popped), s.cap);
  }

  lemma {:induction false} SameOffsetExactly(a: nat, b: nat, cap: nat)
    requires cap > 0 && a <= b
    ensures Offset(a, cap) == Offset(b, cap) <==> (b - a) % cap == 0
  {
    hide Offset;
    OffsetIsMod(a, cap);
    OffsetIsMod(b, cap);
    var q, r := (b - a) / cap, (b - a) % cap;
    assert b == cap * (a / cap + q) + (a % cap + r);
    if a % cap + r < cap {
      ModUnique(b, cap, a / cap + q, a % cap + r);
    } else {
      assert b == cap * (a / cap + q + 1) + (a % cap + r - cap);
      ModUnique(b, cap, a / cap + q + 1, a % cap + r - cap);
    }
  }

  // ---- What an overtaken return endangers ----

  /** A return that is not overtaken shows clients no space that is not there. */
  lemma {:induction false} PromptReturnIsSafe(s: State)
    requires Inv(s) && s.unlinked.Some? && s.popped == s.unlinked.value.upTo
    ensures SafeWrite(s, WritePopped)
  {
    hide Offset, Pos, Memory, Delivered, TailRead, Tiled, RingWrap;
    PosMonotone(s.log, s.popped, |s.log|);
    WrapSpace(Pos(s.log, s.popped), Pos(s.log, |s.log|), s.cap);
  }

  /** Allocations of these sizes, one after the other, are all admitted by a head. */
  ghost predicate Admitted(cap: nat, c: Client, head: nat, sizes: seq<nat>)
    requires cap > 0
    decreases |sizes|
  {
    sizes == [] ||
    var (next, r) := ClientAllocate(cap, c, head, sizes[0]);
    sizes[0] <= MAX_IP_PACKET && r.Allocated? && Admitted(cap, next, head, sizes[1..])
  }

  function TotalSpace(sizes: seq<nat>): nat
    decreases |sizes|
  {
    if sizes == [] then 0 else PacketSpace(sizes[0]) + TotalSpace(sizes[1..])
  }

  /**
   * When the write of a returner is safe, told from what is stored: exactly if no sequence of allocations it admits
   * takes the client's tail further than a lap, less an alignment unit, from what has been given up. Then, and only
   * then, the write keeps the invariant.
   */
  lemma {:induction false} ReturnIsSafeExactly(s: State)
    requires Reachable(s) && s.unlinked.Some?
    ensures s.cap > 0 && s.popped <= |s.log|
    ensures SafeWrite(s, WritePopped) <==>
            forall sizes :: Admitted(s.cap, s.client, s.unlinked.value.offset, sizes) ==>
                              Pos(s.log, |s.log|) + TotalSpace(sizes) <= Pos(s.log, s.popped) + s.cap - ALIGNMENT
    ensures SafeWrite(s, WritePopped) <==> Inv(WritePoppedStep(s))
  {
    hide Offset, Pos, RingWrap, Reachable, Admitted, TotalSpace, Inv, WritePoppedStep;
    ReachableInv(s);
    WritePoppedKeepsInv(s);
    UnlinkedHead(s);
    var head, space := s.unlinked.value.offset, Space(s, s.unlinked.value.offset);
    if SafeWrite(s, WritePopped) {
      forall sizes | Admitted(s.cap, s.client, head, sizes)
        ensures Pos(s.log, |s.log|) + TotalSpace(sizes) <= Pos(s.log, s.popped) + s.cap - ALIGNMENT
      {
        AdmittedFits(s.cap, s.client, head, sizes);
      }
    } else {
      var n := (Pos(s.log, s.popped) + s.cap - Pos(s.log, |s.log|)) / ALIGNMENT;
      var sizes := seq(n, _ => 0);
      EmptiesAreAdmitted(s.cap, s.client, head, n);
      assert Admitted(s.cap, s.client, head, sizes);
    }
  }

  /** The space a head shows to clients. */
  function Space(s: State, head: nat): nat
    requires s.cap > 0
  {
    RingWrap(head - s.client.tail - ALIGNMENT, s.cap)
  }

  /** Everything is aligned. */
  lemma {:induction false} UnlinkedHead(s: State)
    requires Inv(s) && s.unlinked.Some?
    ensures ValidCapacity(s.cap) && s.client.tail < s.cap && s.unlinked.value.offset < s.cap && s.popped <= |s.log|
    ensures Space(s, s.unlinked.value.offset) % 4 == 0
    ensures (Pos(s.log, s.popped) + s.cap - Pos(s.log, |s.log|)) % 4 == 0
    ensures 0 < Pos(s.log, s.popped) + s.cap - Pos(s.log, |s.log|)
  {
    hide Offset, Pos, RingWrap, Memory, Delivered, TailRead, Tiled, Threads, Wakeup, Head;
    var tail, given, earlier := Pos(s.log, |s.log|), Pos(s.log, s.popped), Pos(s.log, s.unlinked.value.upTo);
    PosAligned(s.log, s.popped);
    PosAligned(s.log, |s.log|);
    PosAligned(s.log, s.unlinked.value.upTo);
    SpaceAligned(earlier, tail, s.cap);
    CapacityFacts(s.cap);
    DifferenceAligned(given, s.cap, tail);
  }

  lemma {:induction false} DifferenceAligned(a: nat, b: nat, c: nat)
    requires a % 4 == b % 4 == c % 4 == 0
    ensures (a + b - c) % 4 == 0
  {
  }

  lemma {:induction false} SpaceAligned(head: nat, tail: nat, cap: nat)
    requires ValidCapacity(cap) && head % 4 == tail % 4 == 0
    ensures RingWrap(Offset(head, cap) - Offset(tail, cap) - ALIGNMENT, cap) % 4 == 0
  {
    hide Offset, RingWrap;
    CapacityFacts(cap);
    OffsetAligned(head, cap);
    OffsetAligned(tail, cap);
    var value := Offset(head, cap) - Offset(tail, cap) - ALIGNMENT;
    DifferenceAligned4(Offset(head, cap), Offset(tail, cap));
    RingWrapIsMod(value, cap);
    ModOfMultiple(value, 4, cap / 4);
  }

  lemma {:induction false} DifferenceAligned4(a: nat, b: nat)
    requires a % 4 == b % 4 == 0
    ensures (a - b - ALIGNMENT) % 4 == 0
  {
  }

  lemma {:induction false} AdmittedFits(cap: nat, c: Client, head: nat, sizes: seq<nat>)
    requires ValidCapacity(cap) && c.tail < cap && head < cap && Admitted(cap, c, head, sizes)
    ensures TotalSpace(sizes) <= RingWrap(head - c.tail - ALIGNMENT, cap)
    decreases |sizes|
  {
    hide RingWrap, PacketSpace;
    if sizes != [] {
      var (next, r) := ClientAllocate(cap, c, head, sizes[0]);
      SpaceShrinks(cap, c.tail, head, PacketSpace(sizes[0]));
      AdmittedFits(cap, next, head, sizes[1..]);
    }
  }

  /** What is allocated is taken from the space, no more and no less. */
  lemma {:induction false} SpaceShrinks(cap: nat, tail: nat, head: nat, aligned: nat)
    requires ValidCapacity(cap) && tail < cap && head < cap && aligned <= RingWrap(head - tail - ALIGNMENT, cap)
    ensures RingWrap(tail + aligned, cap) < cap
    ensures RingWrap(head - RingWrap(tail + aligned, cap) - ALIGNMENT, cap)
         == RingWrap(head - tail - ALIGNMENT, cap) - aligned
  {
    hide RingWrap;
    var space := RingWrap(head - tail - ALIGNMENT, cap);
    var next := RingWrap(tail + aligned, cap);
    RingWrapIsMod(head - tail - ALIGNMENT, cap);
    RingWrapIsMod(tail + aligned, cap);
    RingWrapIsMod(head - next - ALIGNMENT, cap);
    ModTaken(head - tail - ALIGNMENT, tail, head, aligned, cap);
  }

  lemma {:induction false} ModTaken(value: int, tail: nat, head: nat, aligned: nat, cap: nat)
    requires cap > 0 && value == head - tail - ALIGNMENT && aligned <= value % cap
    ensures (head - (tail + aligned) % cap - ALIGNMENT) % cap == value % cap - aligned
  {
    var q, p := value / cap, (tail + aligned) / cap;
    assert head - (tail + aligned) % cap - ALIGNMENT == cap * (q + p) + (value % cap - aligned);
    ModUnique(head - (tail + aligned) % cap - ALIGNMENT, cap, q + p, value % cap - aligned);
  }

  lemma {:induction false} EmptiesAreAdmitted(cap: nat, c: Client, head: nat, n: nat)
    requires ValidCapacity(cap) && c.tail < cap && head < cap && 4 * n <= RingWrap(head - c.tail - ALIGNMENT, cap)
    ensures Admitted(cap, c, head, seq(n, _ => 0)) && TotalSpace(seq(n, _ => 0)) == 4 * n
    decreases n
  {
    hide RingWrap;
    if n > 0 {
      var sizes, rest := seq(n, _ => 0), seq(n - 1, _ => 0);
      assert sizes[1..] == rest && sizes[0] == 0 && PacketSpace(0) == 4;
      var (next, r) := ClientAllocate(cap, c, head, 0);
      SpaceShrinks(cap, c.tail, head, 4);
      EmptiesAreAdmitted(cap, next, head, n - 1);
    }
  }

  // ---- Runs in which no return is overtaken ----

  ghost predicate Possible(s: State, e: Event, s': State) {
    WellSized(s) && Enabled(s, e) && s' == Step(s, e)
  }

  /** Any run of the code, whatever returners write. */
  ghost predicate IsExecution(states: seq<State>, events: seq<Event>) {
    && |states| == |events| + 1
    && Init(states[0])
    && forall k :: 0 <= k < |events| ==> Possible(states[k], events[k], states[k + 1])
  }

  /** Between the halves of a return the driver does not write the head. */
  ghost predicate NoneOvertaken(events: seq<Event>) {
    forall j, m :: 0 <= j < m < |events| && events[j] == Unlink && DriverWritesHead(events[m]) ==>
                     WrittenBetween(events, j, m)
  }

  ghost predicate WrittenBetween(events: seq<Event>, j: nat, m: nat) {
    exists k :: j < k < m && k < |events| && events[k] == WritePopped
  }

  /** Where a run without overtaken returns stands: the head says what has been given up, or is about to. */
  ghost predicate Prompt(s: State) {
    && (s.unlinked.Some? ==> s.popped == s.unlinked.value.upTo && s.driverPc != Finished)
    && (s.unlinked.None? ==> s.freed == Position(s.log, s.popped))
    && (s.head == MAXULONG <==> s.driverPc == Finished)
  }

  /** A return between its halves began some time ago. */
  lemma {:induction false} ReturnBegan(states: seq<State>, events: seq<Event>, k: nat) returns (j: nat)
    requires IsExecution(states, events) && k < |states| && states[k].unlinked.Some?
    ensures j < k <= |events| && events[j] == Unlink && forall m :: j < m < k ==> events[m] != WritePopped
    decreases k
  {
    hide Step, Enabled, WellSized;
    assert k > 0 by { StartsUnlinked(states[0]); }
    assert Possible(states[k - 1], events[k - 1], states[k]);
    if events[k - 1] == Unlink {
      j := k - 1;
    } else {
      OthersUnlinkNothing(states[k - 1], events[k - 1]);
      j := ReturnBegan(states, events, k - 1);
    }
  }

  lemma {:induction false} StartsUnlinked(s: State)
    requires Init(s)
    ensures s.unlinked.None?
  {
  }

  lemma {:induction false} OthersUnlinkNothing(s: State, e: Event)
    requires WellSized(s) && Enabled(s, e) && e != Unlink
    ensures Step(s, e).unlinked == if e == WritePopped then None else s.unlinked
  {
    hide WellSized, Position, LastAt;
    if e != WritePopped && !DriverWritesHead(e) {
      hide Step, Enabled;
      OthersKeepHead(s, e);
    }
  }

  lemma {:induction false} PromptStart(s: State)
    requires Init(s)
    ensures Prompt(s)
  {
    hide Offset;
    Smallest32(s.cap);
  }

  lemma {:induction false} Smallest32(cap: nat)
    requires ValidCapacity(cap)
    ensures 0 < cap < MAXULONG
  {
  }

  /** A step that does not overtake a return keeps it that way. */
  lemma {:induction false} PromptStep(s: State, e: Event)
    requires Inv(s) && WellSized(s) && Enabled(s, e) && Prompt(s)
    requires DriverWritesHead(e) ==> s.unlinked.None?
    ensures SafeWrite(s, e) && Prompt(Step(s, e))
  {
    hide Inv, Step, Enabled, Prompt, SafeWrite, WellSized;
    if e == WritePopped {
      PromptWrite(s);
    } else {
      OthersAreSafe(s, e);
      if e.WriteHead? {
        PromptWriteHead(s);
      } else if e.WriteMaxHead? || e.Unlink? {
        PromptEnd(s, e);
      } else {
        PromptFrame(s, e);
      }
    }
  }

  lemma {:induction false} OthersAreSafe(s: State, e: Event)
    requires e != WritePopped
    ensures SafeWrite(s, e)
  {
  }

  lemma {:induction false} PromptWrite(s: State)
    requires Inv(s) && WellSized(s) && Enabled(s, WritePopped) && Prompt(s)
    ensures SafeWrite(s, WritePopped) && Prompt(Step(s, WritePopped))
  {
    hide Offset, Pos, Memory, Delivered, TailRead, Tiled, SafeWrite, LastAt;
    PromptReturnIsSafe(s);
    Smallest32(s.cap);
    LastAtIs(Pos(s.log, s.popped), Pos(s.log, s.popped), s.cap);
  }

  lemma {:induction false} PromptWriteHead(s: State)
    requires Inv(s) && WellSized(s) && Enabled(s, WriteHead) && Prompt(s) && s.unlinked.None?
    ensures Prompt(Step(s, WriteHead))
  {
    hide Offset, Pos, Memory, Delivered, TailRead, Tiled;
    Smallest32(s.cap);
  }

  lemma {:induction false} PromptEnd(s: State, e: Event)
    requires Inv(s) && WellSized(s) && Enabled(s, e) && (e.WriteMaxHead? || e.Unlink?) && Prompt(s)
    requires DriverWritesHead(e) ==> s.unlinked.None?
    ensures Prompt(Step(s, e))
  {
    hide Offset, Pos, Memory, Delivered, TailRead, Tiled, Lent;
    Smallest32(s.cap);
  }

  lemma {:induction false} PromptFrame(s: State, e: Event)
    requires Inv(s) && WellSized(s) && Enabled(s, e) && Prompt(s)
    requires !DriverWritesHead(e) && e != WritePopped && e != Unlink
    ensures Prompt(Step(s, e))
  {
    hide Step, Enabled, Inv, WellSized, Prompt;
    OthersKeepHead(s, e);
    LogPositions(s, e);
    PromptSame(s, Step(s, e));
  }

  /** The position up to which packets have been given up does not move as the log grows or is filled. */
  lemma {:induction false} LogPositions(s: State, e: Event)
    requires Inv(s) && WellSized(s) && Enabled(s, e)
    ensures Position(Step(s, e).log, s.popped) == Position(s.log, s.popped)
  {
    hide Offset, Pos, Enabled, Step, Inv, WellSized, Tiled, SameShape;
    PoppedInLog(s);
    if e.Allocate? {
      AllocationKeepsPositions(s, e.size);
    } else if e.Fill? || e.Send? {
      WritingKeepsShape(s, e);
      PosSameShape(s.log, Step(s, e).log);
      assert |Step(s, e).log| == |s.log| by { SameShapeLength(s.log, Step(s, e).log); }
    } else {
      FetchKeepsLog(s, e);
    }
  }

  lemma {:induction false} SameShapeLength(log: seq<Slot>, log': seq<Slot>)
    requires SameShape(log, log')
    ensures |log'| == |log|
  {
  }

  lemma {:induction false} PoppedInLog(s: State)
    requires Inv(s)
    ensures s.popped <= |s.log| && s.cap > 0
  {
    hide Tiled, Pos;
  }

  lemma {:induction false} AllocationKeepsPositions(s: State, size: nat)
    requires Inv(s) && WellSized(s) && Enabled(s, Allocate(size))
    ensures Position(Step(s, Allocate(size)).log, s.popped) == Position(s.log, s.popped)
  {
    hide Offset, Pos, Tiled, ClientAllocate, Memory, Lent, Delivered, TailRead, Window, PacketSpace;
    if Allocates(s, size) {
      AllocatedLog(s, size);
    }
  }

  lemma {:induction false} WritingKeepsShape(s: State, e: Event)
    requires WellSized(s) && Enabled(s, e) && (e.Fill? || e.Send?)
    ensures SameShape(s.log, Step(s, e).log)
  {
    hide Offset, SendFront, MarkSent, PacketSpace;
  }

  lemma {:induction false} FetchKeepsLog(s: State, e: Event)
    requires WellSized(s) && Enabled(s, e) && !(e.Allocate? || e.Fill? || e.Send?)
    ensures Step(s, e).log == s.log
  {
    hide Enabled, WellSized;
    if e.FetchNext? {
      GrowingIsFinal(s, e);
    } else {
      OtherStepsKeepLog(s, e);
    }
  }

  lemma {:induction false} PromptSame(s: State, t: State)
    requires Prompt(s) && t.head == s.head && t.freed == s.freed && t.popped == s.popped && t.unlinked == s.unlinked
    requires t.driverPc == Finished <==> s.driverPc == Finished
    requires Position(t.log, s.popped) == Position(s.log, s.popped)
    ensures Prompt(t)
  {
    hide Position;
  }

  /**
   * Runs of the code are among the runs the guarantees are about if no return is overtaken: told by the events alone.
   * And then the ring's head is current whenever no return is between its halves.
   */
  lemma {:induction false} PromptExecutionsAreRuns(states: seq<State>, events: seq<Event>)
    requires IsExecution(states, events) && NoneOvertaken(events)
    ensures IsRun(states, events)
    ensures forall k :: 0 <= k < |states| ==> Prompt(states[k])
  {
    hide Init, Step, Enabled, WellSized, Prompt, Inv, SafeWrite, NoneOvertaken;
    forall k: nat | k < |states|
      ensures Prompt(states[k])
      ensures k < |events| ==> Next(states[k], events[k], states[k + 1])
    {
      PromptUpTo(states, events, k);
      if k < |events| {
        assert Possible(states[k], events[k], states[k + 1]);
        NotOvertakingAt(states, events, k);
        PromptStep(states[k], events[k]);
      }
    }
  }

  lemma {:induction false} PromptUpTo(states: seq<State>, events: seq<Event>, k: nat)
    requires IsExecution(states, events) && NoneOvertaken(events) && k < |states|
    ensures Inv(states[k]) && Prompt(states[k])
    decreases k
  {
    hide Init, Step, Enabled, WellSized, Prompt, Inv, SafeWrite, NoneOvertaken;
    if k == 0 {
      InitInv(states[0]);
      PromptStart(states[0]);
    } else {
      PromptUpTo(states, events, k - 1);
      assert Possible(states[k - 1], events[k - 1], states[k]);
      NotOvertakingAt(states, events, k - 1);
      PromptStep(states[k - 1], events[k - 1]);
      StepKeepsInv(states[k - 1], events[k - 1]);
    }
  }

  lemma {:induction false} NotOvertakingAt(states: seq<State>, events: seq<Event>, k: nat)
    requires IsExecution(states, events) && NoneOvertaken(events) && k < |events|
    ensures DriverWritesHead(events[k]) ==> states[k].unlinked.None?
  {
    hide Init, Step, Enabled, WellSized, Possible, DriverWritesHead;
    if states[k].unlinked.Some? {
      var j := ReturnBegan(states, events, k);
      assert !WrittenBetween(events, j, k);
    }
  }

  /** In such runs the head is current whenever no return is between its halves. */
  lemma {:induction false} PromptHeadIsCurrent(states: seq<State>, events: seq<Event>, k: nat)
    requires IsExecution(states, events) && NoneOvertaken(events) && k < |states| && states[k].unlinked.None?
    ensures states[k].cap > 0 && states[k].popped <= |states[k].log| && HeadIsCurrent(states[k])
  {
    hide IsExecution, NoneOvertaken, Init, Inv, Prompt, HeadIsCurrent;
    PromptUpTo(states, events, k);
    PromptIsCurrent(states[k]);
  }

  lemma {:induction false} PromptIsCurrent(s: State)
    requires Inv(s) && Prompt(s) && s.unlinked.None?
    ensures s.cap > 0 && s.popped <= |s.log| && HeadIsCurrent(s)
  {
    hide Tiled, Pos, Offset, Memory, Lent, Delivered, TailRead;
  }

  /** And once the driver has finished in such a run, every allocation reports end of file. */
  lemma {:induction false} PromptFinishIsFinal(states: seq<State>, events: seq<Event>, j: nat, k: nat, size: nat)
    requires IsExecution(states, events) && NoneOvertaken(events) && j <= k < |states| && states[j].driverPc == Finished
    ensures states[k].cap > 0
    ensures ClientAllocate(states[k].cap, states[k].client, states[k].head, size) == (states[k].client, EndOfFile)
  {
    hide IsExecution, NoneOvertaken, IsRun, ClientAllocate;
    PromptExecutionsAreRuns(states, events);
    assert Prompt(states[j]);
    InvalidHeadIsFinal(states, events, j, k, size);
  }

  // ---- The invalidated head ----

  /** Once invalidated with no return between its halves, the head stays so: later allocations report end of file. */
  lemma {:induction false} InvalidHeadIsFinal(states: seq<State>, events: seq<Event>, j: nat, k: nat, size: nat)
    requires IsRun(states, events) && j <= k < |states| && states[j].head == MAXULONG && states[j].unlinked.None?
    ensures states[k].head == MAXULONG && states[k].unlinked.None? && states[k].cap > 0
    ensures ClientAllocate(states[k].cap, states[k].client, states[k].head, size) == (states[k].client, EndOfFile)
    decreases k
  {
    hide Init, Enabled, Step, Inv, Reachable, SafeWrite, ClientAllocate;
    RunReaches(states, events, k);
    if j < k {
      InvalidHeadIsFinal(states, events, j, k - 1, size);
      RunReaches(states, events, k - 1);
      assert Next(states[k - 1], events[k - 1], states[k]);
      InvalidHeadStays(states[k - 1], events[k - 1], states[k]);
    }
    InvalidMeansEndOfFile(states[k], size);
  }

  lemma {:induction false} InvalidHeadStays(s: State, e: Event, s': State)
    requires Reachable(s) && Next(s, e, s') && s.head == MAXULONG && s.unlinked.None?
    ensures s'.head == MAXULONG && s'.unlinked.None?
  {
    hide Tiled, Holds, Pos, TailRead, Delivered, Lent, Memory, IsRun;
    hide ClientAllocate, SendFront, MarkSent, FetchPacket, PacketSpace, Offset;
    ReachableInv(s);
  }

  lemma {:induction false} InvalidMeansEndOfFile(s: State, size: nat)
    requires Reachable(s) && s.head == MAXULONG
    ensures s.cap > 0 && ClientAllocate(s.cap, s.client, s.head, size) == (s.client, EndOfFile)
  {
    hide Tiled, Holds, Pos, TailRead, Delivered, Lent, Memory, IsRun, Offset;
    ReachableInv(s);
  }

  /**
   * A return between its halves overwrites the invalidated head with a valid offset, and from then on allocations no
   * longer report end of file although the driver has finished. So the invalidation lasts if and only if there is none.
   */
  lemma {:induction false} InvalidHeadLastsExactly(s: State)
    requires Reachable(s) && s.head == MAXULONG
    ensures WellSized(s)
    ensures s.unlinked.None? <==> forall e :: Enabled(s, e) ==> Step(s, e).head == MAXULONG
    ensures s.unlinked.Some? ==>
      Enabled(s, WritePopped)
      && forall size :: ClientAllocate(s.cap, s.client, Step(s, WritePopped).head, size).1 != EndOfFile
  {
    hide Tiled, Holds, Pos, TailRead, Delivered, Memory, IsRun;
    hide SendFront, MarkSent, FetchPacket, PacketSpace, Offset;
    ReachableInv(s);
    if s.unlinked.Some? {
      assert Step(s, WritePopped).head < s.cap;
    }
  }
}
