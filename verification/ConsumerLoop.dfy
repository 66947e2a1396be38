/**
 * The driver's thread as a whole: turns of its consumer loop made of the ring's steps, one after the other, and what it
 * waits for. Between the steps of a turn here no other thread runs.
 */
module ConsumerLoop {
  import opened Words
  import opened RingLayout
  import opened ReceiveRing
  import opened ReceiveRingInvariant
  import opened ReceiveRingTheorems
  import opened IpClass

  /** One possible step. */
  ghost predicate Goes(s: State, e: Event, t: State) {
    WellSized(s) && Enabled(s, e) && t == Step(s, e)
  }

  // ---- The steps of the thread ----

  lemma {:induction false} CheckStep(s: State)
    requires WellSized(s) && s.driverPc == AtLoop
    ensures Goes(s, CheckDisconnected, s.(driverPc := if s.disconnected then Draining else ReadingTail))
  {
    hide WellSized, IsIp;
  }

  lemma {:induction false} ReadStep(s: State)
    requires WellSized(s) && s.driverPc == ReadingTail
    ensures Goes(s, ReadTail,
                 s.(ringTail := s.tail, driverPc := if s.tail == s.ringHead then Spinning else HavePacket))
  {
    hide WellSized, IsIp;
  }

  lemma {:induction false} SpinStep(s: State)
    requires WellSized(s) && s.driverPc == Spinning
    ensures Goes(s, SpinRead,
                 s.(ringTail := s.tail, driverPc := if s.tail == s.ringHead then Spinning else HavePacket))
  {
    hide WellSized, IsIp;
  }

  lemma {:induction false} GiveUpStep(s: State)
    requires WellSized(s) && s.driverPc == Spinning
    ensures Goes(s, SpinEnds, s.(driverPc := SettingAlertable))
  {
    hide WellSized, IsIp;
  }

  lemma {:induction false} AlertStep(s: State)
    requires WellSized(s) && s.driverPc == SettingAlertable
    ensures Goes(s, SetAlertable, s.(alertable := true, driverPc := Rechecking))
  {
    hide WellSized, IsIp;
  }

  lemma {:induction false} LookAgainStep(s: State)
    requires WellSized(s) && s.driverPc == Rechecking
    ensures Goes(s, Recheck,
                 s.(ringTail := s.tail, driverPc := if s.tail == s.ringHead then Blocked else ClearingAlertable))
  {
    hide WellSized, IsIp;
  }

  lemma {:induction false} DisconnectedStep(s: State)
    requires WellSized(s) && s.driverPc == Blocked && s.disconnected
    ensures Goes(s, WakeDisconnected, s.(driverPc := ClearingAfterWait))
  {
    hide WellSized, IsIp;
  }

  lemma {:induction false} SignalledStep(s: State)
    requires WellSized(s) && s.driverPc == Blocked && s.tailMoved && !s.disconnected
    ensures Goes(s, WakeTailMoved, s.(tailMoved := false, driverPc := ClearingAfterWait))
  {
    hide WellSized, IsIp;
  }

  lemma {:induction false} ClearStep(s: State)
    requires WellSized(s) && s.driverPc in {ClearingAfterWait, ClearingAlertable}
    ensures Goes(s, ClearAlertable,
                 s.(alertable := false, driverPc := if s.driverPc == ClearingAfterWait then AtLoop else ClearingEvent))
  {
    hide WellSized, IsIp;
  }

  lemma {:induction false} ClearEventStep(s: State)
    requires WellSized(s) && s.driverPc == ClearingEvent
    ensures Goes(s, ClearTailMoved, s.(tailMoved := false, driverPc := HavePacket))
  {
    hide WellSized, IsIp;
  }

  lemma {:induction false} LendStep(s: State)
    requires WellSized(s) && s.driverPc == Classifying && s.unlinked.None? && IsIp(FetchedBytes(s))
    ensures Goes(s, Indicate, s.(active := s.active + [Nbl(s.ringHead, false, s.consumed)], driverPc := AtLoop))
  {
    hide WellSized, IsIp;
  }

  lemma {:induction false} DropStep(s: State)
    requires WellSized(s) && s.driverPc == Classifying
    ensures Goes(s, Skip, s.(driverPc := AwaitingEmpty))
  {
    hide WellSized, IsIp;
  }

  lemma {:induction false} SeeStep(s: State)
    requires WellSized(s) && s.driverPc in {AwaitingEmpty, Draining} && s.active == []
    ensures Goes(s, SeeEmpty, s.(driverPc := if s.driverPc == AwaitingEmpty then WritingHead else Invalidating))
  {
    hide WellSized, IsIp;
  }

  lemma {:induction false} InvalidateStep(s: State)
    requires WellSized(s) && s.driverPc == Invalidating
    ensures Goes(s, WriteMaxHead, s.(head := MAXULONG, driverPc := Finished))
  {
    hide WellSized, IsIp;
  }

  // ---- Turns of the loop ----

  /** An empty ring: the thread spins for as long as it likes, sets Alertable, looks once more, and blocks. */
  lemma {:induction false} IdleTurnBlocks(s: State) returns (a: State, b: State, c: State, d: State, e: State, t: State)
    requires WellSized(s) && s.driverPc == AtLoop && !s.disconnected && s.tail == s.ringHead
    ensures Goes(s, CheckDisconnected, a) && Goes(a, ReadTail, b) && Goes(b, SpinRead, c) && Goes(c, SpinEnds, d)
    ensures Goes(d, SetAlertable, e) && Goes(e, Recheck, t)
    ensures t == s.(ringTail := s.tail, alertable := true, driverPc := Blocked)
  {
    hide Goes;
    CheckStep(s);
    a := s.(driverPc := ReadingTail);
    ReadStep(a);
    b := a.(ringTail := a.tail, driverPc := Spinning);
    SpinStep(b);
    c := b.(ringTail := b.tail, driverPc := Spinning);
    GiveUpStep(c);
    d := c.(driverPc := SettingAlertable);
    AlertStep(d);
    e := d.(alertable := true, driverPc := Rechecking);
    LookAgainStep(e);
    t := e.(ringTail := e.tail, driverPc := Blocked);
  }

  /** A client's packet that arrives before the last look: the thread does not block, and clears flag and event. */
  lemma {:induction false} LateTailIsSeen(s: State) returns (a: State, b: State, t: State)
    requires WellSized(s) && s.driverPc == Rechecking && s.tail != s.ringHead
    ensures Goes(s, Recheck, a) && Goes(a, ClearAlertable, b) && Goes(b, ClearTailMoved, t)
    ensures t == s.(ringTail := s.tail, alertable := false, tailMoved := false, driverPc := HavePacket)
  {
    hide Goes;
    LookAgainStep(s);
    a := s.(ringTail := s.tail, driverPc := ClearingAlertable);
    ClearStep(a);
    b := a.(alertable := false, driverPc := ClearingEvent);
    ClearEventStep(b);
    t := b.(tailMoved := false, driverPc := HavePacket);
  }

  /** A packet that arrives while spinning is fetched without touching flag or event. */
  lemma {:induction false} SpinSeesTail(s: State)
    requires WellSized(s) && s.driverPc == Spinning && s.tail != s.ringHead
    ensures Goes(s, SpinRead, s.(ringTail := s.tail, driverPc := HavePacket))
  {
    hide Goes;
    SpinStep(s);
  }

  /**
   * What wakes the thread: of its own steps one is possible exactly if the driver was disconnected or the event is set.
   * The flag is cleared, and the event, which resets itself, unless the disconnection woke it.
   */
  lemma {:induction false} BlockedWakesExactly(s: State)
    requires WellSized(s) && s.driverPc == Blocked
    ensures (exists e, t :: Goes(s, e, t) && t.driverPc != Blocked) <==> s.disconnected || s.tailMoved
    ensures s.disconnected ==>
              var a := s.(driverPc := ClearingAfterWait);
              Goes(s, WakeDisconnected, a) && Goes(a, ClearAlertable, a.(alertable := false, driverPc := AtLoop))
    ensures s.tailMoved && !s.disconnected ==>
              var a := s.(tailMoved := false, driverPc := ClearingAfterWait);
              Goes(s, WakeTailMoved, a) && Goes(a, ClearAlertable, a.(alertable := false, driverPc := AtLoop))
  {
    hide Goes;
    if s.disconnected {
      DisconnectedStep(s);
      ClearStep(s.(driverPc := ClearingAfterWait));
    } else if s.tailMoved {
      SignalledStep(s);
      ClearStep(s.(tailMoved := false, driverPc := ClearingAfterWait));
    }
    if e, t :| Goes(s, e, t) && t.driverPc != Blocked {
      OnlyWakes(s, e, t);
    }
  }

  lemma {:induction false} OnlyWakes(s: State, e: Event, t: State)
    requires s.driverPc == Blocked && Goes(s, e, t) && t.driverPc != Blocked
    ensures s.disconnected || s.tailMoved
  {
    hide WellSized, Offset, ClientAllocate, SendFront, MarkSent, FetchPacket, PacketSpace, IsIp, FetchedBytes, Unsent;
    hide LastAt, Position;
  }

  /** A packet at hand: the thread fetches the next one in allocation order, with the bytes sent. */
  lemma {:induction false} FetchTurn(s: State) returns (a: State, b: State, t: State)
    requires Reachable(s) && s.driverPc == AtLoop && !s.disconnected && s.tail != s.ringHead
    ensures Goes(s, CheckDisconnected, a) && Goes(a, ReadTail, b) && Goes(b, FetchNext, t)
    ensures s.consumed < |s.log| && t.consumed == s.consumed + 1 && t.driverPc == Classifying
    ensures t.active == s.active && t.unlinked == s.unlinked && t.head == s.head && t.log == s.log && t.cap == s.cap
    ensures FetchedBytes(t) == s.log[s.consumed].data && WellSized(t)
  {
    hide Goes, Reachable, Inv, Offset, Pos, FetchPacket, Shape, Memory, Lent, Delivered, Offsets;
    ReachableInv(s);
    InvBasics(s);
    CheckStep(s);
    a := s.(driverPc := ReadingTail);
    ReadStep(a);
    b := a.(ringTail := a.tail, driverPc := HavePacket);
    GoesKeepsInv(s, CheckDisconnected, a);
    GoesKeepsInv(a, ReadTail, b);
    t := FetchStep(b);
    FetchTaken(b, t);
  }

  lemma {:induction false} GoesKeepsInv(s: State, e: Event, t: State)
    requires Inv(s) && Goes(s, e, t) && e != WritePopped
    ensures Inv(t)
  {
    hide Inv, Step, Enabled, WellSized;
    StepKeepsInv(s, e);
  }

  lemma {:induction false} FetchTaken(s: State, t: State)
    requires Inv(s) && s.driverPc == HavePacket && t == FetchStep(s)
    ensures Goes(s, FetchNext, t) && s.consumed < |s.log| && t.consumed == s.consumed + 1 && t.driverPc == Classifying
    ensures t.active == s.active && t.unlinked == s.unlinked && t.head == s.head && t.log == s.log && t.cap == s.cap
    ensures FetchedBytes(t) == s.log[s.consumed].data && WellSized(t)
  {
    hide Offset, Pos, FetchPacket, Tiled, Window, Holds;
    InvBasics(s);
    FetchOutcome(s);
  }

  /** Lending the packet: with no return between its halves, it is appended to the active list as not returned. */
  lemma {:induction false} LendTurn(s: State)
    requires WellSized(s) && s.driverPc == Classifying && s.unlinked.None?
    requires StartsWith4(FetchedBytes(s)) || StartsWith6(FetchedBytes(s))
    ensures Goes(s, Indicate, s.(active := s.active + [Nbl(s.ringHead, false, s.consumed)], driverPc := AtLoop))
  {
    hide Goes;
    VersionsExactly(FetchedBytes(s));
    LendStep(s);
  }

  /** Skipping it: once no list is active, the ring's head moves behind it. */
  lemma {:induction false} SkipTurn(s: State) returns (a: State, b: State, t: State)
    requires WellSized(s) && s.driverPc == Classifying && s.active == []
    ensures Goes(s, Skip, a) && Goes(a, SeeEmpty, b) && Goes(b, WriteHead, t)
    ensures t.head == s.ringHead && t.popped == s.consumed && t.driverPc == AtLoop
  {
    hide Goes;
    DropStep(s);
    a := s.(driverPc := AwaitingEmpty);
    SeeStep(a);
    b := a.(driverPc := WritingHead);
    t := HeadStep(b);
  }

  lemma {:induction false} HeadStep(s: State) returns (t: State)
    requires WellSized(s) && s.driverPc == WritingHead
    ensures Goes(s, WriteHead, t) && t.head == s.ringHead && t.popped == s.consumed && t.driverPc == AtLoop
  {
    hide WellSized;
    t := Step(s, WriteHead);
  }

  /** The thread waits for the active list to be empty before it writes the head, at its end or behind a packet. */
  lemma {:induction false} WaitsForEmpty(s: State, e: Event, t: State)
    requires s.driverPc in {AwaitingEmpty, Draining} && Goes(s, e, t) && t.driverPc != s.driverPc
    ensures s.active == [] && e == SeeEmpty
  {
    hide WellSized, Offset, ClientAllocate, SendFront, MarkSent, FetchPacket, PacketSpace, IsIp, FetchedBytes, Unsent;
    hide LastAt, Position;
  }

  /** Disconnected, with every list returned, the thread invalidates the head and is done. */
  lemma {:induction false} LastTurn(s: State) returns (a: State, b: State, t: State)
    requires WellSized(s) && s.driverPc == AtLoop && s.disconnected && s.active == []
    ensures Goes(s, CheckDisconnected, a) && Goes(a, SeeEmpty, b) && Goes(b, WriteMaxHead, t)
    ensures t == s.(head := MAXULONG, driverPc := Finished)
  {
    hide Goes;
    CheckStep(s);
    a := s.(driverPc := Draining);
    SeeStep(a);
    b := a.(driverPc := Invalidating);
    InvalidateStep(b);
    t := b.(head := MAXULONG, driverPc := Finished);
  }
}
