/** The uninterrupted calls on the receive ring, of driver and client, are repetitions of the ring's steps. */
module ReceiveRefinement {
  import opened Words
  import opened RingLayout
  import opened ReceiveRing
  import opened ReceiveRingInvariant
  import opened ReceiveRingTheorems
  import opened ReceiveRingReturns
  import opened ReceiveRingRace
  import D = DriverReceive

  // ---- TunReturnNetBufferLists ----

  /** The same lists with the same offsets and marks. */
  ghost predicate Matches(active: seq<Nbl>, entries: seq<D.Entry>) {
    && |active| == |entries|
    && forall k :: 0 <= k < |active| ==>
      entries[k].offset == active[k].offset && entries[k].completed == active[k].completed
  }

  /** Both halves of a return, one after the other. */
  ghost function PopOne(s: State): State
    requires WellSized(s) && Enabled(s, Unlink)
  {
    Step(Step(s, Unlink), WritePopped)
  }

  /** The returned lists at the front popped without interruption. */
  ghost function PopRest(s: State): State
    requires WellSized(s) && s.popping > 0 && s.unlinked.None?
    decreases |s.active|
  {
    if Enabled(s, Unlink) then PopRest(PopOne(s)) else s
  }

  /** The popping loop leaves the active list and the ring's head as the single steps do. */
  lemma {:induction false} PopLoopIsSteps(s: State, entries: seq<D.Entry>)
    requires WellSized(s) && s.popping > 0 && s.unlinked.None? && Matches(s.active, entries)
    ensures var t, r := PopRest(s), D.PopFront(entries, s.head); Matches(t.active, r.0) && t.head == r.1
    decreases |s.active|
  {
    hide Offset;
    if Enabled(s, Unlink) {
      PopLoopIsSteps(PopOne(s), entries[1..]);
    }
  }

  /** Uninterrupted pops are steps of a run: each write of the head is safe. */
  lemma {:induction false} PopRestIsReachable(s: State)
    requires Reachable(s) && WellSized(s) && s.popping > 0 && s.unlinked.None?
    ensures Reachable(PopRest(s))
    decreases |s.active|
  {
    hide Offset, Reachable, Inv, SafeWrite;
    if Enabled(s, Unlink) {
      var a := Advance(s, Unlink) by { NotAWrite(s, Unlink); }
      ReachableInv(a);
      PromptReturnIsSafe(a);
      var b := Advance(a, WritePopped);
      PopRestIsReachable(b);
    }
  }

  lemma {:induction false} NotAWrite(s: State, e: Event)
    requires e != WritePopped
    ensures SafeWrite(s, e)
  {
  }

  /** Returning one list is marking it, in one step, and popping what that leaves returned at the front. */
  lemma {:induction false} ReturnOneIsSteps(s: State, entries: seq<D.Entry>, k: nat)
    requires WellSized(s) && s.unlinked.None? && Matches(s.active, entries) && Enabled(s, ReturnNbl(k))
    requires forall j :: 0 <= j < |entries| && j != k ==> entries[j].id != entries[k].id
    ensures var t := PopRest(Step(s, ReturnNbl(k)));
      var r := D.PopFront(D.Mark(entries, {entries[k].id}), s.head);
      Matches(t.active, r.0) && t.head == r.1
  {
    hide Offset, PopRest, D.PopFront;
    PopLoopIsSteps(Step(s, ReturnNbl(k)), D.Mark(entries, {entries[k].id}));
  }

  // ---- WintunSendPacket ----

  lemma {:induction false} SendKeepsSizes(s: State, i: nat)
    requires WellSized(s) && Enabled(s, Send(i))
    ensures WellSized(Step(s, Send(i)))
  {
    hide Offset, MarkSent, SendFront;
  }

  /** The steps of one call, one after the other: the locked part and, if the tail is to be moved, the handshake. */
  ghost function SendSteps(s: State, i: nat): State
    requires WellSized(s) && Enabled(s, Send(i))
  {
    SendKeepsSizes(s, i);
    var a := Step(s, Send(i));
    if !Enabled(a, WriteTail) then a
    else
      var b := Step(Step(a, WriteTail), ReadAlertable);
      if Enabled(b, SignalTailMoved) then Step(b, SignalTailMoved) else b
  }

  /**
   * An uninterrupted call leaves memory, cursors, tail and event as the client's code does: it is what the contract of
   * TunSession.SendPacket says of them.
   */
  lemma {:induction false} SendPacketIsSteps(s: State, i: nat)
    requires WellSized(s) && Enabled(s, Send(i))
    ensures var t, at := SendSteps(s, i), Offset(s.log[i].pos, s.cap) + PACKET_HEADER;
      && at <= |s.mem| && t.mem == MarkSent(s.mem, at)
      && t.client == SendFront(s.cap, s.client, t.mem)
      && t.tail == t.client.tailRelease && t.clientPc == Unlocked
      && (t.tailMoved <==> s.tailMoved || (t.tail != s.tail && s.alertable))
  {
    hide Offset, MarkSent, SendFront;
  }

  /** The steps of a call lead from one state of a run to another. */
  lemma {:induction false} SendPacketIsReachable(s: State, i: nat)
    requires Reachable(s) && WellSized(s) && Enabled(s, Send(i))
    ensures Reachable(SendSteps(s, i))
  {
    hide Offset, Reachable, Inv, MarkSent, SendFront;
    var a := Advance(s, Send(i));
    if Enabled(a, WriteTail) {
      var b := Advance(a, WriteTail);
      var c := Advance(b, ReadAlertable);
      if Enabled(c, SignalTailMoved) {
        var d := Advance(c, SignalTailMoved);
      }
    }
  }
}
