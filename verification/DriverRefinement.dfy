/** The driver's loops, as its entry point runs them, are repetitions of the steps of the send ring. */
module DriverRefinement {
  import opened Words
  import opened RingLayout
  import opened SendRing
  import opened SendRingInvariant
  import opened SendRingTheorems
  import D = Driver

  ghost predicate Copying(s: State, k: nat) {
    && k < |s.active| && !s.active[k].completed && s.active[k].next <= |s.active[k].nbs|
    && WellFormed(s.active[k].nbs)
    && D.CursorOk(s.mem, s.active[k].cursor, s.cap)
  }

  /** Chain k copied to its end without interruption. */
  ghost function CopyRest(s: State, k: nat): State
    requires Copying(s, k)
    decreases |s.active[k].nbs| - s.active[k].next
  {
    if s.active[k].next == |s.active[k].nbs| then s
    else
      CopyKeepsCopying(s, k);
      CopyRest(Step(s, CopyNext(k)), k)
  }

  /** What the copying and the publishing of a call leave alone. */
  ghost predicate SameOutside(s: State, t: State) {
    && t.cap == s.cap && t.head == s.head && t.ringTail == s.ringTail && t.client == s.client && t.phase == s.phase
    && t.entered == s.entered && t.inside == s.inside && t.accepted == s.accepted && t.received == s.received
  }

  /** The other chains and the threads are as they were, and chain k is not completed yet. */
  ghost predicate OnlyChain(s: State, t: State, k: nat) {
    && |t.active| == |s.active| && t.publishers == s.publishers && SameOutside(s, t)
    && (forall j :: 0 <= j < |s.active| && j != k ==> t.active[j] == s.active[j])
    && (k < |t.active| ==> !t.active[k].completed)
  }

  lemma {:induction false} CopyKeepsCopying(s: State, k: nat)
    requires Copying(s, k) && s.active[k].next < |s.active[k].nbs|
    ensures ValidCapacity(s.cap) && |s.mem| == s.cap + SLACK && Enabled(s, CopyNext(k))
    ensures var t, c := Step(s, CopyNext(k)), s.active[k];
      && Copying(t, k) && t.cap == s.cap && t.active[k].nbs == c.nbs && t.active[k].next == c.next + 1
      && t.tail == s.tail && t.ringTail == s.ringTail && t.active[k].end == c.end
      && OnlyChain(s, t, k) && |t.mem| == |s.mem|
      && forall st :: D.CopyOne(D.Copied(s.mem, c.cursor, st), c.nbs[c.next], s.cap)
                      == D.Copied(t.mem, t.active[k].cursor, D.Count(st, c.nbs[c.next]))
  {
    hide Offset, PacketSpace, CopyPacket;
    var c := s.active[k];
    D.CursorStaysOk(c.cursor, c.nbs[c.next].length, s.cap);
  }

  lemma {:induction false} CopyFront(from: D.Copied, nbs: seq<NetBuffer>, cap: nat)
    requires D.CursorOk(from.mem, from.cursor, cap) && WellFormed(nbs) && nbs != []
    ensures D.CopyAll(from, nbs, cap) == D.CopyAll(D.CopyOne(from, nbs[0], cap), nbs[1..], cap)
    decreases |nbs|
  {
    hide D.CopyOne, D.CursorOk;
    var front, last := nbs[..|nbs| - 1], nbs[|nbs| - 1];
    if front == [] {
      D.CopyNothing(from, cap);
      D.CopyNothing(D.CopyOne(from, nbs[0], cap), cap);
      assert front == [] && nbs[1..] == [];
    } else {
      CopyFront(from, front, cap);
      assert nbs[1..] == front[1..] + [last] && nbs == front + [last];
      D.CopyAllAppend(D.CopyOne(from, nbs[0], cap), front[1..], last, cap);
      D.CopyAllAppend(from, front, last, cap);
    }
  }

  /** The copy loop of the entry point does to memory and cursor what the single steps do. */
  lemma {:induction false} CopyLoopIsSteps(s: State, k: nat, st: D.Stats)
    requires Copying(s, k)
    ensures var c, t := s.active[k], CopyRest(s, k);
      var copied := D.CopyAll(D.Copied(s.mem, c.cursor, st), c.nbs[c.next..], s.cap);
      && k < |t.active| && t.mem == copied.mem && t.active[k].cursor == copied.cursor
      && t.active[k].next == |c.nbs| && t.active[k].end == c.end && t.tail == s.tail && t.ringTail == s.ringTail
      && t.active[k].nbs == c.nbs && |t.mem| == |s.mem| && OnlyChain(s, t, k)
    decreases |s.active[k].nbs| - s.active[k].next
  {
    hide D.CopyAll, D.CopyOne, D.CursorOk, Step;
    var c := s.active[k];
    var rest := c.nbs[c.next..];
    var from := D.Copied(s.mem, c.cursor, st);
    if rest == [] {
      D.CopyNothing(from, s.cap);
    } else {
      CopyKeepsCopying(s, k);
      var t, nb := Step(s, CopyNext(k)), c.nbs[c.next];
      assert rest[0] == nb && rest[1..] == c.nbs[c.next + 1..];
      CopyFront(from, rest, s.cap);
      CopyLoopIsSteps(t, k, D.Count(st, nb));
    }
  }

  /** The end the reservation computed is where the copying arrives. */
  lemma {:induction false} CopyArrivesAtReservation(s: State, k: nat)
    requires Copying(s, k) && s.active[k].next == 0
    requires s.active[k].end == RingWrap(s.active[k].cursor + U32(Space(s.active[k].nbs)), s.cap)
    ensures var t := CopyRest(s, k); k < |t.active| && t.active[k].cursor == t.active[k].end
  {
    hide D.CopyAll, Offset, PacketSpace, RingWrap, CopyRest;
    var c := s.active[k];
    var st := D.Stats(0, 0, 0, 0);
    CopyLoopIsSteps(s, k, st);
    D.MeasureAndCopyAgree(D.Copied(s.mem, c.cursor, st), c.nbs, s.cap);
    assert c.nbs[0..] == c.nbs;
  }

  function Entries(active: seq<Chain>): (entries: seq<D.Entry>)
    ensures |entries| == |active|
    ensures forall k :: 0 <= k < |active| ==> entries[k] == D.Entry(active[k].end, active[k].completed)
  {
    if active == [] then [] else [D.Entry(active[0].end, active[0].completed)] + Entries(active[1..])
  }

  /** The completed chains at the front published without interruption. */
  ghost function PublishRest(s: State): State
    requires ValidCapacity(s.cap) && |s.mem| == s.cap + SLACK && s.publishers > 0
    decreases |s.active|
  {
    if Enabled(s, PublishNext) then PublishRest(Step(s, PublishNext)) else s
  }

  /** The publishing loop of the entry point leaves the active list and the tail as the single steps do. */
  lemma {:induction false} PublishLoopIsSteps(s: State)
    requires ValidCapacity(s.cap) && |s.mem| == s.cap + SLACK && s.publishers > 0
    ensures (Entries(PublishRest(s).active), PublishRest(s).tail) == D.PublishFront(Entries(s.active), s.tail)
    decreases |s.active|
  {
    hide Offset, PacketSpace;
    if Enabled(s, PublishNext) {
      var t := Step(s, PublishNext);
      assert Entries(s.active)[1..] == Entries(t.active);
      PublishLoopIsSteps(t);
    }
  }

  // ---- A whole call ----

  /** Between calls: the reserved tail is an aligned offset, and the ring is the one the driver uses. */
  ghost predicate Ready(s: State) {
    D.CursorOk(s.mem, s.ringTail, s.cap) && s.phase != Replaced
  }

  ghost predicate Measurable(nbs: seq<NetBuffer>) {
    WellFormed(nbs) && Space(nbs) < TWO32
  }

  /** A thread is past the tests of Running and Disconnected. */
  ghost function Inside(s: State): State
    requires Ready(s) && !s.Disconnected()
  {
    Step(Step(s, SenderEnters), SenderAdmitted)
  }

  /**
   * The entry point admits a chain if and only if the reservation is a possible step of the ring, for a thread that is
   * past the tests of Running and Disconnected; and otherwise it is the step of being refused.
   */
  lemma {:induction false} AdmittedIsReserve(s: State, nbs: seq<NetBuffer>)
    requires Ready(s) && !s.Disconnected() && Measurable(nbs)
    ensures var reason := D.Admission(true, false, s.head, s.ringTail, s.cap, U32(Space(nbs)));
      && (reason == D.Unset <==> Enabled(Inside(s), Reserve(nbs)))
      && (reason != D.Unset <==> Enabled(Inside(s), ReserveFails(nbs)))
  {
    hide Offset, Space, ValidCapacity, RingSpace, RingWrap;
  }

  ghost predicate SameClient(s: State, t: State) {
    && t.cap == s.cap && t.head == s.head && t.client == s.client && t.phase == s.phase
    && t.entered == s.entered && t.inside == s.inside && t.received == s.received
  }

  /** The reservation, and then the chain copied and marked completed without interruption. */
  lemma {:induction false} ReserveStartsCopying(s: State, nbs: seq<NetBuffer>)
    requires Ready(s) && !s.Disconnected() && Measurable(nbs) && Enabled(Inside(s), Reserve(nbs))
    ensures var c, k := Step(Inside(s), Reserve(nbs)), |s.active|;
      && Copying(c, k) && c.active == s.active + [c.active[k]] && c.mem == s.mem && c.tail == s.tail && c.cap == s.cap
      && c.active[k].nbs == nbs && c.active[k].next == 0 && c.active[k].cursor == s.ringTail
      && c.publishers == s.publishers && SameClient(s, c) && c.accepted == s.accepted + Contents(nbs)
      && c.active[k].end == c.ringTail == RingWrap(s.ringTail + U32(Space(nbs)), s.cap)
  {
    hide Offset, Space, ValidCapacity, RingSpace, RingWrap, SlotsFor, Pos, Contents;
  }

  /** The call once it is admitted. */
  ghost function Completed(s: State, nbs: seq<NetBuffer>): State
    requires Ready(s) && !s.Disconnected() && Measurable(nbs) && Enabled(Inside(s), Reserve(nbs))
  {
    var k := |s.active|;
    ReserveStartsCopying(s, nbs);
    var c := Step(Inside(s), Reserve(nbs));
    CopyLoopIsSteps(c, k, D.Stats(0, 0, 0, 0));
    Step(CopyRest(c, k), MarkCompleted(k))
  }

  lemma {:induction false} PublishKeepsPublishers(s: State)
    requires ValidCapacity(s.cap) && |s.mem| == s.cap + SLACK && s.publishers > 0
    ensures var t := PublishRest(s);
      && t.cap == s.cap && t.mem == s.mem && t.publishers == s.publishers && Enabled(t, PublishDone)
      && SameOutside(s, t)
    decreases |s.active|
  {
    hide Offset, PacketSpace;
    if Enabled(s, PublishNext) {
      PublishKeepsPublishers(Step(s, PublishNext));
    }
  }

  lemma {:induction false} CompletedIsReady(s: State, nbs: seq<NetBuffer>)
    requires Ready(s) && !s.Disconnected() && Measurable(nbs) && Enabled(Inside(s), Reserve(nbs))
    ensures var e, copied := Completed(s, nbs), D.CopyAll(D.Copied(s.mem, s.ringTail, D.Stats(0, 0, 0, 0)), nbs, s.cap);
      && e.cap == s.cap && |e.mem| == |s.mem| && e.publishers > 0 && e.mem == copied.mem && e.tail == s.tail
      && e.ringTail == RingWrap(s.ringTail + U32(Space(nbs)), s.cap)
      && Entries(e.active) == Entries(s.active) + [D.Entry(e.ringTail, true)]
      && SameClient(s, e) && e.publishers == s.publishers + 1 && e.accepted == s.accepted + Contents(nbs)
  {
    hide Offset, Space, ValidCapacity, RingWrap, D.CopyAll, CopyRest, Inside;
    var k := |s.active|;
    ReserveStartsCopying(s, nbs);
    var c := Step(Inside(s), Reserve(nbs));
    CopyLoopIsSteps(c, k, D.Stats(0, 0, 0, 0));
    assert nbs[0..] == nbs;
    var d := CopyRest(c, k);
    var e := Step(d, MarkCompleted(k));
    assert forall j :: 0 <= j < k ==> e.active[j] == s.active[j];
    EntriesAre(e.active, s.active, e.ringTail);
  }

  lemma {:induction false} EntriesAre(active: seq<Chain>, before: seq<Chain>, end: nat)
    requires |active| == |before| + 1 && forall j :: 0 <= j < |before| ==> active[j] == before[j]
    requires active[|before|].end == end && active[|before|].completed
    ensures Entries(active) == Entries(before) + [D.Entry(end, true)]
  {
  }

  /** TunSendNetBufferLists without interruption, made of steps of the ring. */
  ghost function SendCall(s: State, running: bool, nbs: seq<NetBuffer>): State
    requires Ready(s) && Measurable(nbs)
  {
    var entered := Step(s, SenderEnters);
    if !running || s.Disconnected() then Step(entered, SenderTurnedAway)
    else if Enabled(Inside(s), Reserve(nbs)) then
      CompletedIsReady(s, nbs);
      PublishKeepsPublishers(Completed(s, nbs));
      Step(PublishRest(Completed(s, nbs)), PublishDone)
    else Step(Inside(s), ReserveFails(nbs))
  }

  /** A call refused changes nothing, and one admitted leaves what the contract of the entry point says. */
  lemma {:induction false} SendCallIsSteps(s: State, running: bool, nbs: seq<NetBuffer>)
    requires Ready(s) && Measurable(nbs)
    ensures var t, space := SendCall(s, running, nbs), U32(Space(nbs));
      var reason := D.Admission(running, s.Disconnected(), s.head, s.ringTail, s.cap, space);
      var copied := D.CopyAll(D.Copied(s.mem, s.ringTail, D.Stats(0, 0, 0, 0)), nbs, s.cap);
      if reason == D.Unset then
        && t.mem == copied.mem && t.ringTail == RingWrap(s.ringTail + space, s.cap)
        && (Entries(t.active), t.tail) == D.PublishFront(Entries(s.active) + [D.Entry(t.ringTail, true)], s.tail)
        && SameClient(s, t) && t.publishers == s.publishers && t.accepted == s.accepted + Contents(nbs)
      else t == s
  {
    hide Offset, Space, ValidCapacity, RingSpace, RingWrap, D.CopyAll, Completed, PublishRest, D.PublishFront, Entries;
    if running && !s.Disconnected() {
      AdmittedIsReserve(s, nbs);
      if Enabled(Inside(s), Reserve(nbs)) {
        CompletedIsReady(s, nbs);
        PublishKeepsPublishers(Completed(s, nbs));
        PublishLoopIsSteps(Completed(s, nbs));
      }
    }
  }

  // ---- A call in a run ----

  lemma {:induction false} Advance(s: State, e: Event) returns (t: State)
    requires Reachable(s) && ValidCapacity(s.cap) && |s.mem| == s.cap + SLACK && Enabled(s, e)
    ensures t == Step(s, e) && Reachable(t)
  {
    hide Init, Enabled, Step, Inv, ValidCapacity;
    t := Step(s, e);
    var states, events :| IsRun(states, events) && states[|events|] == s;
    var more, steps := states + [t], events + [e];
    forall i | 0 <= i < |steps|
      ensures Next(more[i], steps[i], more[i + 1])
    {
      if i < |events| {
        assert Next(states[i], events[i], states[i + 1]);
      }
    }
    assert IsRun(more, steps) && more[|steps|] == t;
  }

  lemma {:induction false} CopyRestReachable(s: State, k: nat)
    requires Reachable(s) && Copying(s, k)
    ensures Reachable(CopyRest(s, k))
    decreases |s.active[k].nbs| - s.active[k].next
  {
    hide Reachable, Step, D.CursorOk;
    if s.active[k].next < |s.active[k].nbs| {
      CopyKeepsCopying(s, k);
      var t := Advance(s, CopyNext(k));
      CopyRestReachable(t, k);
    }
  }

  lemma {:induction false} PublishRestReachable(s: State)
    requires Reachable(s) && ValidCapacity(s.cap) && |s.mem| == s.cap + SLACK && s.publishers > 0
    ensures Reachable(PublishRest(s))
    decreases |s.active|
  {
    hide Reachable, Offset, PacketSpace;
    if Enabled(s, PublishNext) {
      var t := Advance(s, PublishNext);
      PublishRestReachable(t);
    }
  }

  /** Uninterrupted calls lead from one state of a run to another. */
  lemma {:induction false} SendCallIsReachable(s: State, running: bool, nbs: seq<NetBuffer>)
    requires Reachable(s) && Ready(s) && Measurable(nbs)
    ensures Reachable(SendCall(s, running, nbs))
  {
    hide Reachable, Offset, Space, RingSpace, RingWrap, CopyRest, PublishRest, SlotsFor, Contents, Pos;
    var a := Advance(s, SenderEnters);
    if !running || s.Disconnected() {
      var b := Advance(a, SenderTurnedAway);
    } else {
      var b := Advance(a, SenderAdmitted);
      if Enabled(b, Reserve(nbs)) {
        var c := Advance(b, Reserve(nbs));
        ReserveStartsCopying(s, nbs);
        CopyRestReachable(c, |s.active|);
        CopyLoopIsSteps(c, |s.active|, D.Stats(0, 0, 0, 0));
        var e := Advance(CopyRest(c, |s.active|), MarkCompleted(|s.active|));
        CompletedIsReady(s, nbs);
        PublishRestReachable(e);
        PublishKeepsPublishers(e);
        var t := Advance(PublishRest(e), PublishDone);
      } else {
        var c := Advance(b, ReserveFails(nbs));
      }
    }
  }

  // ---- A packet goes through ----

  /** No sender is at work, and the client has taken everything. */
  ghost predicate Quiet(s: State) {
    && Reachable(s) && Ready(s) && !s.Disconnected() && s.inside == s.publishers == 0 && s.active == []
    && |s.received| == |s.accepted|
  }

  lemma {:induction false} OnePacket(nb: NetBuffer)
    requires nb.WellFormed() && nb.length <= 0xFFFF
    ensures Measurable([nb]) && Space([nb]) == PacketSpace(nb.length) && Contents([nb]) == [nb.Content()]
  {
    assert [nb][1..] == [];
    assert Space([]) == 0 && Contents([]) == [];
  }

  /**
   * From any quiet state of any run, a packet for which there is space is admitted, and the next WintunReceivePacket
   * returns it: its bytes, or zeroes if they could not be mapped.
   */
  lemma {:induction false} PacketGoesThrough(s: State, nb: NetBuffer)
    requires Quiet(s) && nb.WellFormed() && nb.length <= 0xFFFF
    requires s.freed <= |s.log|
    requires Pos(s.log, |s.log|) + PacketSpace(nb.length) <= Pos(s.log, s.freed) + s.cap - ALIGNMENT
    ensures Measurable([nb])
    ensures var t := SendCall(s, true, [nb]);
      && ValidCapacity(t.cap) && |t.mem| == t.cap + SLACK
      && var r := ClientReceive(t.cap, t.client, t.tail, t.mem).1;
        && r.Packet? && r.at + r.size <= |t.mem| && r.size == nb.length
        && (nb.bytes.Some? ==> t.mem[r.at..r.at + r.size] == nb.bytes.value)
        && (nb.bytes.None? ==> forall i :: r.at <= i < r.at + r.size ==> t.mem[i] == 0)
  {
    hide Reachable, Offset, Space, RingSpace, RingWrap, SendCall, Contents, Pos, PacketSpace, ClientReceive, D.CopyAll;
    hide Entries, ValidCapacity;
    OnePacket(nb);
    CursorsInOrder(s);
    PacketIsAdmitted(s, nb);
    SendCallIsSteps(s, true, [nb]);
    SendCallIsReachable(s, true, [nb]);
    var t := SendCall(s, true, [nb]);
    LastPublished(s.active, t.ringTail, s.tail);
    NoEntries(t.active);
    NothingStranded(t);
    ReceiveReturnsNextAccepted(t);
    var r := ClientReceive(t.cap, t.client, t.tail, t.mem).1;
    assert t.accepted[|t.received|] == nb.Content();
    assert t.mem[r.at..r.at + r.size] == nb.Content();
    if nb.bytes.None? {
      forall i | r.at <= i < r.at + r.size
        ensures t.mem[i] == 0
      {
        assert t.mem[i] == t.mem[r.at..r.at + r.size][i - r.at];
      }
    }
  }

  lemma {:induction false} PacketIsAdmitted(s: State, nb: NetBuffer)
    requires Reachable(s) && Ready(s) && nb.WellFormed() && nb.length <= 0xFFFF && s.freed <= |s.log|
    requires Pos(s.log, |s.log|) + PacketSpace(nb.length) <= Pos(s.log, s.freed) + s.cap - ALIGNMENT
    ensures D.Admission(true, false, s.head, s.ringTail, s.cap, U32(Space([nb]))) == D.Unset
  {
    hide Reachable, Offset, Space, RingSpace, RingWrap, Pos, ValidCapacity;
    OnePacket(nb);
    CursorsInOrder(s);
    SmallSpace(nb.length);
    D.AdmissionExactly(true, false, s.head, s.ringTail, s.cap, PacketSpace(nb.length),
                       Pos(s.log, s.freed), Pos(s.log, |s.log|));
  }

  lemma {:induction false} SmallSpace(length: nat)
    requires length <= 0xFFFF
    ensures U32(PacketSpace(length)) == PacketSpace(length)
  {
  }

  lemma {:induction false} LastPublished(active: seq<Chain>, end: nat, tail: nat)
    requires active == []
    ensures D.PublishFront(Entries(active) + [D.Entry(end, true)], tail) == ([], end)
  {
    var entries := [D.Entry(end, true)];
    assert Entries(active) + entries == entries && entries[1..] == [];
    assert D.PublishFront(entries, tail) == D.PublishFront([], end);
  }

  lemma {:induction false} NoEntries(active: seq<Chain>)
    requires Entries(active) == []
    ensures active == []
  {
  }

  // ---- Disconnecting ----

  /** A step taken in a run. */
  ghost predicate Goes(s: State, e: Event, t: State) {
    ValidCapacity(s.cap) && |s.mem| == s.cap + SLACK && Enabled(s, e) && t == Step(s, e)
  }

  /**
   * Unregistering the ring with no sender at work: the barrier is passed at once, the tail is invalidated, and from
   * then on the client gets end of file; a later registration changes nothing about that.
   */
  lemma {:induction false} UnregisterGoesThrough(s: State) returns (a: State, b: State, c: State, d: State)
    requires Quiet(s) && s.phase == Live && s.entered == 0
    ensures Goes(s, SetDisconnected, a) && Goes(a, PassBarrier, b) && Goes(b, InvalidateTail, c)
    ensures Goes(c, Reregister, d)
    ensures c == s.(phase := Closed, tail := MAXULONG) && d == s.(phase := Replaced, tail := MAXULONG)
    ensures ClientReceive(c.cap, c.client, c.tail, c.mem) == (c.client, EndOfFile)
    ensures ClientReceive(d.cap, d.client, d.tail, d.mem) == (d.client, EndOfFile)
  {
    hide Reachable, Offset, Pos, ReleaseFront, MarkReleased, CopyPacket;
    a, b := s.(phase := Disconnecting), s.(phase := Drained);
    c, d := s.(phase := Closed, tail := MAXULONG), s.(phase := Replaced, tail := MAXULONG);
    CapacityIsSmall(s.cap);
  }

  lemma {:induction false} CapacityIsSmall(cap: nat)
    requires ValidCapacity(cap)
    ensures cap < MAXULONG
  {
  }
}
