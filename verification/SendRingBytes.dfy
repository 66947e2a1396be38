/** The bytes that go through the send ring, told from the buffers given to the driver alone. */
module SendRingBytes {
  import opened Words
  import opened RingLayout
  import opened SendRing
  import opened SendRingInvariant
  import opened SendRingTheorems

  /** The buffers of all chains admitted, in the order of reservation. */
  function Offered(events: seq<Event>): seq<NetBuffer>
    decreases |events|
  {
    if events == [] then []
    else
      var last := events[|events| - 1];
      Offered(events[..|events| - 1]) + if last.Reserve? then last.nbs else []
  }

  /** Those of them that an IP packet may be long. */
  function Fitting(nbs: seq<NetBuffer>): seq<NetBuffer> {
    if nbs == [] then [] else (if nbs[0].length <= 0xFFFF then [nbs[0]] else []) + Fitting(nbs[1..])
  }

  lemma {:induction false} FittingAppend(a: seq<NetBuffer>, b: seq<NetBuffer>)
    ensures Fitting(a + b) == Fitting(a) + Fitting(b)
    decreases |a|
  {
    if a == [] {
      assert a + b == b;
    } else {
      assert (a + b)[1..] == a[1..] + b;
      FittingAppend(a[1..], b);
    }
  }

  /** A packet is the buffer's: its bytes, or as many zeroes if they could not be mapped. */
  ghost predicate IsBuffer(packet: seq<byte>, nb: NetBuffer) {
    && |packet| == nb.length
    && (nb.bytes.Some? ==> packet == nb.bytes.value)
    && (nb.bytes.None? ==> forall k :: 0 <= k < |packet| ==> packet[k] == 0)
  }

  ghost predicate AreBuffers(packets: seq<seq<byte>>, nbs: seq<NetBuffer>) {
    |packets| == |nbs| && forall i :: 0 <= i < |packets| ==> IsBuffer(packets[i], nbs[i])
  }

  lemma {:induction false} ContentsAreBuffers(nbs: seq<NetBuffer>)
    requires WellFormed(nbs)
    ensures AreBuffers(Contents(nbs), Fitting(nbs))
    decreases |nbs|
  {
    if nbs != [] {
      assert nbs[0].WellFormed();
      assert WellFormed(nbs[1..]) by { assert forall i :: 0 <= i < |nbs[1..]| ==> nbs[1..][i] == nbs[i + 1]; }
      ContentsAreBuffers(nbs[1..]);
    }
  }

  lemma {:induction false} OthersAcceptNothing(s: State, e: Event)
    requires ValidCapacity(s.cap) && |s.mem| == s.cap + SLACK && Enabled(s, e) && !e.Reserve?
    ensures Step(s, e).accepted == s.accepted
  {
    hide Offset, Pos, ClientReceive, ReleaseFront, MarkReleased, CopyPacket, Splice, ValidCapacity, RingSpace;
  }

  lemma {:induction false} AcceptedAreBuffers(states: seq<State>, events: seq<Event>)
    requires IsRun(states, events)
    ensures AreBuffers(states[|events|].accepted, Fitting(Offered(events)))
    decreases |events|
  {
    hide Step, Enabled, Contents, Init, IsBuffer, ValidCapacity;
    if events == [] {
      StartsEmpty(states[0]);
    } else {
      var n := |events| - 1;
      var earlier, steps := states[..n + 1], events[..n];
      forall k | 0 <= k < n
        ensures Next(earlier[k], steps[k], earlier[k + 1])
      {
        assert Next(states[k], events[k], states[k + 1]);
      }
      assert IsRun(earlier, steps);
      AcceptedAreBuffers(earlier, steps);
      assert Next(states[n], events[n], states[n + 1]);
      if events[n].Reserve? {
        ReserveAccepts(states[n], events[n].nbs);
        ContentsAreBuffers(events[n].nbs);
        FittingAppend(Offered(steps), events[n].nbs);
      } else {
        OthersAcceptNothing(states[n], events[n]);
        FittingAppend(Offered(steps), []);
        assert Offered(steps) + [] == Offered(steps);
      }
    }
  }

  lemma {:induction false} StartsEmpty(s: State)
    requires Init(s)
    ensures s.accepted == []
  {
  }

  lemma {:induction false} ReserveAccepts(s: State, nbs: seq<NetBuffer>)
    requires ValidCapacity(s.cap) && |s.mem| == s.cap + SLACK && Enabled(s, Reserve(nbs))
    ensures WellFormed(nbs) && Step(s, Reserve(nbs)).accepted == s.accepted + Contents(nbs)
  {
    hide Offset, Pos, Contents, RingSpace, SlotsFor;
  }

  /**
   * End to end, from what was given to what is taken: over every interleaving, the packets received are in order those
   * of the first buffers of a valid length among the chains admitted, each with exactly its buffer's bytes, or as many
   * zeroes if these could not be mapped.
   */
  lemma {:induction false} DeliveredBytes(states: seq<State>, events: seq<Event>, i: nat)
    requires IsRun(states, events) && i < |states[|events|].received|
    ensures var nbs, packet := Fitting(Offered(events)), states[|events|].received[i];
      && i < |nbs| && |packet| == nbs[i].length <= 0xFFFF
      && (nbs[i].bytes.Some? ==> packet == nbs[i].bytes.value)
      && (nbs[i].bytes.None? ==> forall k :: 0 <= k < |packet| ==> packet[k] == 0)
  {
    hide IsRun, Fitting, Offered;
    AcceptedAreBuffers(states, events);
    RunIsLong(states, events);
    DeliveredInOrder(states, events, |events|, |events|);
    assert IsBuffer(states[|events|].accepted[i], Fitting(Offered(events))[i]);
    FittingFits(Offered(events), i);
  }

  lemma {:induction false} RunIsLong(states: seq<State>, events: seq<Event>)
    requires IsRun(states, events)
    ensures |states| == |events| + 1
  {
  }

  lemma {:induction false} FittingFits(nbs: seq<NetBuffer>, i: nat)
    requires i < |Fitting(nbs)|
    ensures Fitting(nbs)[i].length <= 0xFFFF
    decreases |nbs|
  {
    var first := if nbs[0].length <= 0xFFFF then [nbs[0]] else [];
    if i >= |first| {
      FittingFits(nbs[1..], i - |first|);
    }
  }
}
