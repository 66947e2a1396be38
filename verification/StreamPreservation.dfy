/** The genuine packets of a chain make up the payload of the original packet. */
module StreamPreservation {
  import opened Words
  import opened InternetChecksum
  import opened Packet
  import opened Tls
  import opened BypassStrategy

  /** The payload bytes of the genuine packets of a list, in list order. */
  function Stream(packets: seq<PacketToSend>): seq<byte>
    decreases |packets|
  {
    if packets == [] then []
    else (if packets[0].genuine then GetTCPPayload(packets[0].data) else []) + Stream(packets[1..])
  }

  /** Each genuine packet starts where the genuine ones before it end, in 32-bit sequence numbers. */
  predicate InSequence(packets: seq<PacketToSend>, next: nat)
    decreases |packets|
  {
    packets == [] ||
    if !packets[0].genuine then InSequence(packets[1..], next)
    else
      && ParseTCP(packets[0].data)
      && SequenceNumber(packets[0].data) == next
      && InSequence(packets[1..], U32(next + |GetTCPPayload(packets[0].data)|))
  }

  /** d is a segment of the same flow as p: only length, sequence number and checksums of the headers may differ. */
  ghost predicate SegmentOf(p: seq<byte>, d: seq<byte>)
    requires ParseTCP(p)
  {
    && ParseTCP(d)
    && SameHeaders(p, d)
    && d[8] == p[8]
    && d[IpHeaderLength(p) + 13] == p[IpHeaderLength(p) + 13]
  }

  /** Both checksums of d verify. */
  predicate Intact(d: seq<byte>) {
    ParseTCP(d) && TcpHeaders(d) <= TotalLength(d) && IpVerifies(d) && TcpVerifies(d)
  }

  ghost predicate AllSegmentsOf(p: seq<byte>, packets: seq<PacketToSend>)
    requires ParseTCP(p)
  {
    forall i :: 0 <= i < |packets| && packets[i].genuine ==>
      SegmentOf(p, packets[i].data) && (Intact(p) ==> Intact(packets[i].data))
  }

  /**
   * The invariant of the chain: the last packet is genuine and parses again, and the genuine ones make up the stream.
   */
  ghost predicate Preserves(p: seq<byte>, packets: seq<PacketToSend>)
    requires ParseTCP(p)
  {
    && packets != []
    && packets[|packets| - 1].genuine
    && ParseTCP(packets[|packets| - 1].data)
    && Stream(packets) == GetTCPPayload(p)
    && InSequence(packets, SequenceNumber(p))
    && AllSegmentsOf(p, packets)
  }

  // ---- Lists ----

  lemma {:induction false} StreamAppend(a: seq<PacketToSend>, b: seq<PacketToSend>)
    ensures Stream(a + b) == Stream(a) + Stream(b)
    decreases |a|
  {
    hide ParseTCP, GetTCPPayload;
    if a == [] {
      assert a + b == b;
    } else {
      assert (a + b)[1..] == a[1..] + b;
      StreamAppend(a[1..], b);
      var first := if a[0].genuine then GetTCPPayload(a[0].data) else [];
      assert first + (Stream(a[1..]) + Stream(b)) == (first + Stream(a[1..])) + Stream(b);
    }
  }

  lemma {:induction false} SequenceAppend(a: seq<PacketToSend>, b: seq<PacketToSend>, next: nat)
    requires next < TWO32
    ensures InSequence(a + b, next) <==> InSequence(a, next) && InSequence(b, U32(next + |Stream(a)|))
    decreases |a|
  {
    hide ParseTCP, GetTCPPayload, SequenceNumber, U32;
    if a == [] {
      assert a + b == b;
      Wrapped(next, 0);
    } else {
      assert (a + b)[1..] == a[1..] + b;
      var n := if a[0].genuine then |GetTCPPayload(a[0].data)| else 0;
      assert |Stream(a)| == n + |Stream(a[1..])|;
      Wrapped(next + n, |Stream(a[1..])|);
      Wrapped(next, 0);
      SequenceAppend(a[1..], b, if a[0].genuine then U32(next + n) else next);
    }
  }

  lemma {:induction false} Wrapped(x: nat, y: nat)
    ensures U32(U32(x) + y) == U32(x + y) && U32(x) < TWO32
    ensures x < TWO32 ==> U32(x) == x
  {
  }

  lemma {:induction false} DelayedSame(packets: seq<PacketToSend>, delay: nat, next: nat)
    ensures Stream(Delayed(packets, delay)) == Stream(packets)
    ensures InSequence(Delayed(packets, delay), next) <==> InSequence(packets, next)
    ensures forall i :: 0 <= i < |packets| ==>
      && Delayed(packets, delay)[i].data == packets[i].data && Delayed(packets, delay)[i].genuine == packets[i].genuine
      && Delayed(packets, delay)[i].delay == U32(packets[i].delay + delay)
    decreases |packets|
  {
    hide ParseTCP, GetTCPPayload, SequenceNumber;
    if packets != [] {
      var d := Delayed(packets, delay);
      assert d[1..] == Delayed(packets[1..], delay);
      var n := if packets[0].genuine then |GetTCPPayload(packets[0].data)| else 0;
      DelayedSame(packets[1..], delay, if packets[0].genuine then U32(next + n) else next);
      forall i | 0 <= i < |packets|
        ensures d[i].data == packets[i].data && d[i].genuine == packets[i].genuine
        ensures d[i].delay == U32(packets[i].delay + delay)
      {
        assert i > 0 ==> d[i] == d[1..][i - 1] && packets[i] == packets[1..][i - 1];
      }
    }
  }

  lemma {:induction false} StreamOfTwo(a: PacketToSend, b: PacketToSend, next: nat)
    ensures Stream([a, b])
      == (if a.genuine then GetTCPPayload(a.data) else []) + (if b.genuine then GetTCPPayload(b.data) else [])
    ensures InSequence([a, b], next) <==>
      && (a.genuine ==> ParseTCP(a.data) && SequenceNumber(a.data) == next)
      && (b.genuine ==>
            && ParseTCP(b.data)
            && SequenceNumber(b.data) == if a.genuine then U32(next + |GetTCPPayload(a.data)|) else next)
  {
    hide ParseTCP, GetTCPPayload, SequenceNumber;
    assert [a, b][1..] == [b];
    assert [b][1..] == [];
    var last := if b.genuine then GetTCPPayload(b.data) else [];
    assert Stream([b]) == last + Stream([]) && last + [] == last;
    var second := if a.genuine then U32(next + |GetTCPPayload(a.data)|) else next;
    assert InSequence([b], second) <==> (b.genuine ==> ParseTCP(b.data) && SequenceNumber(b.data) == second);
  }

  // ---- Segments ----

  lemma {:induction false} SegmentOfSelf(p: seq<byte>)
    requires ParseTCP(p)
    ensures SegmentOf(p, p)
  {
  }

  lemma {:induction false} SegmentOfTransitive(p: seq<byte>, d: seq<byte>, e: seq<byte>)
    requires ParseTCP(p) && SegmentOf(p, d) && SegmentOf(d, e)
    ensures SegmentOf(p, e)
  {
    hide IpHeaderLength, TcpHeaderLength;
    SameHeadersLengths(p, d);
  }

  /** A segment of part of the payload is faithful, and intact whatever the original was. */
  lemma {:induction false} SegmentIsFaithful(p: seq<byte>, payload: seq<byte>, sequence: nat)
    requires ParseTCP(p) && sequence < TWO32 && TcpHeaders(p) + |payload| < WORD
    ensures var d := Segment(p, payload, sequence);
      SegmentOf(p, d) && Intact(d) && GetTCPPayload(d) == payload && SequenceNumber(d) == sequence
  {
    hide ParseTCP, Rebuilt, IpHeaderLength, GetTCPPayload, SequenceNumber, IpVerifies, TcpVerifies, SameHeaders;
    TcpHeadersRange(p);
    RebuiltIsFaithful(p, payload, p[8], sequence, p[IpHeaderLength(p) + 13]);
  }

  /**
   * A split is a valid segmentation. It happens exactly when the cut is inside the payload; then there are two
   * segments, both are accepted by the parsers, carry exactly the bytes before and after the cut under the right
   * sequence numbers, differ from the original only in length, sequence number and checksums, and verify.
   */
  lemma {:induction false} SplitIsSegmentation(splitOffset: nat, splitDelay: nat, p: seq<byte>)
    requires ParseTCP(p)
    ensures var payload, res := GetTCPPayload(p), ApplySplit(splitOffset, splitDelay, p);
      var cut := Cut(splitOffset, payload);
      && (res == [] <==> !(0 < cut < |payload|))
      && (res != [] ==>
            && |res| == 2 && res[0].genuine && res[1].genuine && res[0].delay == 0 && res[1].delay == splitDelay
            && SegmentOf(p, res[0].data) && SegmentOf(p, res[1].data) && Intact(res[0].data) && Intact(res[1].data)
            && GetTCPPayload(res[0].data) == payload[..cut] && GetTCPPayload(res[1].data) == payload[cut..]
            && SequenceNumber(res[0].data) == SequenceNumber(p)
            && SequenceNumber(res[1].data) == U32(SequenceNumber(p) + cut))
  {
    hide ParseTCP, Segment, GetTCPPayload, SequenceNumber, Cut, SegmentOf, Intact;
    var payload := GetTCPPayload(p);
    var cut := Cut(splitOffset, payload);
    if 0 < cut < |payload| {
      TcpPayloadIsRest(p);
      SegmentIsFaithful(p, payload[..cut], SequenceNumber(p));
      SegmentIsFaithful(p, payload[cut..], U32(SequenceNumber(p) + cut));
    }
  }

  /** The automatic cut falls strictly inside the host name exactly when the name has two bytes or more. */
  lemma {:induction false} AutomaticCutIsInsideName(payload: seq<byte>, o: nat, n: nat)
    requires FindSNI(payload) == Some((o, n))
    ensures o < Cut(0, payload) < o + n <==> n >= 2
    ensures n > 0 ==> 0 < Cut(0, payload) < |payload|
  {
    hide FindSNI;
    assert HostNameAt(payload, FindSNI(payload).value.0, FindSNI(payload).value.1);
  }

  /** A junk packet that fits an IP packet is accepted by the parsers, carries the noise, and verifies. */
  lemma {:induction false} JunkIsWellFormed(noise: seq<byte>, ttl: byte, sequenceOffset: int, p: seq<byte>)
    requires ParseTCP(p) && GetTCPPayload(p) != [] && TcpHeaders(p) + |noise| < WORD
    ensures var res := ApplyJunk(noise, ttl, sequenceOffset, p);
      && |res| == 2 && res[1] == PacketToSend(p, 0, true) && !res[0].genuine
      && Intact(res[0].data) && SameHeaders(p, res[0].data) && GetTCPPayload(res[0].data) == noise
      && SequenceNumber(res[0].data) == U32(SequenceNumber(p) + sequenceOffset)
      && res[0].data[8] == ttl && res[0].data[IpHeaderLength(p) + 13] == PSH_ACK
  {
    hide ParseTCP, Rebuilt, IpHeaderLength, GetTCPPayload, SequenceNumber, IpVerifies, TcpVerifies, SameHeaders;
    TcpHeadersRange(p);
    RebuiltIsFaithful(p, noise, ttl, U32(SequenceNumber(p) + sequenceOffset), PSH_ACK);
  }

  // ---- The chain ----

  lemma {:induction false} ApplyPreserves(s: Strategy, p: seq<byte>)
    requires ParseTCP(p) && Apply(s, p) != []
    ensures Preserves(p, Apply(s, p))
  {
    hide ParseTCP, GetTCPPayload, SequenceNumber, Stream, InSequence, SegmentOf, Intact, Cut, Rebuilt, Segment;
    var made := Apply(s, p);
    var payload := GetTCPPayload(p);
    match s {
      case Split(splitOffset, splitDelay) =>
        SplitIsSegmentation(splitOffset, splitDelay, p);
        var cut := Cut(splitOffset, payload);
        assert payload[..cut] + payload[cut..] == payload;
        SegmentParses(p, made[1].data);
        SegmentParses(p, made[0].data);
      case Junk(noise, ttl, sequenceOffset) =>
        SegmentOfSelf(p);
        assert [] + payload == payload;
    }
    assert made == [made[0], made[1]];
    StreamOfTwo(made[0], made[1], SequenceNumber(p));
  }

  lemma {:induction false} SegmentParses(p: seq<byte>, d: seq<byte>)
    requires ParseTCP(p) && SegmentOf(p, d)
    ensures ParseTCP(d)
  {
    hide ParseTCP;
  }

  lemma {:induction false} TurnPreserves(s: Strategy, p: seq<byte>, packets: seq<PacketToSend>)
    requires ParseTCP(p) && Preserves(p, packets)
    ensures Preserves(p, ChainTurn(s, packets))
  {
    hide ParseTCP, GetTCPPayload, SequenceNumber, Stream, InSequence, SegmentOf, Intact, Apply;
    var front, target := packets[..|packets| - 1], packets[|packets| - 1];
    var made := Apply(s, target.data);
    if made != [] {
      ApplyPreserves(s, target.data);
      assert packets == front + [target];
      var next := SequenceNumber(p);
      StreamAppend(front, [target]);
      StreamAppend(front, Delayed(made, target.delay));
      SequenceAppend(front, [target], next);
      SequenceAppend(front, Delayed(made, target.delay), next);
      StreamOfOne(target, U32(next + |Stream(front)|));
      DelayedSame(made, target.delay, SequenceNumber(target.data));
      TurnSegments(p, packets, made);
    }
  }

  lemma {:induction false} StreamOfOne(t: PacketToSend, next: nat)
    requires t.genuine
    ensures Stream([t]) == GetTCPPayload(t.data)
    ensures InSequence([t], next) <==> ParseTCP(t.data) && SequenceNumber(t.data) == next
  {
    hide ParseTCP, GetTCPPayload, SequenceNumber;
    assert GetTCPPayload(t.data) + [] == GetTCPPayload(t.data);
  }

  lemma {:induction false} TurnSegments(p: seq<byte>, packets: seq<PacketToSend>, made: seq<PacketToSend>)
    requires ParseTCP(p) && packets != [] && AllSegmentsOf(p, packets)
    requires packets[|packets| - 1].genuine && ParseTCP(packets[|packets| - 1].data)
    requires AllSegmentsOf(packets[|packets| - 1].data, made)
    ensures AllSegmentsOf(p, packets[..|packets| - 1] + Delayed(made, packets[|packets| - 1].delay))
  {
    hide ParseTCP, Intact, SegmentOf;
    var front, target := packets[..|packets| - 1], packets[|packets| - 1];
    var d := Delayed(made, target.delay);
    var all := front + d;
    DelayedSame(made, target.delay, 0);
    forall i: nat | 0 <= i < |all| && all[i].genuine
      ensures SegmentOf(p, all[i].data) && (Intact(p) ==> Intact(all[i].data))
    {
      if i < |front| {
        assert all[i] == packets[i];
      } else {
        assert all[i] == d[i - |front|];
        SegmentOfTransitive(p, target.data, made[i - |front|].data);
      }
    }
  }

  lemma {:induction false} ChainKeepsPreserving(strategies: seq<Strategy>, p: seq<byte>, packets: seq<PacketToSend>)
    requires ParseTCP(p) && Preserves(p, packets)
    ensures Preserves(p, Chain(strategies, packets))
    decreases |strategies|
  {
    hide ParseTCP, Preserves, ChainTurn;
    if strategies != [] {
      TurnPreserves(strategies[0], p, packets);
      ChainKeepsPreserving(strategies[1..], p, ChainTurn(strategies[0], packets));
    }
  }

  /**
   * For any chain over split and junk, of any length and order: the last packet is a genuine one that parses, so no
   * turn ever gives up its target; the genuine packets in list order concatenate to the original payload, each
   * under the original sequence number plus the bytes before it, modulo 2^32; and each is a segment of the flow.
   */
  lemma {:induction false} ChainPreservesStream(strategies: seq<Strategy>, p: seq<byte>)
    requires ParseTCP(p)
    ensures Preserves(p, Chain(strategies, [PacketToSend(p, 0, true)]))
  {
    hide ParseTCP, GetTCPPayload, SequenceNumber, SegmentOf, Intact, Chain, Stream, InSequence;
    var seed := PacketToSend(p, 0, true);
    StreamOfOne(seed, SequenceNumber(p));
    SegmentOfSelf(p);
    assert AllSegmentsOf(p, [seed]);
    ChainKeepsPreserving(strategies, p, [seed]);
  }

  /** A packet the parsers refuse is lost by the first turn; this is the only way to an empty result. */
  lemma {:induction false} ChainIsEmptyExactly(strategies: seq<Strategy>, p: seq<byte>)
    ensures Chain(strategies, [PacketToSend(p, 0, true)]) == [] <==> strategies != [] && !ParseTCP(p)
  {
    hide ParseTCP, Stream, InSequence, AllSegmentsOf;
    var seed := PacketToSend(p, 0, true);
    if ParseTCP(p) {
      ChainPreservesStream(strategies, p);
    } else if strategies != [] {
      assert ChainTurn(strategies[0], [seed]) == [];
      EmptyChain(strategies[1..]);
    }
  }

  // ---- Delays ----

  function TotalDelay(strategies: seq<Strategy>): nat
    decreases |strategies|
  {
    if strategies == [] then 0
    else (if strategies[0].Split? then strategies[0].splitDelay else 0) + TotalDelay(strategies[1..])
  }

  ghost predicate Ordered(packets: seq<PacketToSend>) {
    forall i, j :: 0 <= i <= j < |packets| ==> packets[i].delay <= packets[j].delay
  }

  lemma {:induction false} OrderedAppend(front: seq<PacketToSend>, d: seq<PacketToSend>, delay: nat)
    requires Ordered(front) && Ordered(d)
    requires forall i :: 0 <= i < |front| ==> front[i].delay <= delay
    requires forall i :: 0 <= i < |d| ==> delay <= d[i].delay
    ensures Ordered(front + d)
  {
  }

  lemma {:induction false} ApplyDelays(s: Strategy, p: seq<byte>)
    requires ParseTCP(p) && Apply(s, p) != []
    ensures var made := Apply(s, p); |made| == 2 && made[0].delay == 0 && made[1].delay <= TotalDelay([s])
  {
    hide ParseTCP, GetTCPPayload, SequenceNumber, Segment, Rebuilt, Cut;
    assert [s][1..] == [];
  }

  lemma {:induction false} TurnKeepsOrder(s: Strategy, packets: seq<PacketToSend>)
    requires packets != [] && ParseTCP(packets[|packets| - 1].data) && Ordered(packets)
    requires packets[|packets| - 1].delay + TotalDelay([s]) < TWO32
    ensures var turned := ChainTurn(s, packets);
      && turned != [] && Ordered(turned)
      && turned[|turned| - 1].delay <= packets[|packets| - 1].delay + TotalDelay([s])
  {
    hide ParseTCP, Apply, Delayed;
    var front, target := packets[..|packets| - 1], packets[|packets| - 1];
    var made := Apply(s, target.data);
    if made != [] {
      var d := Delayed(made, target.delay);
      DelayedSame(made, target.delay, 0);
      ApplyDelays(s, target.data);
      assert d[0].delay == target.delay && d[0].delay <= d[1].delay;
      OrderedAppend(front, d, target.delay);
    }
  }

  /** As long as the configured delays do not overflow together, later packets never have smaller delays. */
  lemma {:induction false} ChainDelaysAreOrdered(strategies: seq<Strategy>, p: seq<byte>, packets: seq<PacketToSend>)
    requires ParseTCP(p) && Preserves(p, packets) && Ordered(packets)
    requires packets[|packets| - 1].delay + TotalDelay(strategies) < TWO32
    ensures Ordered(Chain(strategies, packets))
    decreases |strategies|
  {
    hide ParseTCP, Stream, InSequence, AllSegmentsOf, ChainTurn, GetTCPPayload, SequenceNumber;
    if strategies != [] {
      var s := strategies[0];
      assert TotalDelay([s]) + TotalDelay(strategies[1..]) == TotalDelay(strategies);
      TurnKeepsOrder(s, packets);
      TurnPreserves(s, p, packets);
      ChainDelaysAreOrdered(strategies[1..], p, ChainTurn(s, packets));
    }
  }
}
