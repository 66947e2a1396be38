/**
 * What a chain will inject, told from its strategies and the payload alone: parts of the payload and noise, each at an
 * offset from the payload's start. The packets of the chain are proved to carry exactly the pieces of this plan.
 */
module ChainPlan {
  import opened Words
  import opened InternetChecksum
  import opened Packet
  import opened Tls
  import opened BypassStrategy
  import opened StreamPreservation
  import opened Receiver

  datatype Piece =
    | Part(at: int, bytes: seq<byte>)
    | Noise(at: int, bytes: seq<byte>, ttl: byte)

  function PlanApply(s: Strategy, last: Piece): seq<Piece> {
    match s
    case Split(splitOffset, _) =>
      var cut := Cut(splitOffset, last.bytes);
      if 0 < cut < |last.bytes| then [Part(last.at, last.bytes[..cut]), Part(last.at + cut, last.bytes[cut..])]
      else [last]
    case Junk(noise, ttl, sequenceOffset) =>
      if last.bytes == [] then [last] else [Noise(last.at + sequenceOffset, noise, ttl), last]
  }

  /** Strategies apply to the last piece, one after the other. */
  function Plan(strategies: seq<Strategy>, pieces: seq<Piece>): seq<Piece>
    requires pieces != []
    decreases |strategies|
  {
    if strategies == [] then pieces
    else Plan(strategies[1..], pieces[..|pieces| - 1] + PlanApply(strategies[0], pieces[|pieces| - 1]))
  }

  // ---- Packets carry the plan ----

  ghost predicate Places(p: seq<byte>, piece: Piece, d: seq<byte>)
    requires ParseTCP(p)
  {
    && ParseTCP(d)
    && GetTCPPayload(d) == piece.bytes
    && SequenceNumber(d) == U32(SequenceNumber(p) + piece.at)
  }

  /** A packet that is looked at if it arrives, and does not end the stream. */
  predicate OrdinaryData(d: seq<byte>) {
    Intact(d) && HasFlag(d, ACK) && !HasFlag(d, SYN) && !HasFlag(d, RST) && !HasFlag(d, FIN)
  }

  /** The packet is the piece: a segment of the flow, or noise, which may be too long to be well formed. */
  ghost predicate Carries(p: seq<byte>, piece: Piece, packet: PacketToSend)
    requires ParseTCP(p)
  {
    && packet.genuine == piece.Part?
    && (piece.Part? ==> SegmentOf(p, packet.data) && Intact(packet.data) && Places(p, piece, packet.data))
    && (piece.Noise? ==> |packet.data| > 8 && packet.data[8] == piece.ttl)
    && (piece.Noise? && TcpHeaders(p) + |piece.bytes| < WORD ==>
          OrdinaryData(packet.data) && Places(p, piece, packet.data))
  }

  ghost predicate AllCarry(p: seq<byte>, pieces: seq<Piece>, packets: seq<PacketToSend>)
    requires ParseTCP(p)
  {
    |pieces| == |packets| && forall i :: 0 <= i < |pieces| ==> Carries(p, pieces[i], packets[i])
  }

  lemma {:induction false} WrappedInt(base: nat, x: int, y: int)
    ensures U32(U32(base + x) + y) == U32(base + (x + y)) < TWO32
  {
  }

  lemma {:induction false} SplitCarries(p: seq<byte>, t: PacketToSend, last: Piece, splitOffset: nat, splitDelay: nat)
    requires ParseTCP(p) && last.Part? && Carries(p, last, t)
    ensures ParseTCP(t.data)
    ensures var made := ApplySplit(splitOffset, splitDelay, t.data);
      var pieces := PlanApply(Split(splitOffset, splitDelay), last);
      if made == [] then pieces == [last] else AllCarry(p, pieces, made)
  {
    hide ParseTCP, GetTCPPayload, SequenceNumber, SegmentOf, Intact, Cut, ApplySplit, U32;
    SplitIsSegmentation(splitOffset, splitDelay, t.data);
    var made := ApplySplit(splitOffset, splitDelay, t.data);
    var cut := Cut(splitOffset, last.bytes);
    if made != [] {
      WrappedInt(SequenceNumber(p), last.at, cut);
      SegmentCarries(p, t, Part(last.at, last.bytes[..cut]), made[0]);
      SegmentCarries(p, t, Part(last.at + cut, last.bytes[cut..]), made[1]);
    }
  }

  lemma {:induction false} SegmentCarries(p: seq<byte>, t: PacketToSend, piece: Piece, made: PacketToSend)
    requires ParseTCP(p) && SegmentOf(p, t.data) && SegmentOf(t.data, made.data) && Intact(made.data)
    requires piece.Part? && made.genuine
    requires GetTCPPayload(made.data) == piece.bytes
    requires SequenceNumber(made.data) == U32(SequenceNumber(p) + piece.at)
    ensures Carries(p, piece, made)
  {
    hide ParseTCP, GetTCPPayload, SequenceNumber, SegmentOf, Intact, U32;
    SegmentOfTransitive(p, t.data, made.data);
    SegmentParses(p, made.data);
  }

  lemma {:induction false} JunkCarries(p: seq<byte>, t: PacketToSend, last: Piece, noise: seq<byte>, ttl: byte, k: int)
    requires ParseTCP(p) && last.Part? && Carries(p, last, t)
    ensures ParseTCP(t.data)
    ensures var made, pieces := ApplyJunk(noise, ttl, k, t.data), PlanApply(Junk(noise, ttl, k), last);
      if made == [] then pieces == [last] else AllCarry(p, pieces, made)
  {
    hide ParseTCP, GetTCPPayload, SequenceNumber, SegmentOf, Intact, Rebuilt, U32, OrdinaryData;
    var made := ApplyJunk(noise, ttl, k, t.data);
    if made != [] {
      NoiseCarries(p, t, last, noise, ttl, k);
      assert made[1].data == t.data && made[1].genuine;
    }
  }

  lemma {:induction false} NoiseCarries(p: seq<byte>, t: PacketToSend, last: Piece, noise: seq<byte>, ttl: byte, k: int)
    requires ParseTCP(p) && last.Part? && Carries(p, last, t) && last.bytes != []
    ensures ParseTCP(t.data) && ApplyJunk(noise, ttl, k, t.data) != []
    ensures Carries(p, Noise(last.at + k, noise, ttl), ApplyJunk(noise, ttl, k, t.data)[0])
  {
    hide ParseTCP, GetTCPPayload, SequenceNumber, Intact, Rebuilt, U32, OrdinaryData, SameHeaders, SegmentOf;
    hide IpHeaderLength, TcpHeaderLength;
    WrappedInt(SequenceNumber(p), last.at, k);
    TcpHeadersRange(t.data);
    RebuiltFields(t.data, noise, ttl, U32(SequenceNumber(t.data) + k), PSH_ACK);
    if TcpHeaders(p) + |noise| < WORD {
      SegmentHeaders(p, t.data);
      JunkIsOrdinary(noise, ttl, k, t.data);
    }
  }

  lemma {:induction false} SegmentHeaders(p: seq<byte>, d: seq<byte>)
    requires ParseTCP(p) && SegmentOf(p, d)
    ensures ParseTCP(d) && TcpHeaders(d) == TcpHeaders(p)
  {
    hide ParseTCP, IpHeaderLength, TcpHeaderLength;
    SameHeadersLengths(p, d);
  }

  lemma {:induction false} JunkIsOrdinary(noise: seq<byte>, ttl: byte, k: int, p: seq<byte>)
    requires ParseTCP(p) && GetTCPPayload(p) != [] && TcpHeaders(p) + |noise| < WORD
    ensures var d := ApplyJunk(noise, ttl, k, p)[0].data;
      && OrdinaryData(d) && ParseTCP(d) && GetTCPPayload(d) == noise
      && SequenceNumber(d) == U32(SequenceNumber(p) + k)
  {
    hide Rebuilt, GetTCPPayload, SequenceNumber, IpVerifies, TcpVerifies;
    JunkIsWellFormed(noise, ttl, k, p);
    SameHeadersLengths(p, ApplyJunk(noise, ttl, k, p)[0].data);
  }

  lemma {:induction false} ApplyCarries(p: seq<byte>, t: PacketToSend, last: Piece, s: Strategy)
    requires ParseTCP(p) && last.Part? && Carries(p, last, t)
    ensures ParseTCP(t.data)
    ensures if Apply(s, t.data) == [] then PlanApply(s, last) == [last]
            else AllCarry(p, PlanApply(s, last), Apply(s, t.data))
  {
    hide ParseTCP, Carries, ApplySplit, ApplyJunk, PlanApply;
    match s {
      case Split(splitOffset, splitDelay) => SplitCarries(p, t, last, splitOffset, splitDelay);
      case Junk(noise, ttl, k) => JunkCarries(p, t, last, noise, ttl, k);
    }
  }

  lemma {:induction false} TurnCarries(p: seq<byte>, packets: seq<PacketToSend>, pieces: seq<Piece>, s: Strategy)
    requires ParseTCP(p) && pieces != [] && pieces[|pieces| - 1].Part? && AllCarry(p, pieces, packets)
    ensures AllCarry(p, pieces[..|pieces| - 1] + PlanApply(s, pieces[|pieces| - 1]), ChainTurn(s, packets))
  {
    hide ParseTCP, Carries, Apply, PlanApply;
    var front, target, last := packets[..|packets| - 1], packets[|packets| - 1], pieces[|pieces| - 1];
    ApplyCarries(p, target, last, s);
    var made := Apply(s, target.data);
    if made == [] {
      assert pieces[..|pieces| - 1] + [last] == pieces;
    } else {
      DelayedCarry(p, PlanApply(s, last), made, target.delay);
    }
  }

  lemma {:induction false} DelayedCarry(p: seq<byte>, pieces: seq<Piece>, made: seq<PacketToSend>, delay: nat)
    requires ParseTCP(p) && AllCarry(p, pieces, made)
    ensures AllCarry(p, pieces, Delayed(made, delay))
  {
    hide ParseTCP, SegmentOf, Intact, Places, OrdinaryData;
    DelayedSame(made, delay, 0);
    forall i | 0 <= i < |pieces|
      ensures Carries(p, pieces[i], Delayed(made, delay)[i])
    {
      assert Carries(p, pieces[i], made[i]);
    }
  }

  lemma {:induction false} LastIsPart(s: Strategy, last: Piece)
    requires last.Part?
    ensures PlanApply(s, last) != [] && PlanApply(s, last)[|PlanApply(s, last)| - 1].Part?
  {
    hide Cut;
  }

  /** The packets of a chain carry the pieces of its plan, in order. */
  lemma {:induction false} ChainCarries(
    strategies: seq<Strategy>, p: seq<byte>, packets: seq<PacketToSend>, pieces: seq<Piece>)
    requires ParseTCP(p) && pieces != [] && pieces[|pieces| - 1].Part? && AllCarry(p, pieces, packets)
    ensures AllCarry(p, Plan(strategies, pieces), Chain(strategies, packets))
    decreases |strategies|
  {
    hide ParseTCP, AllCarry, PlanApply, ChainTurn;
    if strategies != [] {
      var last := pieces[|pieces| - 1];
      TurnCarries(p, packets, pieces, strategies[0]);
      LastIsPart(strategies[0], last);
      ChainCarries(strategies[1..], p, ChainTurn(strategies[0], packets),
                   pieces[..|pieces| - 1] + PlanApply(strategies[0], last));
    }
  }

  lemma {:induction false} SeedCarries(p: seq<byte>)
    requires ParseTCP(p) && Intact(p)
    ensures AllCarry(p, [Part(0, GetTCPPayload(p))], [PacketToSend(p, 0, true)])
  {
    hide ParseTCP, GetTCPPayload, SequenceNumber, Intact, SegmentOf;
    SegmentOfSelf(p);
    Wrapped(SequenceNumber(p), 0);
  }

  // ---- The parts of a plan ----

  /** The parts, in order, tile the payload from offset n to its end. */
  predicate PartsFrom(pieces: seq<Piece>, n: nat, payload: seq<byte>)
    decreases |pieces|
  {
    if pieces == [] then n == |payload|
    else if pieces[0].Noise? then PartsFrom(pieces[1..], n, payload)
    else
      && pieces[0].at == n && n + |pieces[0].bytes| <= |payload|
      && pieces[0].bytes == payload[n..n + |pieces[0].bytes|]
      && PartsFrom(pieces[1..], n + |pieces[0].bytes|, payload)
  }

  /** Replacing the last part by what a strategy makes of it keeps the tiling. */
  lemma {:induction false} TurnParts(pieces: seq<Piece>, n: nat, payload: seq<byte>, s: Strategy)
    requires pieces != [] && pieces[|pieces| - 1].Part? && PartsFrom(pieces, n, payload)
    ensures PartsFrom(pieces[..|pieces| - 1] + PlanApply(s, pieces[|pieces| - 1]), n, payload)
    decreases |pieces|
  {
    hide PlanApply;
    var last := pieces[|pieces| - 1];
    var turned := pieces[..|pieces| - 1] + PlanApply(s, last);
    if |pieces| == 1 {
      assert pieces == [last] && turned == PlanApply(s, last);
      LastParts(last, n, payload, s);
    } else {
      assert turned[1..] == pieces[1..][..|pieces| - 2] + PlanApply(s, last);
      TurnParts(pieces[1..], if pieces[0].Noise? then n else n + |pieces[0].bytes|, payload, s);
    }
  }

  lemma {:induction false} LastParts(last: Piece, n: nat, payload: seq<byte>, s: Strategy)
    requires last.Part? && PartsFrom([last], n, payload)
    ensures PartsFrom(PlanApply(s, last), n, payload)
  {
    hide Cut;
    var made := PlanApply(s, last);
    assert [last][1..] == [];
    if |made| == 2 {
      assert made == [made[0], made[1]] && made[1..] == [made[1]] && [made[1]][1..] == [];
      assert last.bytes == payload[n..];
    }
  }

  lemma {:induction false} PlanParts(strategies: seq<Strategy>, pieces: seq<Piece>, payload: seq<byte>)
    requires pieces != [] && pieces[|pieces| - 1].Part? && PartsFrom(pieces, 0, payload)
    ensures PartsFrom(Plan(strategies, pieces), 0, payload)
    decreases |strategies|
  {
    hide PlanApply, PartsFrom;
    if strategies != [] {
      var last := pieces[|pieces| - 1];
      TurnParts(pieces, 0, payload, strategies[0]);
      LastIsPart(strategies[0], last);
      PlanParts(strategies[1..], pieces[..|pieces| - 1] + PlanApply(strategies[0], last), payload);
    }
  }

  // ---- Where a chain first cuts ----

  /** Length of the first part a chain makes of a payload: where its first split that cuts at all does. */
  function FirstCut(strategies: seq<Strategy>, payload: seq<byte>): nat
    decreases |strategies|
  {
    if strategies == [] then |payload|
    else if strategies[0].Split? && 0 < Cut(strategies[0].splitOffset, payload) < |payload| then
      Cut(strategies[0].splitOffset, payload)
    else FirstCut(strategies[1..], payload)
  }

  lemma {:induction false} FirstCutRange(strategies: seq<Strategy>, payload: seq<byte>)
    ensures FirstCut(strategies, payload) <= |payload|
    ensures FirstCut(strategies, payload) < |payload| <==>
      exists i :: 0 <= i < |strategies| && strategies[i].Split?
                  && 0 < Cut(strategies[i].splitOffset, payload) < |payload|
    decreases |strategies|
  {
    hide Cut;
    if strategies != [] {
      FirstCutRange(strategies[1..], payload);
      assert forall i :: 1 <= i < |strategies| ==> strategies[i] == strategies[1..][i - 1];
      assert forall i :: 0 <= i < |strategies[1..]| ==> strategies[1..][i] == strategies[i + 1];
    }
  }

  /** The length of the first part. */
  function FirstPart(pieces: seq<Piece>): nat
    decreases |pieces|
  {
    if pieces == [] then 0 else if pieces[0].Part? then |pieces[0].bytes| else FirstPart(pieces[1..])
  }

  predicate AllNoise(pieces: seq<Piece>) {
    forall i :: 0 <= i < |pieces| ==> pieces[i].Noise?
  }

  lemma {:induction false} FirstAfterNoise(front: seq<Piece>, rest: seq<Piece>)
    requires AllNoise(front)
    ensures FirstPart(front + rest) == FirstPart(rest)
    decreases |front|
  {
    if front == [] {
      assert front + rest == rest;
    } else {
      assert (front + rest)[1..] == front[1..] + rest;
      FirstAfterNoise(front[1..], rest);
    }
  }

  lemma {:induction false} FirstIsThere(front: seq<Piece>, rest: seq<Piece>)
    requires !AllNoise(front)
    ensures FirstPart(front + rest) == FirstPart(front)
    decreases |front|
  {
    assert (front + rest)[1..] == front[1..] + rest;
    if front[0].Noise? {
      var i :| 0 <= i < |front| && front[i].Part?;
      assert front[1..][i - 1] == front[i];
      FirstIsThere(front[1..], rest);
    }
  }

  /** Once there is a part before the last piece, the first part stays. */
  lemma {:induction false} FirstPartStays(strategies: seq<Strategy>, pieces: seq<Piece>)
    requires pieces != [] && pieces[|pieces| - 1].Part? && !AllNoise(pieces[..|pieces| - 1])
    ensures FirstPart(Plan(strategies, pieces)) == FirstPart(pieces)
    decreases |strategies|
  {
    hide PlanApply, AllNoise, FirstPart;
    if strategies != [] {
      var front, last := pieces[..|pieces| - 1], pieces[|pieces| - 1];
      var made := PlanApply(strategies[0], last);
      LastIsPart(strategies[0], last);
      FirstIsThere(front, [last]);
      FirstIsThere(front, made);
      assert pieces == front + [last];
      var turned := front + made;
      MoreIsNoNoise(front, made[..|made| - 1]);
      assert turned[..|turned| - 1] == front + made[..|made| - 1];
      FirstPartStays(strategies[1..], turned);
    }
  }

  lemma {:induction false} MoreIsNoNoise(front: seq<Piece>, more: seq<Piece>)
    requires !AllNoise(front)
    ensures !AllNoise(front + more)
  {
    var i :| 0 <= i < |front| && !front[i].Noise?;
    assert (front + more)[i] == front[i];
  }

  /** The first part of a plan ends where the chain first cuts. */
  lemma {:induction false} PlanFirst(strategies: seq<Strategy>, front: seq<Piece>, payload: seq<byte>)
    requires AllNoise(front)
    ensures FirstPart(Plan(strategies, front + [Part(0, payload)])) == FirstCut(strategies, payload)
    decreases |strategies|
  {
    hide Cut;
    var last := Part(0, payload);
    var pieces := front + [last];
    assert pieces[..|pieces| - 1] == front && pieces[|pieces| - 1] == last;
    FirstAfterNoise(front, [last]);
    if strategies != [] {
      var made := PlanApply(strategies[0], last);
      if |made| == 1 {
        PlanFirst(strategies[1..], front, payload);
      } else if made[0].Noise? {
        assert front + made == (front + [made[0]]) + [last];
        PlanFirst(strategies[1..], front + [made[0]], payload);
      } else {
        FirstAfterNoise(front, made);
        var turned := front + made;
        assert turned[..|turned| - 1][|front|].Part?;
        FirstPartStays(strategies[1..], turned);
      }
    }
  }

  // ---- The noise of a plan ----

  /** Noise that lasts for the hops leaves room in a packet, which has room for so many bytes. */
  predicate NoiseFits(pieces: seq<Piece>, hops: nat, room: int) {
    forall i :: 0 <= i < |pieces| && pieces[i].Noise? ==> pieces[i].ttl as int < hops || |pieces[i].bytes| < room
  }

  predicate JunkFits(strategies: seq<Strategy>, hops: nat, room: int) {
    forall i :: 0 <= i < |strategies| && strategies[i].Junk? ==>
                  strategies[i].ttl as int < hops || |strategies[i].noise| < room
  }

  lemma {:induction false} PlanNoise(strategies: seq<Strategy>, pieces: seq<Piece>, hops: nat, room: int)
    requires pieces != [] && pieces[|pieces| - 1].Part? && NoiseFits(pieces, hops, room)
    requires JunkFits(strategies, hops, room)
    ensures NoiseFits(Plan(strategies, pieces), hops, room)
    decreases |strategies|
  {
    hide PlanApply;
    if strategies != [] {
      var last := pieces[|pieces| - 1];
      LastIsPart(strategies[0], last);
      ApplyNoise(strategies[0], last, hops, room);
      assert forall i :: 0 <= i < |strategies[1..]| ==> strategies[1..][i] == strategies[i + 1];
      PlanNoise(strategies[1..], pieces[..|pieces| - 1] + PlanApply(strategies[0], last), hops, room);
    }
  }

  lemma {:induction false} ApplyNoise(s: Strategy, last: Piece, hops: nat, room: int)
    requires last.Part? && (s.Junk? ==> s.ttl as int < hops || |s.noise| < room)
    ensures NoiseFits(PlanApply(s, last), hops, room)
  {
    hide Cut;
  }
}
