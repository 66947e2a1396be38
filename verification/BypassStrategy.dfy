/** Rewriting one TCP segment into several: the split and junk strategies and the chain that combines them. */
module BypassStrategy {
  import opened Words
  import opened InternetChecksum
  import opened Packet
  import opened Tls

  const PSH_ACK: byte := 0x18

  // ---- One rebuilt packet ----

  /** The headers of p over a new payload, with length, time to live, sequence number and flags written in. */
  function Patched(p: seq<byte>, payload: seq<byte>, ttl: byte, sequence: nat, flags: byte): (d: seq<byte>)
    requires ParseTCP(p) && sequence < TWO32
    ensures |d| == TcpHeaders(p) + |payload|
  {
    var h := IpHeaderLength(p);
    var d0 := p[..TcpHeaders(p)] + payload;
    var d1 := PutNet16(d0[8 := ttl], 2, |d0| % WORD);
    PutNet32(d1, h + 4, sequence)[h + 13 := flags]
  }

  /** The same with both checksums recomputed. */
  function Rebuilt(p: seq<byte>, payload: seq<byte>, ttl: byte, sequence: nat, flags: byte): (d: seq<byte>)
    requires ParseTCP(p) && sequence < TWO32
    ensures |d| == TcpHeaders(p) + |payload|
  {
    PatchedHasHeaders(p, payload, ttl, sequence, flags);
    var d := WithIpChecksum(Patched(p, payload, ttl, sequence, flags));
    HasTcpFrame(Patched(p, payload, ttl, sequence, flags), d);
    WithTcpChecksum(d, payload)
  }

  /** Positions that rebuilding may change in the headers, h being the length of the IP header. */
  predicate Rewritten(i: nat, h: nat) {
    i in {2, 3, 8, 10, 11} || h + 4 <= i < h + 8 || i in {h + 13, h + 16, h + 17}
  }

  ghost predicate SameHeaders(p: seq<byte>, d: seq<byte>)
    requires ParseTCP(p)
  {
    TcpHeaders(p) <= |d| && forall i :: 0 <= i < TcpHeaders(p) && !Rewritten(i, IpHeaderLength(p)) ==> d[i] == p[i]
  }

  lemma {:induction false} PatchedFields(p: seq<byte>, payload: seq<byte>, ttl: byte, sequence: nat, flags: byte)
    requires ParseTCP(p) && sequence < TWO32
    ensures var d, h := Patched(p, payload, ttl, sequence, flags), IpHeaderLength(p);
      && SameHeaders(p, d)
      && d[8] == ttl && d[h + 13] == flags && Net16(d, 2) == |d| % WORD && Net32(d, h + 4) == sequence
      && d[TcpHeaders(p)..] == payload
  {
    hide PutNet16, PutNet32, IpHeaderLength, ParseTCP;
    TcpHeadersRange(p);
    var d, h := Patched(p, payload, ttl, sequence, flags), IpHeaderLength(p);
    var d0 := p[..TcpHeaders(p)] + payload;
    var d1 := PutNet16(d0[8 := ttl], 2, |d0| % WORD);
    var d2 := PutNet32(d1, h + 4, sequence);
    Net16Frame(d1, d, 2);
    Net32Frame(d2, d, h + 4);
    assert forall i :: TcpHeaders(p) <= i < |d| ==> d[i] == d0[i];
  }

  lemma {:induction false} TcpHeadersRange(p: seq<byte>)
    requires ParseTCP(p)
    ensures IP_HEADER <= IpHeaderLength(p) && IpHeaderLength(p) + TCP_HEADER <= TcpHeaders(p) <= |p|
    ensures IpHeaderLength(p) % 4 == 0
  {
  }

  lemma {:induction false} Net16Frame(p: seq<byte>, q: seq<byte>, at: nat)
    requires at + 2 <= |p| && at + 2 <= |q| && p[at] == q[at] && p[at + 1] == q[at + 1]
    ensures Net16(p, at) == Net16(q, at)
  {
  }

  lemma {:induction false} Net32Frame(p: seq<byte>, q: seq<byte>, at: nat)
    requires at + 4 <= |p| && at + 4 <= |q| && forall i :: at <= i < at + 4 ==> p[i] == q[i]
    ensures Net32(p, at) == Net32(q, at)
  {
  }

  lemma {:induction false} SameHeadersLengths(p: seq<byte>, d: seq<byte>)
    requires ParseTCP(p) && SameHeaders(p, d)
    ensures HasTcpHeader(d) && Version(d) == 4 && d[9] == PROTOCOL_TCP
    ensures IpHeaderLength(d) == IpHeaderLength(p)
    ensures TcpHeaderLength(d, IpHeaderLength(p)) == TcpHeaderLength(p, IpHeaderLength(p))
  {
    var h := IpHeaderLength(p);
    assert d[0] == p[0] && d[9] == p[9];
    assert !Rewritten(h + 12, h) && d[h + 12] == p[h + 12];
  }

  lemma {:induction false} PatchedHasHeaders(p: seq<byte>, payload: seq<byte>, ttl: byte, sequence: nat, flags: byte)
    requires ParseTCP(p) && sequence < TWO32
    ensures HasIpHeader(Patched(p, payload, ttl, sequence, flags))
    ensures HasTcpHeader(Patched(p, payload, ttl, sequence, flags))
  {
    hide Patched, ParseTCP, SameHeaders;
    PatchedFields(p, payload, ttl, sequence, flags);
    SameHeadersLengths(p, Patched(p, payload, ttl, sequence, flags));
  }

  lemma {:induction false} HasTcpFrame(d: seq<byte>, e: seq<byte>)
    requires HasTcpHeader(d) && e == WithIpChecksum(d)
    ensures HasTcpHeader(e) && IpHeaderLength(e) == IpHeaderLength(d)
  {
    hide WithIpChecksum;
    HeaderLengthFrame(d, e);
    TcpHeaderLengthIs(d, IpHeaderLength(d));
    TcpHeaderLengthIs(e, IpHeaderLength(d));
  }

  lemma {:induction false} RebuiltFields(p: seq<byte>, payload: seq<byte>, ttl: byte, sequence: nat, flags: byte)
    requires ParseTCP(p) && sequence < TWO32
    ensures var d, h := Rebuilt(p, payload, ttl, sequence, flags), IpHeaderLength(p);
      && SameHeaders(p, d)
      && d[8] == ttl && d[h + 13] == flags && Net16(d, 2) == |d| % WORD && Net32(d, h + 4) == sequence
      && d[TcpHeaders(p)..] == payload
  {
    hide Patched, IpHeaderLength, ParseTCP, WithIpChecksum, WithTcpChecksum;
    TcpHeadersRange(p);
    var h := IpHeaderLength(p);
    var d := Patched(p, payload, ttl, sequence, flags);
    PatchedFields(p, payload, ttl, sequence, flags);
    PatchedHasHeaders(p, payload, ttl, sequence, flags);
    SameHeadersLengths(p, d);
    var e := WithIpChecksum(d);
    HasTcpFrame(d, e);
    var f := WithTcpChecksum(e, payload);
    assert forall i :: 0 <= i < |d| && i !in {10, 11, h + 16, h + 17} ==> f[i] == d[i];
    Net16Frame(d, f, 2);
    Net32Frame(d, f, h + 4);
    assert f[TcpHeaders(p)..] == d[TcpHeaders(p)..];
  }

  /**
   * A rebuilt packet that fits an IP packet is accepted by the parsers, carries exactly the payload, sequence number,
   * time to live and flags it was given, differs from the original nowhere else in its headers, and both its
   * checksums verify.
   */
  lemma {:induction false} RebuiltIsFaithful(p: seq<byte>, payload: seq<byte>, ttl: byte, sequence: nat, flags: byte)
    requires ParseTCP(p) && sequence < TWO32 && TcpHeaders(p) + |payload| < WORD
    ensures var d, h := Rebuilt(p, payload, ttl, sequence, flags), IpHeaderLength(p);
      && ParseTCP(d) && SameHeaders(p, d) && IpHeaderLength(d) == h && TcpHeaders(d) == TcpHeaders(p)
      && TotalLength(d) == |d| && GetTCPPayload(d) == payload && SequenceNumber(d) == sequence
      && d[8] == ttl && d[h + 13] == flags
      && IpVerifies(d) && TcpVerifies(d)
  {
    hide Rebuilt, IpHeaderLength, TcpHeaderLength, Checksum, SameHeaders, PseudoPacket;
    var d, h := Rebuilt(p, payload, ttl, sequence, flags), IpHeaderLength(p);
    RebuiltFields(p, payload, ttl, sequence, flags);
    SameHeadersLengths(p, d);
    assert d[TcpHeaders(p)..|d|] == d[TcpHeaders(p)..];
    RebuiltVerifies(p, payload, ttl, sequence, flags);
  }

  lemma {:induction false} RebuiltVerifies(p: seq<byte>, payload: seq<byte>, ttl: byte, sequence: nat, flags: byte)
    requires ParseTCP(p) && sequence < TWO32 && TcpHeaders(p) + |payload| < WORD
    ensures var d := Rebuilt(p, payload, ttl, sequence, flags);
      && HasTcpHeader(d) && IpVerifies(d) && IpHeaderLength(d) == IpHeaderLength(p)
      && Checksum(PseudoPacket(d, PROTOCOL_TCP, TcpHeaderOf(d), payload)) == 0
  {
    hide Patched, IpHeaderLength, ParseTCP, WithIpChecksum, WithTcpChecksum, Checksum, PseudoPacket, TcpHeaderLength;
    hide SameHeaders;
    TcpHeadersRange(p);
    var d := Patched(p, payload, ttl, sequence, flags);
    PatchedFields(p, payload, ttl, sequence, flags);
    SameHeadersLengths(p, d);
    var e := WithIpChecksum(d);
    HasTcpFrame(d, e);
    IpChecksumVerifies(d);
    TcpChecksumVerifies(e, payload);
    var f := WithTcpChecksum(e, payload);
    HeaderLengthFrame(e, f);
    assert f[..IpHeaderLength(p)] == e[..IpHeaderLength(p)];
  }

  // ---- The strategies as functions ----

  /** A packet to inject. The flag genuine, which the program does not store, tells segments of the stream from junk. */
  datatype PacketToSend = PacketToSend(data: seq<byte>, delay: nat, genuine: bool)

  /**
   * A configured strategy. The random bytes of junk are an input: their number is the configured size. The sequence
   * offset of junk may be negative.
   */
  datatype Strategy =
    | Split(splitOffset: nat, splitDelay: nat)
    | Junk(noise: seq<byte>, ttl: byte, sequenceOffset: int)

  function Cut(splitOffset: nat, payload: seq<byte>): nat {
    if splitOffset != 0 then splitOffset
    else
      match FindSNI(payload)
      case Some(found) => found.0 + found.1 / 2
      case None => |payload| / 2
  }

  function Segment(p: seq<byte>, payload: seq<byte>, sequence: nat): seq<byte>
    requires ParseTCP(p) && sequence < TWO32
  {
    TcpHeadersRange(p);
    Rebuilt(p, payload, p[8], sequence, p[IpHeaderLength(p) + 13])
  }

  function ApplySplit(splitOffset: nat, splitDelay: nat, p: seq<byte>): seq<PacketToSend>
    requires ParseTCP(p)
  {
    var payload := GetTCPPayload(p);
    var cut := Cut(splitOffset, payload);
    if payload == [] || cut == 0 || cut >= |payload| then []
    else
      [PacketToSend(Segment(p, payload[..cut], SequenceNumber(p)), 0, true),
       PacketToSend(Segment(p, payload[cut..], U32(SequenceNumber(p) + cut)), splitDelay, true)]
  }

  function ApplyJunk(noise: seq<byte>, ttl: byte, sequenceOffset: int, p: seq<byte>): seq<PacketToSend>
    requires ParseTCP(p)
  {
    if GetTCPPayload(p) == [] then []
    else
      [PacketToSend(Rebuilt(p, noise, ttl, U32(SequenceNumber(p) + sequenceOffset), PSH_ACK), 0, false),
       PacketToSend(p, 0, true)]
  }

  function Apply(s: Strategy, p: seq<byte>): seq<PacketToSend>
    requires ParseTCP(p)
  {
    match s
    case Split(splitOffset, splitDelay) => ApplySplit(splitOffset, splitDelay, p)
    case Junk(noise, ttl, sequenceOffset) => ApplyJunk(noise, ttl, sequenceOffset, p)
  }

  function Delayed(packets: seq<PacketToSend>, delay: nat): (d: seq<PacketToSend>)
    ensures |d| == |packets|
  {
    if packets == [] then []
    else [packets[0].(delay := U32(packets[0].delay + delay))] + Delayed(packets[1..], delay)
  }

  /** One turn of the chain: the last packet is replaced by what the strategy makes of it. */
  function ChainTurn(s: Strategy, packets: seq<PacketToSend>): seq<PacketToSend> {
    if packets == [] then []
    else
      var front, target := packets[..|packets| - 1], packets[|packets| - 1];
      if !ParseTCP(target.data) then front
      else
        var made := Apply(s, target.data);
        if made == [] then packets else front + Delayed(made, target.delay)
  }

  function Chain(strategies: seq<Strategy>, packets: seq<PacketToSend>): seq<PacketToSend>
    decreases |strategies|
  {
    if strategies == [] then packets else Chain(strategies[1..], ChainTurn(strategies[0], packets))
  }

  // ---- The strategies in place ----

  /** The headers of a packet and a payload copied into a new buffer. */
  method StartPacket(p: seq<byte>, payload: seq<byte>) returns (data: array<byte>)
    requires ParseTCP(p)
    ensures fresh(data) && data[..] == p[..TcpHeaders(p)] + payload
  {
    hide ParseTCP;
    data := new byte[TcpHeaders(p) + |payload|](_ => 0);
    MemCpy(data, 0, p[..TcpHeaders(p)]);
    MemCpy(data, TcpHeaders(p), payload);
  }

  method WriteNet16(data: array<byte>, at: nat, w: nat)
    requires at + 2 <= data.Length && w < WORD
    modifies data
    ensures data[..] == PutNet16(old(data[..]), at, w)
  {
    data[at], data[at + 1] := w / 0x100, w % 0x100;
  }

  method WriteNet32(data: array<byte>, at: nat, w: nat)
    requires at + 4 <= data.Length && w < TWO32
    modifies data
    ensures data[..] == PutNet32(old(data[..]), at, w)
  {
    hide PutNet16;
    WriteNet16(data, at, w / WORD);
    WriteNet16(data, at + 2, w % WORD);
  }

  method Checksums(data: array<byte>, payload: seq<byte>)
    requires HasTcpHeader(data[..])
    modifies data
    ensures HasTcpHeader(WithIpChecksum(old(data[..])))
    ensures data[..] == WithTcpChecksum(WithIpChecksum(old(data[..])), payload)
  {
    hide WithTcpChecksum, WithIpChecksum, IpHeaderLength, TcpHeaderLength;
    HasTcpFrame(data[..], WithIpChecksum(data[..]));
    RecalcIPChecksum(data);
    RecalcTCPChecksum(data, payload);
  }

  /** One segment of a split: only the length and the sequence number are written. */
  method BuildSegment(p: seq<byte>, payload: seq<byte>, sequence: nat) returns (data: seq<byte>)
    requires ParseTCP(p) && sequence < TWO32
    ensures data == Segment(p, payload, sequence)
  {
    hide WithTcpChecksum, WithIpChecksum, PutNet16, PutNet32, IpHeaderLength, ParseTCP;
    TcpHeadersRange(p);
    var h := IpHeaderLength(p);
    var d := StartPacket(p, payload);
    ghost var d0 := d[..];
    assert d0[8 := p[8]] == d0;
    WriteNet16(d, 2, d.Length % WORD);
    WriteNet32(d, h + 4, sequence);
    assert d[h + 13] == p[h + 13];
    assert d[..] == d[..][h + 13 := p[h + 13]];
    assert d[..] == Patched(p, payload, p[8], sequence, p[h + 13]);
    PatchedHasHeaders(p, payload, p[8], sequence, p[h + 13]);
    Checksums(d, payload);
    data := d[..];
  }

  method DesyncSplit(splitOffset: nat, splitDelay: nat, p: seq<byte>) returns (res: seq<PacketToSend>)
    requires ParseTCP(p)
    ensures res == ApplySplit(splitOffset, splitDelay, p)
  {
    hide ParseTCP, Segment, GetTCPPayload, SequenceNumber;
    var payload := GetTCPPayload(p);
    res := [];
    if payload == [] {
      return;
    }
    var offset := splitOffset;
    if offset == 0 {
      var sniInfo := FindSNIOffset(payload);
      if sniInfo.Some? {
        offset := sniInfo.value.0 + sniInfo.value.1 / 2;
      } else {
        offset := |payload| / 2;
      }
    }
    if offset <= 0 || offset >= |payload| {
      return;
    }
    var data1 := BuildSegment(p, payload[..offset], SequenceNumber(p));
    res := res + [PacketToSend(data1, 0, true)];
    var data2 := BuildSegment(p, payload[offset..], U32(SequenceNumber(p) + offset));
    res := res + [PacketToSend(data2, splitDelay, true)];
  }

  method DesyncJunk(noise: seq<byte>, ttl: byte, sequenceOffset: int, p: seq<byte>) returns (res: seq<PacketToSend>)
    requires ParseTCP(p)
    ensures res == ApplyJunk(noise, ttl, sequenceOffset, p)
  {
    hide WithTcpChecksum, WithIpChecksum, PutNet16, PutNet32, IpHeaderLength, ParseTCP, GetTCPPayload, SequenceNumber;
    res := [];
    if GetTCPPayload(p) == [] {
      return;
    }
    TcpHeadersRange(p);
    var h := IpHeaderLength(p);
    var d := StartPacket(p, noise);
    d[8] := ttl;
    WriteNet16(d, 2, d.Length % WORD);
    var junkSequence := U32(SequenceNumber(p) + sequenceOffset);
    WriteNet32(d, h + 4, junkSequence);
    d[h + 13] := PSH_ACK;
    assert d[..] == Patched(p, noise, ttl, junkSequence, PSH_ACK);
    PatchedHasHeaders(p, noise, ttl, junkSequence, PSH_ACK);
    Checksums(d, noise);
    res := [PacketToSend(d[..], 0, false), PacketToSend(p, 0, true)];
  }

  method ChainDesync(strategies: seq<Strategy>, p: seq<byte>) returns (current: seq<PacketToSend>)
    ensures current == Chain(strategies, [PacketToSend(p, 0, true)])
  {
    hide ParseTCP, ApplySplit, ApplyJunk;
    current := [PacketToSend(p, 0, true)];
    var i := 0;
    assert strategies[0..] == strategies;
    while i < |strategies|
      invariant 0 <= i <= |strategies|
      invariant Chain(strategies[i..], current) == Chain(strategies, [PacketToSend(p, 0, true)])
    {
      assert strategies[i..][1..] == strategies[i + 1..];
      if current == [] {
        EmptyChain(strategies[i..]);
        break;
      }
      var target := current[|current| - 1];
      ghost var before := current;
      current := current[..|current| - 1];
      if ParseTCP(target.data) {
        var made;
        match strategies[i] {
          case Split(splitOffset, splitDelay) => made := DesyncSplit(splitOffset, splitDelay, target.data);
          case Junk(noise, ttl, sequenceOffset) => made := DesyncJunk(noise, ttl, sequenceOffset, target.data);
        }
        if made == [] {
          current := current + [target];
          assert current == before;
        } else {
          current := AppendDelayed(current, made, target.delay);
        }
      }
      i := i + 1;
    }
  }

  lemma {:induction false} EmptyChain(strategies: seq<Strategy>)
    ensures Chain(strategies, []) == []
    decreases |strategies|
  {
    if strategies != [] {
      EmptyChain(strategies[1..]);
    }
  }

  method AppendDelayed(front: seq<PacketToSend>, made: seq<PacketToSend>, delay: nat) returns (all: seq<PacketToSend>)
    ensures all == front + Delayed(made, delay)
  {
    all := front;
    var i := 0;
    assert made[0..] == made;
    while i < |made|
      invariant 0 <= i <= |made|
      invariant all + Delayed(made[i..], delay) == front + Delayed(made, delay)
    {
      assert made[i..][1..] == made[i + 1..];
      var packet := made[i].(delay := U32(made[i].delay + delay));
      assert all + [packet] + Delayed(made[i + 1..], delay) == all + Delayed(made[i..], delay);
      all := all + [packet];
      i := i + 1;
    }
  }
}
