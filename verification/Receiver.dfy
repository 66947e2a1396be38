/**
 * What a TCP receiver delivers of the packets a chain injects. It sees only what is on the wire: a packet reaches it if
 * its time to live lasts for the hops in between, junk or not, and a FIN ends the stream (section 3.10.7.4 of
 * RFC 9293).
 */
module Receiver {
  import opened Words
  import opened InternetChecksum
  import opened Packet
  import opened Tls
  import opened BypassStrategy
  import opened StreamPreservation

  const FIN: nat := 0x01
  const SYN: nat := 0x02
  const RST: nat := 0x04
  const ACK: nat := 0x10

  predicate HasFlag(p: seq<byte>, bit: nat)
    requires ParseTCP(p) && bit > 0
  {
    TcpHeadersRange(p);
    var flags: int := p[IpHeaderLength(p) + 13];
    flags / bit % 2 == 1
  }

  /**
   * A packet whose text an established connection looks at: it arrives, both its checksums verify, and it is an
   * ordinary segment that neither opens nor resets a connection.
   */
  predicate Acceptable(d: seq<byte>, hops: nat) {
    Intact(d) && d[8] as int >= hops && HasFlag(d, ACK) && !HasFlag(d, SYN) && !HasFlag(d, RST)
  }

  // ---- Reassembly ----

  /**
   * The receive window: offsets count from the sequence number expected next, bytes hold what has come so far in any
   * order, and nothing is taken from limit on, which is the size of the window or where a FIN ended the stream.
   */
  datatype Window = Window(base: nat, bytes: map<nat, byte>, limit: nat)

  function Opened(base: nat, size: nat): Window {
    Window(base, map[], size)
  }

  /** Which byte of a segment lies at offset o; none if this is not below the segment's length. */
  function Index(base: nat, sequence: int, o: nat): nat {
    U32(base + o - sequence)
  }

  /** Takes the bytes of a segment that fall into the window and have not come before. */
  function Take(w: Window, sequence: nat, text: seq<byte>, fin: bool): Window {
    var bytes := map o: nat | 0 <= o < w.limit && (o in w.bytes || Index(w.base, sequence, o) < |text|) ::
      if o in w.bytes then w.bytes[o] else text[Index(w.base, sequence, o)];
    var end := U32(sequence + |text| - w.base);
    Window(w.base, bytes, if fin && end < w.limit then end else w.limit)
  }

  function TakePacket(w: Window, d: seq<byte>, hops: nat): Window {
    if Acceptable(d, hops) then Take(w, SequenceNumber(d), GetTCPPayload(d), HasFlag(d, FIN)) else w
  }

  function Process(w: Window, packets: seq<PacketToSend>, hops: nat): Window
    decreases |packets|
  {
    if packets == [] then w else Process(TakePacket(w, packets[0].data, hops), packets[1..], hops)
  }

  /** The bytes from an offset on up to the first gap. */
  function Contiguous(w: Window, o: nat): seq<byte>
    decreases w.limit - o
  {
    if o < w.limit && o in w.bytes then [w.bytes[o]] + Contiguous(w, o + 1) else []
  }

  /** What a receiver that expects the sequence number base next hands to its application. */
  function Delivered(packets: seq<PacketToSend>, hops: nat, base: nat, size: nat): seq<byte> {
    Contiguous(Process(Opened(base, size), packets, hops), 0)
  }

  function Cap(s: seq<byte>, size: nat): (t: seq<byte>)
    ensures t <= s && |t| <= size && (|t| == size || t == s)
  {
    if |s| <= size then s else s[..size]
  }

  /** Whether byte o is one of the n bytes from k on, modulo 2^32: less than n bytes behind their start. */
  predicate Hit(k: int, n: nat, o: nat) {
    U32(o - k) < n
  }

  // ---- Reassembly delivers what it holds ----

  /** w holds the bytes s from its start on, as far as they fit, and none behind them. */
  ghost predicate Shows(w: Window, s: seq<byte>) {
    forall o: nat :: o < w.limit ==> (o in w.bytes <==> o < |s|) && (o < |s| && o in w.bytes ==> w.bytes[o] == s[o])
  }

  lemma {:induction false} ContiguousIs(w: Window, o: nat, s: seq<byte>)
    requires o <= |s| <= w.limit && (|s| == w.limit || |s| !in w.bytes)
    requires forall i :: o <= i < |s| ==> i in w.bytes && w.bytes[i] == s[i]
    ensures Contiguous(w, o) == s[o..]
    decreases |s| - o
  {
    if o < |s| {
      ContiguousIs(w, o + 1, s);
      assert s[o..] == [s[o]] + s[o + 1..];
    }
  }

  lemma {:induction false} ContiguousReaches(w: Window, o: nat, n: nat)
    requires o <= n <= w.limit && forall i :: o <= i < n ==> i in w.bytes
    ensures |Contiguous(w, o)| >= n - o
    ensures forall i :: o <= i < n ==> Contiguous(w, o)[i - o] == w.bytes[i]
    decreases n - o
  {
    if o < n {
      ContiguousReaches(w, o + 1, n);
      assert Contiguous(w, o) == [w.bytes[o]] + Contiguous(w, o + 1);
    }
  }

  lemma {:induction false} ShownIsDelivered(w: Window, s: seq<byte>)
    requires Shows(w, s)
    ensures Contiguous(w, 0) == Cap(s, w.limit)
  {
    hide Contiguous;
    var t := Cap(s, w.limit);
    ContiguousIs(w, 0, t);
    assert t[0..] == t;
  }

  lemma {:induction false} NextIndex(base: nat, n: nat, o: nat)
    requires n <= o < TWO32
    ensures Index(base, U32(base + n), o) == o - n
  {
  }

  lemma {:induction false} EndOffset(base: nat, n: nat, count: nat)
    requires n + count < TWO32
    ensures U32(U32(base + n) + count - base) == n + count
  {
  }

  lemma {:induction false} PieceIndex(base: nat, k: int, o: nat)
    ensures Index(base, U32(base + k), o) == U32(o - k)
  {
  }

  /** The next segment in sequence extends what is held, and its FIN ends it. */
  lemma {:induction false} TakeNext(w: Window, s: seq<byte>, text: seq<byte>, fin: bool)
    requires Shows(w, s) && w.limit <= TWO32 && |s| + |text| < TWO32
    ensures var t := Take(w, U32(w.base + |s|), text, fin);
      && Shows(t, s + text) && t.base == w.base
      && t.limit == if fin && |s| + |text| < w.limit then |s| + |text| else w.limit
  {
    hide Index, U32;
    var sequence := U32(w.base + |s|);
    var t := Take(w, sequence, text, fin);
    EndOffset(w.base, |s|, |text|);
    forall o: nat | o < t.limit
      ensures (o in t.bytes <==> o < |s + text|) && (o < |s + text| && o in t.bytes ==> t.bytes[o] == (s + text)[o])
    {
      if o >= |s| {
        NextIndex(w.base, |s|, o);
      }
    }
  }

  // ---- Delivery ----

  /** The text of a packet that is looked at. */
  function Text(p: seq<byte>, hops: nat): seq<byte> {
    if Acceptable(p, hops) then GetTCPPayload(p) else []
  }

  predicate Ends(p: seq<byte>, hops: nat) {
    Acceptable(p, hops) && HasFlag(p, FIN)
  }

  /** A segment of p is taken, and ends the stream, exactly if p is and does. */
  lemma {:induction false} SegmentIsTaken(p: seq<byte>, d: seq<byte>, hops: nat)
    requires ParseTCP(p) && SegmentOf(p, d) && Intact(p) && Intact(d)
    ensures Acceptable(d, hops) <==> Acceptable(p, hops)
    ensures HasFlag(d, FIN) <==> HasFlag(p, FIN)
  {
    hide IpVerifies, TcpVerifies, TcpHeaderLength, IpHeaderLength;
    SameHeadersLengths(p, d);
  }

  /** What a receiver delivers of the packet alone, without any strategy. */
  lemma {:induction false} DeliveredAlone(p: seq<byte>, hops: nat, size: nat)
    requires Intact(p) && ParseTCP(p) && size <= TWO32
    ensures Delivered([PacketToSend(p, 0, true)], hops, SequenceNumber(p), size) == Cap(Text(p, hops), size)
  {
    hide Acceptable, Intact, ParseTCP, Take, HasFlag, GetTCPPayload, SequenceNumber, Contiguous;
    var base := SequenceNumber(p);
    var w := Opened(base, size);
    var packets := [PacketToSend(p, 0, true)];
    assert packets[1..] == [];
    assert Process(w, packets, hops) == TakePacket(w, p, hops);
    if Acceptable(p, hops) {
      Wrapped(base, 0);
      PayloadIsShort(p);
      TakeNext(w, [], GetTCPPayload(p), HasFlag(p, FIN));
      assert [] + GetTCPPayload(p) == GetTCPPayload(p);
      ShownIsDelivered(TakePacket(w, p, hops), GetTCPPayload(p));
    } else {
      ShownIsDelivered(w, []);
    }
  }

  lemma {:induction false} PayloadIsShort(p: seq<byte>)
    requires ParseTCP(p)
    ensures |GetTCPPayload(p)| < WORD
  {
    hide ParseTCP, GetTCPPayload;
    TcpPayloadIsRest(p);
  }
}
