/** Which packets the driver hands to the network stack: those that start with a fixed IPv4 or IPv6 header. */
module IpClass {
  import opened Words
  import opened InternetChecksum
  import opened Packet
  import opened RingLayout
  import opened ReceiveRing

  /** The fixed header of section 3.1 of RFC 791; the first byte's low nibble is the header length in words. */
  datatype Header4 = Header4(words: nat, tos: byte, totalLength: nat, id: nat, fragment: nat, ttl: byte,
                             protocol: byte, checksum: nat, source: seq<byte>, destination: seq<byte>)
  {
    predicate Valid() {
      && words < 16 && totalLength < WORD && id < WORD && fragment < WORD && checksum < WORD
      && |source| == |destination| == 4
    }

    function Serialize(): (b: seq<byte>)
      requires Valid()
      ensures |b| == 20
    {
      [0x40 + words, tos] + Bytes16(totalLength) + Bytes16(id) + Bytes16(fragment) + [ttl, protocol]
      + Bytes16(checksum) + source + destination
    }
  }

  /** The header of section 3 of RFC 8200: version, traffic class and flow label share the first four bytes. */
  datatype Header6 = Header6(trafficClass: byte, flowLabel: nat, payloadLength: nat, nextHeader: byte, hopLimit: byte,
                             source: seq<byte>, destination: seq<byte>)
  {
    predicate Valid() {
      flowLabel < 0x10_0000 && payloadLength < WORD && |source| == |destination| == 16
    }

    function Serialize(): (b: seq<byte>)
      requires Valid()
      ensures |b| == 40
    {
      var class_: int := trafficClass;
      [0x60 + class_ / 16, 16 * (class_ % 16) + flowLabel / 0x1_0000] + Bytes16(flowLabel % 0x1_0000)
      + Bytes16(payloadLength) + [nextHeader, hopLimit] + source + destination
    }
  }

  /** What a buffer list is marked with. */
  datatype NblFlags = IsIpv4 | IsIpv6

  datatype FrameType = EtherIpv4 | EtherIpv6

  ghost predicate StartsWith4(packet: seq<byte>) {
    exists h: Header4, rest :: h.Valid() && packet == h.Serialize() + rest
  }

  ghost predicate StartsWith6(packet: seq<byte>) {
    exists h: Header6, rest :: h.Valid() && packet == h.Serialize() + rest
  }

  lemma {:induction false} Two(p: seq<byte>, at: nat)
    requires at + 2 <= |p|
    ensures p[at..at + 2] == Bytes16(Net16(p, at))
  {
    var a: int, b: int := p[at], p[at + 1];
    assert (0x100 * a + b) / 0x100 == a && (0x100 * a + b) % 0x100 == b;
  }

  lemma {:induction false} Header4Of(p: seq<byte>) returns (h: Header4)
    requires |p| >= 20 && p[0] / 16 == 4
    ensures h.Valid() && p == h.Serialize() + p[20..]
  {
    hide Net16, Bytes16;
    var b: int := p[0];
    h := Header4(b % 16, p[1], Net16(p, 2), Net16(p, 4), Net16(p, 6), p[8], p[9], Net16(p, 10), p[12..16], p[16..20]);
    assert b == 0x40 + b % 16;
    Two(p, 2);
    Two(p, 4);
    Two(p, 6);
    Two(p, 10);
    assert p == [p[0], p[1]] + p[2..4] + p[4..6] + p[6..8] + [p[8], p[9]] + p[10..12] + p[12..16] + p[16..20] + p[20..];
  }

  lemma {:induction false} Header6Of(p: seq<byte>) returns (h: Header6)
    requires |p| >= 40 && p[0] / 16 == 6
    ensures h.Valid() && p == h.Serialize() + p[40..]
  {
    hide Net16, Bytes16;
    var a: int, b: int := p[0], p[1];
    var class_ := 16 * (a % 16) + b / 16;
    var low := Net16(p, 2);
    h := Header6(class_, 0x1_0000 * (b % 16) + low, Net16(p, 4), p[6], p[7], p[8..24], p[24..40]);
    Nibbles(a, b, low);
    Two(p, 2);
    Two(p, 4);
    assert p == [p[0], p[1]] + p[2..4] + p[4..6] + [p[6], p[7]] + p[8..24] + p[24..40] + p[40..];
  }

  lemma {:induction false} Nibbles(a: nat, b: nat, low: nat)
    requires a / 16 == 6 && b < 0x100 && low < 0x1_0000
    ensures var class_, flow := 16 * (a % 16) + b / 16, 0x1_0000 * (b % 16) + low;
      && class_ < 0x100 && flow < 0x10_0000
      && 0x60 + class_ / 16 == a && 16 * (class_ % 16) + flow / 0x1_0000 == b && flow % 0x1_0000 == low
  {
  }

  lemma {:induction false} First4(h: Header4, rest: seq<byte>)
    requires h.Valid()
    ensures var p := h.Serialize() + rest; |p| >= 20 && p[0] / 16 == 4
  {
    var p := h.Serialize() + rest;
    assert p[0] == 0x40 + h.words;
  }

  lemma {:induction false} First6(h: Header6, rest: seq<byte>)
    requires h.Valid()
    ensures var p := h.Serialize() + rest; |p| >= 40 && p[0] / 16 == 6
  {
    var p := h.Serialize() + rest;
    var class_: int := h.trafficClass;
    assert p[0] == 0x60 + class_ / 16;
  }

  /** The first nibble and the length tell whether a packet starts with a header of that version. */
  lemma {:induction false} VersionsExactly(packet: seq<byte>)
    ensures StartsWith4(packet) <==> |packet| >= 20 && packet[0] / 16 == 4
    ensures StartsWith6(packet) <==> |packet| >= 40 && packet[0] / 16 == 6
  {
    if |packet| >= 20 && packet[0] / 16 == 4 {
      var h := Header4Of(packet);
    }
    if |packet| >= 40 && packet[0] / 16 == 6 {
      var h := Header6Of(packet);
    }
    if h: Header4, rest :| h.Valid() && packet == h.Serialize() + rest {
      First4(h, rest);
    }
    if h: Header6, rest :| h.Valid() && packet == h.Serialize() + rest {
      First6(h, rest);
    }
  }

  /**
   * A fetched packet can be lent to NDIS, with no return between its halves, if and only if it starts with a fixed IPv4
   * or IPv6 header; any other can only be skipped.
   */
  lemma {:induction false} LentExactly(s: State)
    requires WellSized(s) && s.driverPc == Classifying && s.unlinked.None?
    ensures Enabled(s, Indicate) <==> StartsWith4(FetchedBytes(s)) || StartsWith6(FetchedBytes(s))
    ensures Enabled(s, Skip)
  {
    VersionsExactly(FetchedBytes(s));
  }

  /** Every IPv4 datagram, with options and any body, is lent, whatever its length fields leave free. */
  lemma {:induction false} DatagramIsLent(d: Datagram, trailer: seq<byte>)
    requires d.Valid()
    ensures IsIp(d.Serialize() + trailer) && StartsWith4(d.Serialize() + trailer)
  {
    var packet := d.Serialize() + trailer;
    assert packet[0] == 0x45 + |d.options| / 4;
    VersionsExactly(packet);
  }

  /** Every IPv6 packet with whatever payload is lent. */
  lemma {:induction false} Ipv6IsLent(h: Header6, payload: seq<byte>)
    requires h.Valid()
    ensures IsIp(h.Serialize() + payload) && StartsWith6(h.Serialize() + payload)
  {
    First6(h, payload);
    VersionsExactly(h.Serialize() + payload);
  }
}
