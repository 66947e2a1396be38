/** Which packets the transport parsers accept, and the payload they give, told by serialized headers. */
module TransportHeaders {
  import opened Words
  import opened InternetChecksum
  import opened Packet

  /** A TCP header by section 3.1 of RFC 9293: ports and numbers, data offset, flags to urgent pointer, options. */
  datatype TcpHeader = TcpHeader(front: seq<byte>, reserved: nat, back: seq<byte>, options: seq<byte>) {
    predicate Valid() {
      |front| == 12 && reserved < 16 && |back| == 7 && |options| <= 40 && |options| % 4 == 0
    }

    function Serialize(): (b: seq<byte>)
      requires Valid()
      ensures |b| == TCP_HEADER + |options|
    {
      front + [16 * (5 + |options| / 4) + reserved] + back + options
    }
  }

  /** What follows the header of an IPv4 datagram and its trailer. */
  ghost predicate Carries(p: seq<byte>, d: Datagram, trailer: seq<byte>, protocol: byte, rest: seq<byte>) {
    d.Valid() && d.middle[5] == protocol && p == d.Serialize() + trailer && rest == d.body + trailer
  }

  lemma {:induction false} CarriedAt(p: seq<byte>, d: Datagram, trailer: seq<byte>, protocol: byte, rest: seq<byte>)
    requires Carries(p, d, trailer, protocol, rest)
    ensures ParseIPv4(p) && p[9] == protocol && IpHeaderLength(p) == IP_HEADER + |d.options|
    ensures p[IpHeaderLength(p)..] == rest && TotalLength(p) == IP_HEADER + |d.options| + |d.body|
  {
    hide Net16, ParseIPv4;
    SerializedParses(d, trailer);
    var n := IP_HEADER + |d.options| + |d.body|;
    var h: nat := IP_HEADER + |d.options|;
    assert p[0] == 0x45 + |d.options| / 4;
    assert p[4..20] == d.middle && p[9] == p[4..20][5];
    assert p[2..4] == Bytes16(n);
    ReadBytes16(p, 2, n);
    assert p[h..] == d.body + trailer;
  }

  lemma {:induction false} CarriedOf(p: seq<byte>) returns (d: Datagram, trailer: seq<byte>)
    requires ParseIPv4(p)
    ensures Carries(p, d, trailer, p[9], p[IpHeaderLength(p)..])
  {
    hide Net16;
    d := DatagramOf(p);
    trailer := p[TotalLength(p)..];
    var s := d.Serialize();
    assert |s| <= |p| && forall i :: 0 <= i < |s| ==> p[i] == s[i];
    assert s[4..20] == d.middle;
    assert d.middle[5] == s[9] == p[9];
    assert s[0] == 0x45 + |d.options| / 4 == p[0];
    assert p[IpHeaderLength(p)..] == d.body + trailer;
  }

  /** A TCP packet is accepted if and only if a TCP header, with whatever options, follows an IPv4 header for TCP. */
  lemma {:induction false} ParseTCPAcceptsSegments(p: seq<byte>)
    ensures ParseTCP(p) <==> exists d, trailer, rest, t: TcpHeader, text ::
                               Carries(p, d, trailer, PROTOCOL_TCP, rest) && t.Valid() && rest == t.Serialize() + text
  {
    hide Carries;
    if ParseTCP(p) {
      var d, trailer := CarriedOf(p);
      var rest := p[IpHeaderLength(p)..];
      var t := TcpHeaderAt(p);
      assert rest == t.Serialize() + p[TcpHeaders(p)..];
    }
    if d, trailer, rest, t: TcpHeader, text :|
        Carries(p, d, trailer, PROTOCOL_TCP, rest) && t.Valid() && rest == t.Serialize() + text {
      CarriedAt(p, d, trailer, PROTOCOL_TCP, rest);
      HeaderIsAccepted(p, t, text);
    }
  }

  lemma {:induction false} TcpHeaderAt(p: seq<byte>) returns (t: TcpHeader)
    requires ParseTCP(p)
    ensures t.Valid() && p[IpHeaderLength(p)..] == t.Serialize() + p[TcpHeaders(p)..]
  {
    hide ParseIPv4;
    var h, n := IpHeaderLength(p), TcpHeaders(p);
    var b: int := p[h + 12];
    t := TcpHeader(p[h..h + 12], b % 16, p[h + 13..h + 20], p[h + 20..n]);
    assert n - h == 4 * (b / 16) && b == 16 * (5 + |t.options| / 4) + b % 16;
    Parts(p, h, n);
  }

  lemma {:induction false} Parts(p: seq<byte>, h: nat, n: nat)
    requires h + 20 <= n <= |p|
    ensures p[h..] == p[h..h + 12] + [p[h + 12]] + p[h + 13..h + 20] + p[h + 20..n] + p[n..]
  {
    assert p[h + 20..] == p[h + 20..n] + p[n..];
    assert p[h + 13..] == p[h + 13..h + 20] + p[h + 20..];
    assert p[h + 12..] == [p[h + 12]] + p[h + 13..];
    assert p[h..] == p[h..h + 12] + p[h + 12..];
  }

  lemma {:induction false} HeaderIsAccepted(p: seq<byte>, t: TcpHeader, text: seq<byte>)
    requires ParseIPv4(p) && p[9] == PROTOCOL_TCP && t.Valid() && p[IpHeaderLength(p)..] == t.Serialize() + text
    ensures ParseTCP(p) && TcpHeaders(p) == IpHeaderLength(p) + TCP_HEADER + |t.options|
  {
    var h := IpHeaderLength(p);
    var rest := p[h..];
    assert rest[12] == 16 * (5 + |t.options| / 4) + t.reserved && p[h + 12] == rest[12];
    DataOffset(5 + |t.options| / 4, t.reserved);
  }

  lemma {:induction false} DataOffset(words: nat, reserved: nat)
    requires reserved < 16
    ensures (16 * words + reserved) / 16 == words
  {
  }

  /** A UDP header with a payload, by RFC 768. */
  function UdpDatagram(ports: seq<byte>, checksum: seq<byte>, payload: seq<byte>): seq<byte> {
    ports + Bytes16(UDP_HEADER + |payload|) + checksum + payload
  }

  ghost predicate HoldsUdp(
    p: seq<byte>, d: Datagram, trailer: seq<byte>, rest: seq<byte>, ports: seq<byte>, checksum: seq<byte>,
    payload: seq<byte>, text: seq<byte>)
  {
    && Carries(p, d, trailer, PROTOCOL_UDP, rest) && |ports| == 4 && |checksum| == 2
    && UDP_HEADER + |payload| < WORD && rest == UdpDatagram(ports, checksum, payload) + text
  }

  /**
   * A UDP packet is accepted if and only if a UDP header with as long a payload as it says follows an IPv4 header for
   * UDP; the payload is what the parser gives.
   */
  lemma {:induction false} ParseUDPAcceptsDatagrams(p: seq<byte>)
    ensures ParseUDP(p) <==> exists d, trailer, rest, ports, checksum, payload, text ::
                               HoldsUdp(p, d, trailer, rest, ports, checksum, payload, text)
    ensures forall d, trailer, rest, ports, checksum, payload, text ::
              HoldsUdp(p, d, trailer, rest, ports, checksum, payload, text) ==> GetUDPPayload(p) == payload
  {
    hide HoldsUdp;
    if ParseUDP(p) {
      var d, trailer := CarriedOf(p);
      UdpAt(p, d, trailer);
    }
    forall d, trailer, rest, ports, checksum, payload, text |
        HoldsUdp(p, d, trailer, rest, ports, checksum, payload, text)
      ensures ParseUDP(p) && GetUDPPayload(p) == payload
    {
      UdpIsAccepted(p, d, trailer, rest, ports, checksum, payload, text);
    }
  }

  lemma {:induction false} UdpAt(p: seq<byte>, d: Datagram, trailer: seq<byte>)
    requires ParseUDP(p) && Carries(p, d, trailer, PROTOCOL_UDP, p[IpHeaderLength(p)..])
    ensures exists rest, ports, checksum, payload, text ::
              HoldsUdp(p, d, trailer, rest, ports, checksum, payload, text)
  {
    hide ParseIPv4, Carries;
    var h: nat := IpHeaderLength(p);
    var n := Net16(p, h + 4);
    var rest, ports, checksum := p[h..], p[h..h + 4], p[h + 6..h + 8];
    var payload, text := p[h + 8..h + n], p[h + n..];
    TwoBytesAt(p, h + 4);
    UdpParts(p, h, n);
    assert HoldsUdp(p, d, trailer, rest, ports, checksum, payload, text);
  }

  lemma {:induction false} UdpParts(p: seq<byte>, h: nat, n: nat)
    requires UDP_HEADER <= n && h + n <= |p|
    ensures p[h..] == p[h..h + 4] + p[h + 4..h + 6] + p[h + 6..h + 8] + p[h + 8..h + n] + p[h + n..]
  {
    assert p[h + 8..] == p[h + 8..h + n] + p[h + n..];
    assert p[h + 6..] == p[h + 6..h + 8] + p[h + 8..];
    assert p[h + 4..] == p[h + 4..h + 6] + p[h + 6..];
    assert p[h..] == p[h..h + 4] + p[h + 4..];
  }

  lemma {:induction false} TwoBytesAt(p: seq<byte>, at: nat)
    requires at + 2 <= |p|
    ensures p[at..at + 2] == Bytes16(Net16(p, at))
  {
    var a: int, b: int := p[at], p[at + 1];
    assert (0x100 * a + b) / 0x100 == a && (0x100 * a + b) % 0x100 == b;
  }

  lemma {:induction false} UdpIsAccepted(
    p: seq<byte>, d: Datagram, trailer: seq<byte>, rest: seq<byte>, ports: seq<byte>, checksum: seq<byte>,
    payload: seq<byte>, text: seq<byte>)
    requires HoldsUdp(p, d, trailer, rest, ports, checksum, payload, text)
    ensures ParseUDP(p) && GetUDPPayload(p) == payload
  {
    hide Carries, Net16, ParseIPv4, IpHeaderLength;
    CarriedAt(p, d, trailer, PROTOCOL_UDP, rest);
    var h := IpHeaderLength(p);
    assert rest[4..6] == Bytes16(UDP_HEADER + |payload|);
    assert p[h + 4..h + 6] == rest[4..6];
    ReadBytes16(p, h + 4, UDP_HEADER + |payload|);
    assert p[h + 8..h + 8 + |payload|] == rest[8..8 + |payload|] == payload;
  }

  // ---- The pseudo header ----

  /** The words of the pseudo header: both addresses, the protocol and the length of the transport header and text. */
  function PseudoHeaderSum(p: seq<byte>, protocol: byte, length: nat): nat
    requires |p| >= IP_HEADER
  {
    Net16(p, 12) + Net16(p, 14) + Net16(p, 16) + Net16(p, 18) + protocol + length
  }

  /** What the transport checksum is taken over adds up to the pseudo header and the segment. */
  lemma {:induction false} PseudoSum(p: seq<byte>, protocol: byte, header: seq<byte>, payload: seq<byte>)
    requires |p| >= IP_HEADER && |header| + |payload| < WORD
    ensures NetworkSum(PseudoPacket(p, protocol, header, payload))
         == PseudoHeaderSum(p, protocol, |header| + |payload|) + NetworkSum(header + payload)
  {
    hide NetworkSum, PseudoPacket, Net16;
    var r6 := header + payload;
    var n := |r6|;
    var r5 := [n / 0x100, n % 0x100] + r6;
    var r4 := [0, protocol] + r5;
    var r3 := [p[18], p[19]] + r4;
    var r2 := [p[16], p[17]] + r3;
    var r1 := [p[14], p[15]] + r2;
    PseudoLayout(p, protocol, header, payload);
    WordStep(p, 12, r1);
    WordStep(p, 14, r2);
    WordStep(p, 16, r3);
    WordStep(p, 18, r4);
    NetworkSumStep(0, protocol, r5);
    NetworkSumStep(n / 0x100, n % 0x100, r6);
  }

  lemma {:induction false} PseudoLayout(p: seq<byte>, protocol: byte, header: seq<byte>, payload: seq<byte>)
    requires |p| >= IP_HEADER && |header| + |payload| < WORD
    ensures var segment := header + payload;
      PseudoPacket(p, protocol, header, payload)
      == [p[12], p[13]] + ([p[14], p[15]] + ([p[16], p[17]] + ([p[18], p[19]]
         + ([0, protocol] + ([|segment| / 0x100, |segment| % 0x100] + segment)))))
  {
  }

  lemma {:induction false} WordStep(p: seq<byte>, at: nat, rest: seq<byte>)
    requires at + 2 <= |p|
    ensures NetworkSum([p[at], p[at + 1]] + rest) == Net16(p, at) + NetworkSum(rest)
  {
    hide NetworkSum;
    NetworkSumStep(p[at], p[at + 1], rest);
  }

  lemma {:induction false} NetworkSumStep(a: byte, b: byte, rest: seq<byte>)
    ensures NetworkSum([a, b] + rest) == 0x100 * a as int + b as int + NetworkSum(rest)
  {
    assert ([a, b] + rest)[2..] == rest;
  }

  /**
   * A transport checksum verifies if and only if the words of pseudo header and segment, in network order and with the
   * carries added in, come to all ones, as section 3.1 of RFC 9293 and RFC 768 have it.
   */
  lemma {:induction false} VerifiesByPseudoHeader(p: seq<byte>, protocol: byte, header: seq<byte>, payload: seq<byte>)
    requires |p| >= IP_HEADER && |header| + |payload| < WORD
    ensures Checksum(PseudoPacket(p, protocol, header, payload)) == 0 <==>
              Fold(PseudoHeaderSum(p, protocol, |header| + |payload|) + NetworkSum(header + payload)) == 0xFFFF
  {
    hide Fold, NetworkSum, WordSum, PseudoHeaderSum;
    var buf := PseudoPacket(p, protocol, header, payload);
    PseudoSum(p, protocol, header, payload);
    SumNeverOverflows(buf);
    ByteOrderIndependence(buf);
  }
}
