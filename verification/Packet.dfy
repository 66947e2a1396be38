/** IPv4, TCP and UDP headers in a packet buffer: what the parsers accept, and the checksums written in place. */
module Packet {
  import opened Words
  import opened InternetChecksum

  const IP_HEADER: nat := 20
  const TCP_HEADER: nat := 20
  const UDP_HEADER: nat := 8
  const PROTOCOL_TCP: byte := 6
  const PROTOCOL_UDP: byte := 17
  const PSEUDO_HEADER: nat := 12

  // ---- Fields in network order ----

  function Net16(p: seq<byte>, at: nat): (w: nat)
    requires at + 2 <= |p|
    ensures w < WORD
  {
    var a: int, b: int := p[at], p[at + 1];
    0x100 * a + b
  }

  function Net32(p: seq<byte>, at: nat): (w: nat)
    requires at + 4 <= |p|
    ensures w < TWO32
  {
    WORD * Net16(p, at) + Net16(p, at + 2)
  }

  function PutNet16(p: seq<byte>, at: nat, w: nat): (d: seq<byte>)
    requires at + 2 <= |p| && w < WORD
    ensures |d| == |p| && Net16(d, at) == w
    ensures forall i :: 0 <= i < |p| && !(at <= i < at + 2) ==> d[i] == p[i]
  {
    p[at := w / 0x100][at + 1 := w % 0x100]
  }

  function PutNet32(p: seq<byte>, at: nat, w: nat): (d: seq<byte>)
    requires at + 4 <= |p| && w < TWO32
    ensures |d| == |p| && Net32(d, at) == w
    ensures forall i :: 0 <= i < |p| && !(at <= i < at + 4) ==> d[i] == p[i]
  {
    hide Net16;
    PutNet16(PutNet16(p, at, w / WORD), at + 2, w % WORD)
  }

  // ---- Reading what was written ----

  function Bytes16(n: nat): (b: seq<byte>)
    ensures |b| == 2
  {
    [n / 0x100 % 0x100, n % 0x100]
  }

  predicate At(p: seq<byte>, cursor: nat, piece: seq<byte>) {
    cursor + |piece| <= |p| && p[cursor..cursor + |piece|] == piece
  }

  lemma {:induction false} AtSplit(p: seq<byte>, cursor: nat, a: seq<byte>, b: seq<byte>)
    requires At(p, cursor, a + b)
    ensures At(p, cursor, a) && At(p, cursor + |a|, b)
    ensures cursor + |a| + |b| <= |p|
  {
    var s := p[cursor..cursor + |a + b|];
    assert s[..|a|] == a && s[|a|..] == b;
    assert s[..|a|] == p[cursor..cursor + |a|];
    assert s[|a|..] == p[cursor + |a|..cursor + |a| + |b|];
  }

  lemma {:induction false} ReadBytes16(p: seq<byte>, cursor: nat, n: nat)
    requires n < WORD && At(p, cursor, Bytes16(n))
    ensures Net16(p, cursor) == n
  {
    var s := p[cursor..cursor + 2];
    assert s[0] == p[cursor] && s[1] == p[cursor + 1];
    assert s == Bytes16(n);
  }

  // ---- Parsing ----

  function IpHeaderLength(p: seq<byte>): nat
    requires p != []
  {
    var b: int := p[0];
    4 * (b % 16)
  }

  function Version(p: seq<byte>): nat
    requires p != []
  {
    var b: int := p[0];
    b / 16
  }

  function TotalLength(p: seq<byte>): nat
    requires |p| >= 4
  {
    Net16(p, 2)
  }

  predicate ParseIPv4(p: seq<byte>)
    ensures ParseIPv4(p) ==> IP_HEADER <= |p| && IP_HEADER <= IpHeaderLength(p) <= TotalLength(p) <= |p|
  {
    && |p| >= IP_HEADER
    && Version(p) == 4
    && IpHeaderLength(p) >= 20
    && IpHeaderLength(p) <= |p|
    && IpHeaderLength(p) <= TotalLength(p) <= |p|
  }

  /** A datagram by section 3.1 of RFC 791: what the length fields leave free, from the type of service on. */
  datatype Datagram = Datagram(tos: byte, middle: seq<byte>, options: seq<byte>, body: seq<byte>) {
    predicate Valid() {
      |middle| == 16 && |options| <= 40 && |options| % 4 == 0 && IP_HEADER + |options| + |body| < WORD
    }

    function Serialize(): seq<byte>
      requires Valid()
    {
      [0x45 + |options| / 4, tos] + Bytes16(IP_HEADER + |options| + |body|) + middle + options + body
    }
  }

  /**
   * The parser accepts a buffer if and only if it starts with a datagram: some serialized one, with whatever the
   * receiving interface left behind it.
   */
  lemma {:induction false} ParseIPv4AcceptsDatagrams(p: seq<byte>)
    ensures ParseIPv4(p) <==> exists d: Datagram, trailer :: d.Valid() && p == d.Serialize() + trailer
  {
    if ParseIPv4(p) {
      var d := DatagramOf(p);
      assert p == d.Serialize() + p[TotalLength(p)..];
    }
    if d: Datagram, trailer :| d.Valid() && p == d.Serialize() + trailer {
      SerializedParses(d, trailer);
    }
  }

  lemma {:induction false} DatagramOf(p: seq<byte>) returns (d: Datagram)
    requires ParseIPv4(p)
    ensures d.Valid() && p == d.Serialize() + p[TotalLength(p)..]
  {
    var h, n := IpHeaderLength(p), TotalLength(p);
    d := Datagram(p[1], p[4..20], p[20..h], p[h..n]);
    var b: int := p[0];
    assert b == 16 * (b / 16) + b % 16;
    assert h == 4 * (b % 16) && b == 0x45 + (h - IP_HEADER) / 4;
    TwoByteField(p);
    assert p == p[..2] + p[2..4] + p[4..20] + p[20..h] + p[h..n] + p[n..];
    assert p[..2] == [p[0], p[1]];
  }

  lemma {:induction false} TwoByteField(p: seq<byte>)
    requires |p| >= 4
    ensures p[2..4] == Bytes16(TotalLength(p))
  {
    var a: int, b: int := p[2], p[3];
    assert TotalLength(p) == 0x100 * a + b;
  }

  lemma {:induction false} SerializedParses(d: Datagram, trailer: seq<byte>)
    requires d.Valid()
    ensures ParseIPv4(d.Serialize() + trailer)
  {
    hide Net16;
    var p := d.Serialize() + trailer;
    var n := IP_HEADER + |d.options| + |d.body|;
    assert p[0] == 0x45 + |d.options| / 4;
    assert p[2..4] == Bytes16(n);
    ReadBytes16(p, 2, n);
  }

  /** The TCP header length field, of a header at index h. */
  function TcpHeaderLength(p: seq<byte>, h: nat): nat
    requires h + 13 <= |p|
  {
    var b: int := p[h + 12];
    4 * (b / 16)
  }

  predicate ParseTCP(p: seq<byte>) {
    && ParseIPv4(p)
    && p[9] == PROTOCOL_TCP
    && IpHeaderLength(p) + TCP_HEADER <= |p|
    && TcpHeaderLength(p, IpHeaderLength(p)) >= 20
    && IpHeaderLength(p) + TcpHeaderLength(p, IpHeaderLength(p)) <= |p|
  }

  /** Index of the first byte after the TCP header. */
  function TcpHeaders(p: seq<byte>): (n: nat)
    requires ParseTCP(p)
    ensures IP_HEADER + TCP_HEADER <= n <= |p| && n <= 120
  {
    IpHeaderLength(p) + TcpHeaderLength(p, IpHeaderLength(p))
  }

  function GetTCPPayload(p: seq<byte>): (payload: seq<byte>)
  {
    if !ParseTCP(p) then []
    else if TcpHeaders(p) >= TotalLength(p) then []
    else
      var payloadLen := TotalLength(p) - TcpHeaders(p);
      if TcpHeaders(p) + payloadLen > |p| then [] else p[TcpHeaders(p)..TcpHeaders(p) + payloadLen]
  }

  predicate ParseUDP(p: seq<byte>) {
    && ParseIPv4(p)
    && p[9] == PROTOCOL_UDP
    && IpHeaderLength(p) + UDP_HEADER <= |p|
    && Net16(p, IpHeaderLength(p) + 4) >= UDP_HEADER
    && IpHeaderLength(p) + Net16(p, IpHeaderLength(p) + 4) <= |p|
  }

  function GetUDPPayload(p: seq<byte>): (payload: seq<byte>)
  {
    if !ParseUDP(p) then []
    else
      var udpLen := Net16(p, IpHeaderLength(p) + 4);
      var offset := IpHeaderLength(p) + UDP_HEADER;
      if udpLen <= UDP_HEADER then []
      else if offset + (udpLen - UDP_HEADER) > |p| then []
      else p[offset..offset + (udpLen - UDP_HEADER)]
  }

  /**
   * The payload is exactly what lies between the headers and the end the IP header gives; the last test never fails.
   */
  lemma {:induction false} TcpPayloadIsRest(p: seq<byte>)
    requires ParseTCP(p)
    ensures TcpHeaders(p) <= TotalLength(p) ==> p[..TcpHeaders(p)] + GetTCPPayload(p) == p[..TotalLength(p)]
    ensures GetTCPPayload(p) == [] <==> TcpHeaders(p) >= TotalLength(p)
    ensures TcpHeaders(p) + |GetTCPPayload(p)| <= 0xFFFF || GetTCPPayload(p) == []
  {
  }

  function SequenceNumber(p: seq<byte>): (s: nat)
    requires ParseTCP(p)
    ensures s < TWO32
  {
    Net32(p, IpHeaderLength(p) + 4)
  }

  // ---- Checksums in place ----

  function Zero16(p: seq<byte>, at: nat): (d: seq<byte>)
    requires at + 2 <= |p|
    ensures |d| == |p| && d[at] == 0 && d[at + 1] == 0
    ensures forall i :: 0 <= i < |p| && i != at && i != at + 1 ==> d[i] == p[i]
  {
    Store16(p, at, 0)
  }

  predicate HasIpHeader(p: seq<byte>) {
    |p| >= IP_HEADER && IP_HEADER <= IpHeaderLength(p) <= |p|
  }

  function WithIpChecksum(p: seq<byte>): (d: seq<byte>)
    requires HasIpHeader(p)
    ensures |d| == |p|
    ensures forall i :: 0 <= i < |p| && i != 10 && i != 11 ==> d[i] == p[i]
  {
    Store16(p, 10, Checksum(Zero16(p, 10)[..IpHeaderLength(p)]))
  }

  method RecalcIPChecksum(p: array<byte>)
    requires HasIpHeader(p[..])
    modifies p
    ensures p[..] == WithIpChecksum(old(p[..]))
  {
    hide Checksum, IpHeaderLength;
    ghost var p0 := p[..];
    p[10], p[11] := 0, 0;
    assert p[..] == Zero16(p0, 10);
    HeaderLengthFrame(p0, p[..]);
    var b: int := p[0];
    HeaderLengthIs(p[..]);
    var c := ComputeChecksum(p[..][..4 * (b % 16)]);
    p[10], p[11] := c % 0x100, c / 0x100;
    assert p[..] == Store16(p0, 10, c);
  }

  lemma {:induction false} HeaderLengthIs(p: seq<byte>)
    requires p != []
    ensures IpHeaderLength(p) == 4 * ((p[0] as int) % 16)
  {
  }

  lemma {:induction false} HeaderLengthFrame(p: seq<byte>, q: seq<byte>)
    requires p != [] && q != [] && p[0] == q[0]
    ensures IpHeaderLength(p) == IpHeaderLength(q) && Version(p) == Version(q)
  {
  }

  /** The header checks out at a receiver. */
  predicate IpVerifies(p: seq<byte>)
    requires HasIpHeader(p)
  {
    Checksum(p[..IpHeaderLength(p)]) == 0
  }

  lemma {:induction false} IpChecksumVerifies(p: seq<byte>)
    requires HasIpHeader(p)
    ensures HasIpHeader(WithIpChecksum(p)) && IpVerifies(WithIpChecksum(p))
  {
    hide Checksum, IpHeaderLength, Store16;
    HeaderLengthIs(p);
    var d := WithIpChecksum(p);
    HeaderLengthFrame(p, d);
    var n := IpHeaderLength(p);
    var z := Zero16(p, 10)[..n];
    StoredChecksumVerifies(z, 10, Checksum(z));
    StoreIsStore(z, d[..n], 10, Checksum(z));
  }

  lemma {:induction false} StoreIsStore(z: seq<byte>, d: seq<byte>, at: nat, w: nat)
    requires at + 2 <= |z| == |d| && w < WORD
    requires d[at] == w % 0x100 && d[at + 1] == w / 0x100
    requires forall i :: 0 <= i < |z| && i != at && i != at + 1 ==> d[i] == z[i]
    ensures d == Store16(z, at, w)
  {
    hide Store16;
  }

  /** Pseudo header, transport header and payload: what a TCP or UDP checksum is taken over. */
  function PseudoPacket(p: seq<byte>, protocol: byte, header: seq<byte>, payload: seq<byte>): (buf: seq<byte>)
    requires |p| >= IP_HEADER
    ensures |buf| == PSEUDO_HEADER + |header| + |payload|
  {
    var len: nat := (|header| + |payload|) % WORD;
    p[12..20] + [0, protocol, len / 0x100, len % 0x100] + header + payload
  }

  predicate HasTcpHeader(p: seq<byte>) {
    && HasIpHeader(p)
    && IpHeaderLength(p) + TCP_HEADER <= |p|
    && TCP_HEADER <= TcpHeaderLength(p, IpHeaderLength(p)) <= |p| - IpHeaderLength(p)
  }

  function TcpHeaderOf(p: seq<byte>): (header: seq<byte>)
    requires HasTcpHeader(p)
    ensures |header| >= TCP_HEADER
  {
    p[IpHeaderLength(p)..IpHeaderLength(p) + TcpHeaderLength(p, IpHeaderLength(p))]
  }

  function WithTcpChecksum(p: seq<byte>, payload: seq<byte>): (d: seq<byte>)
    requires HasTcpHeader(p)
    ensures |d| == |p|
    ensures forall i :: 0 <= i < |p| && i != IpHeaderLength(p) + 16 && i != IpHeaderLength(p) + 17 ==> d[i] == p[i]
  {
    var header := Zero16(TcpHeaderOf(p), 16);
    Store16(p, IpHeaderLength(p) + 16, Checksum(PseudoPacket(p, PROTOCOL_TCP, header, payload)))
  }

  method MemCpy(dst: array<byte>, at: nat, src: seq<byte>)
    requires at + |src| <= dst.Length
    modifies dst
    ensures dst[..] == Splice(old(dst[..]), at, src)
  {
    forall i | 0 <= i < |src| {
      dst[at + i] := src[i];
    }
  }

  /** Four copies into a zeroed buffer lay out the pseudo packet. */
  lemma {:induction false} CopiesMakePseudo(p: seq<byte>, protocol: byte, header: seq<byte>, payload: seq<byte>,
      z: seq<byte>)
    requires |p| >= IP_HEADER && |z| == PSEUDO_HEADER + |header| + |payload| && (forall i :: 0 <= i < |z| ==> z[i] == 0)
    ensures var len: nat := (|header| + |payload|) % WORD;
      Splice(Splice(Splice(Splice(z, 0, p[12..20]), 8, [0, protocol, len / 0x100, len % 0x100]), 12, header),
          12 + |header|, payload)
      == PseudoPacket(p, protocol, header, payload)
  {
  }

  method BuildPseudo(p: seq<byte>, protocol: byte, header: seq<byte>, payload: seq<byte>) returns (buf: seq<byte>)
    requires |p| >= IP_HEADER
    ensures buf == PseudoPacket(p, protocol, header, payload)
  {
    hide Splice, PseudoPacket;
    var b := new byte[PSEUDO_HEADER + |header| + |payload|](_ => 0);
    CopiesMakePseudo(p, protocol, header, payload, b[..]);
    var len: nat := (|header| + |payload|) % WORD;
    MemCpy(b, 0, p[12..20]);
    MemCpy(b, 8, [0, protocol, len / 0x100, len % 0x100]);
    MemCpy(b, 12, header);
    MemCpy(b, 12 + |header|, payload);
    buf := b[..];
  }

  method RecalcTCPChecksum(p: array<byte>, payload: seq<byte>)
    requires HasTcpHeader(p[..])
    modifies p
    ensures p[..] == WithTcpChecksum(old(p[..]), payload)
  {
    hide Checksum, IpHeaderLength, TcpHeaderLength, PseudoPacket;
    ghost var p0 := p[..];
    HeaderLengthIs(p[..]);
    var ipByte: int := p[0];
    var h := 4 * (ipByte % 16);
    TcpHeaderLengthIs(p[..], h);
    var tcpByte: int := p[h + 12];
    var t := 4 * (tcpByte / 16);
    p[h + 16], p[h + 17] := 0, 0;
    assert p[..] == Zero16(p0, h + 16);
    var header := p[..][h..h + t];
    ZeroInHeader(p0, h, t);
    PseudoFrame(p0, p[..], PROTOCOL_TCP, header, payload);
    var buf := BuildPseudo(p[..], PROTOCOL_TCP, header, payload);
    var c := ComputeChecksum(buf);
    p[h + 16], p[h + 17] := c % 0x100, c / 0x100;
    assert p[..] == Store16(p0, h + 16, c);
  }

  lemma {:induction false} TcpHeaderLengthIs(p: seq<byte>, h: nat)
    requires h + 13 <= |p|
    ensures TcpHeaderLength(p, h) == 4 * ((p[h + 12] as int) / 16)
  {
  }

  lemma {:induction false} ZeroInHeader(p: seq<byte>, h: nat, t: nat)
    requires h + t <= |p| && t >= TCP_HEADER
    ensures Zero16(p, h + 16)[h..h + t] == Zero16(p[h..h + t], 16)
  {
    hide Store16;
  }

  lemma {:induction false} PseudoFrame(p: seq<byte>, q: seq<byte>, protocol: byte, header: seq<byte>,
      payload: seq<byte>)
    requires |p| >= IP_HEADER && |q| >= IP_HEADER && p[12..20] == q[12..20]
    ensures PseudoPacket(p, protocol, header, payload) == PseudoPacket(q, protocol, header, payload)
  {
  }

  lemma {:induction false} StoreInPseudo(p: seq<byte>, protocol: byte, header: seq<byte>, payload: seq<byte>, at: nat,
      w: nat)
    requires |p| >= IP_HEADER && at + 2 <= |header| && w < WORD
    ensures PseudoPacket(p, protocol, Store16(header, at, w), payload)
      == Store16(PseudoPacket(p, protocol, header, payload), PSEUDO_HEADER + at, w)
  {
    hide Store16;
    var buf := PseudoPacket(p, protocol, header, payload);
    var d := PseudoPacket(p, protocol, Store16(header, at, w), payload);
    StoreIsStore(buf, d, PSEUDO_HEADER + at, w);
  }

  /** What the checksum of a transport header with a zeroed field at index `at` verifies to once stored. */
  lemma {:induction false} TransportVerifies(p: seq<byte>, protocol: byte, header: seq<byte>, payload: seq<byte>,
      at: nat, w: nat)
    requires |p| >= IP_HEADER && at % 2 == 0 && at + 2 <= |header| && header[at] == 0 && header[at + 1] == 0
    requires PSEUDO_HEADER + |header| + |payload| <= MAX_SUMMED && w < WORD
    requires var c := Checksum(PseudoPacket(p, protocol, header, payload)); w == c || (c == 0 && w == ONES)
    ensures Checksum(PseudoPacket(p, protocol, Store16(header, at, w), payload)) == 0
  {
    hide Checksum, Store16;
    var buf := PseudoPacket(p, protocol, header, payload);
    StoreInPseudo(p, protocol, header, payload, at, w);
    StoredChecksumVerifies(buf, PSEUDO_HEADER + at, w);
  }

  lemma {:induction false} TcpChecksumVerifies(p: seq<byte>, payload: seq<byte>)
    requires HasTcpHeader(p) && |p| + |payload| <= MAX_SUMMED - PSEUDO_HEADER
    ensures var d := WithTcpChecksum(p, payload);
      HasTcpHeader(d) && Checksum(PseudoPacket(d, PROTOCOL_TCP, TcpHeaderOf(d), payload)) == 0
  {
    hide Checksum, Store16, IpHeaderLength, TcpHeaderLength, PseudoPacket;
    var d := WithTcpChecksum(p, payload);
    HeaderLengthFrame(p, d);
    var h := IpHeaderLength(p);
    TcpHeaderLengthIs(p, h);
    TcpHeaderLengthIs(d, h);
    var z := Zero16(TcpHeaderOf(p), 16);
    var c := Checksum(PseudoPacket(p, PROTOCOL_TCP, z, payload));
    TransportVerifies(p, PROTOCOL_TCP, z, payload, 16, c);
    StoreIsStore(z, TcpHeaderOf(d), 16, c);
    PseudoFrame(p, d, PROTOCOL_TCP, TcpHeaderOf(d), payload);
  }

  /** The segment checks out at a receiver, which takes the checksum over what the IP header says is there. */
  predicate TcpVerifies(p: seq<byte>)
    requires ParseTCP(p) && TcpHeaders(p) <= TotalLength(p)
  {
    Checksum(PseudoPacket(p, PROTOCOL_TCP, p[IpHeaderLength(p)..TcpHeaders(p)], GetTCPPayload(p))) == 0
  }
}
