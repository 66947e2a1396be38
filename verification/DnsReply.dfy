/** Answering an intercepted DNS query with a complete packet: RFC 791 and RFC 768 around the codec. */
module DnsReply {
  import opened Words
  import opened InternetChecksum
  import opened Packet
  import opened DnsCodec
  import opened QuestionEcho

  const DNS_PORT: nat := 53
  const ENVELOPE: nat := 28
  const REPLY_TTL: nat := 300

  /** Index of the UDP header of an accepted packet. */
  function UdpIndex(p: seq<byte>): (h: nat)
    requires ParseUDP(p)
    ensures IP_HEADER <= h && h + UDP_HEADER <= |p|
  {
    IpHeaderLength(p)
  }

  // ---- The reply as a function of query and payload ----

  function ReplyIpHeader(p: seq<byte>, total: nat): (header: seq<byte>)
    requires ParseUDP(p)
    ensures |header| == IP_HEADER
  {
    [0x45, 0] + Bytes16(total) + p[4..6] + [0, 0] + [64, PROTOCOL_UDP] + [0, 0] + p[16..20] + p[12..16]
  }

  /** The UDP header with a zeroed checksum. */
  function ReplyUdpHeader(p: seq<byte>, length: nat): (header: seq<byte>)
    requires ParseUDP(p)
    ensures |header| == UDP_HEADER && header[6] == 0 && header[7] == 0
  {
    p[UdpIndex(p) + 2..UdpIndex(p) + 4] + p[UdpIndex(p)..UdpIndex(p) + 2] + Bytes16(length) + [0, 0]
  }

  function UdpChecksum(p: seq<byte>, header: seq<byte>, payload: seq<byte>): (c: nat)
    requires |p| >= IP_HEADER
    ensures 0 < c < WORD
  {
    var c := Checksum(PseudoPacket(p, PROTOCOL_UDP, header, payload));
    if c == 0 then ONES else c
  }

  function Reply(p: seq<byte>, dns: seq<byte>): (r: seq<byte>)
    requires ParseUDP(p)
    ensures |r| == ENVELOPE + |dns|
  {
    var udp := ReplyUdpHeader(p, UDP_HEADER + |dns|);
    var bare := ReplyIpHeader(p, ENVELOPE + |dns|) + udp + dns;
    ReplyHasIpHeader(p, bare, dns);
    Store16(WithIpChecksum(bare), IP_HEADER + 6, UdpChecksum(bare, udp, dns))
  }

  lemma {:induction false} ReplyHasIpHeader(p: seq<byte>, bare: seq<byte>, dns: seq<byte>)
    requires ParseUDP(p)
    requires bare == ReplyIpHeader(p, ENVELOPE + |dns|) + ReplyUdpHeader(p, UDP_HEADER + |dns|) + dns
    ensures HasIpHeader(bare) && IpHeaderLength(bare) == IP_HEADER && Version(bare) == 4
  {
    hide ParseUDP, UdpIndex;
    assert bare[0] == 0x45;
  }

  // ---- The reply in place ----

  /** Writing right after a finished prefix makes it longer; what follows is untouched. */
  lemma {:induction false} SpliceGrows(s: seq<byte>, done: seq<byte>, bytes: seq<byte>)
    requires |done| + |bytes| <= |s| && s[..|done|] == done
    ensures var t := Splice(s, |done|, bytes);
      t[..|done| + |bytes|] == done + bytes && t[|done| + |bytes|..] == s[|done| + |bytes|..]
  {
  }

  lemma {:induction false} IpFields(p: seq<byte>, total: nat, z: seq<byte>)
    requires ParseUDP(p) && |z| >= ENVELOPE && (forall i :: 0 <= i < |z| ==> z[i] == 0)
    ensures var a := z[0 := 0x45];
      var b := Splice(Splice(a, 2, Bytes16(total)), 4, p[4..6])[8 := 64][9 := PROTOCOL_UDP];
      var c := Splice(Splice(b, 12, p[16..20]), 16, p[12..16]);
      c[..20] == ReplyIpHeader(p, total) && c[20..] == z[20..]
  {
    hide ParseUDP, UdpIndex, Bytes16, Splice;
    assert UdpIndex(p) >= IP_HEADER;
    var a := z[0 := 0x45];
    assert a[..2] == [0x45, 0];
    SpliceGrows(a, [0x45, 0], Bytes16(total));
    var b0 := Splice(a, 2, Bytes16(total));
    SpliceGrows(b0, [0x45, 0] + Bytes16(total), p[4..6]);
    var b1 := Splice(b0, 4, p[4..6]);
    var b := b1[8 := 64][9 := PROTOCOL_UDP];
    var done := [0x45, 0] + Bytes16(total) + p[4..6] + [0, 0] + [64, PROTOCOL_UDP] + [0, 0];
    forall i | 6 <= i < |z|
      ensures b1[i] == z[i]
    {
      SameTail(b1, b0, 6, i);
      SameTail(b0, a, 4, i);
    }
    assert b[..12] == done;
    SpliceGrows(b, done, p[16..20]);
    var c0 := Splice(b, 12, p[16..20]);
    SpliceGrows(c0, done + p[16..20], p[12..16]);
    var c := Splice(c0, 16, p[12..16]);
    forall i | 20 <= i < |z|
      ensures c[i] == z[i]
    {
      SameTail(c, c0, 20, i);
      SameTail(c0, b, 16, i);
    }
  }

  lemma {:induction false} SameTail(s: seq<byte>, t: seq<byte>, k: nat, i: nat)
    requires |s| == |t| && k <= i < |s| && s[k..] == t[k..]
    ensures s[i] == t[i]
  {
    assert s[k..][i - k] == s[i] && t[k..][i - k] == t[i];
  }

  lemma {:induction false} FieldsMakeReply(p: seq<byte>, dns: seq<byte>, z: seq<byte>)
    requires ParseUDP(p) && |z| == ENVELOPE + |dns| && (forall i :: 0 <= i < |z| ==> z[i] == 0)
    ensures var h := UdpIndex(p);
      var a := z[0 := 0x45];
      var b := Splice(Splice(a, 2, Bytes16(ENVELOPE + |dns|)), 4, p[4..6])[8 := 64][9 := PROTOCOL_UDP];
      var c := Splice(Splice(b, 12, p[16..20]), 16, p[12..16]);
      var d := Splice(Splice(Splice(c, 20, p[h + 2..h + 4]), 22, p[h..h + 2]), 24, Bytes16(UDP_HEADER + |dns|));
      Splice(d, 28, dns) == ReplyIpHeader(p, ENVELOPE + |dns|) + ReplyUdpHeader(p, UDP_HEADER + |dns|) + dns
  {
    hide ParseUDP, UdpIndex, Bytes16, Splice;
    IpFields(p, ENVELOPE + |dns|, z);
    var h := UdpIndex(p);
    var b := Splice(Splice(z[0 := 0x45], 2, Bytes16(ENVELOPE + |dns|)), 4, p[4..6])[8 := 64][9 := PROTOCOL_UDP];
    var c := Splice(Splice(b, 12, p[16..20]), 16, p[12..16]);
    UdpFields(c, c[..20], p[h + 2..h + 4], p[h..h + 2], Bytes16(UDP_HEADER + |dns|), dns);
  }

  lemma {:induction false} UdpFields(c: seq<byte>, ip: seq<byte>, from: seq<byte>, to: seq<byte>, len: seq<byte>,
      dns: seq<byte>)
    requires |c| == ENVELOPE + |dns| && ip == c[..20] && |from| == |to| == |len| == 2
    requires c[20..] == seq(|c| - 20, _ => 0)
    ensures Splice(Splice(Splice(Splice(c, 20, from), 22, to), 24, len), 28, dns)
      == ip + (from + to + len + [0, 0]) + dns
  {
    hide Splice;
    assert c[26] == c[20..][6] && c[27] == c[20..][7];
    SpliceGrows(c, ip, from);
    var d1 := Splice(c, 20, from);
    SpliceGrows(d1, ip + from, to);
    var d2 := Splice(d1, 22, to);
    SpliceGrows(d2, ip + from + to, len);
    var d3 := Splice(d2, 24, len);
    forall i | i in {26, 27}
      ensures d3[i] == c[i]
    {
      SameTail(d3, d2, 26, i);
      SameTail(d2, d1, 24, i);
      SameTail(d1, c, 22, i);
    }
    var done := ip + from + to + len + [0, 0];
    assert d3[..28] == done;
    SpliceGrows(d3, done, dns);
    var d := Splice(d3, 28, dns);
    assert d == d[..28 + |dns|];
    assert done + dns == ip + (from + to + len + [0, 0]) + dns;
  }

  method BuildReply(p: seq<byte>, dns: seq<byte>) returns (reply: seq<byte>)
    requires ParseUDP(p)
    ensures reply == Reply(p, dns)
  {
    hide ParseUDP, UdpIndex, Splice, ReplyIpHeader, ReplyUdpHeader, Bytes16, WithIpChecksum, Checksum, PseudoPacket;
    var h := UdpIndex(p);
    var total := ENVELOPE + |dns|;
    var r := new byte[total](_ => 0);
    FieldsMakeReply(p, dns, r[..]);
    r[0] := 0x45;
    MemCpy(r, 2, Bytes16(total));
    MemCpy(r, 4, p[4..6]);
    r[8] := 64;
    r[9] := PROTOCOL_UDP;
    MemCpy(r, 12, p[16..20]);
    MemCpy(r, 16, p[12..16]);
    MemCpy(r, 20, p[h + 2..h + 4]);
    MemCpy(r, 22, p[h..h + 2]);
    MemCpy(r, 24, Bytes16(UDP_HEADER + |dns|));
    MemCpy(r, 28, dns);
    ghost var bare := r[..];
    var udp := r[..][20..28];
    assert udp == ReplyUdpHeader(p, UDP_HEADER + |dns|);
    ReplyHasIpHeader(p, bare, dns);
    RecalcIPChecksum(r);
    PseudoFrame(bare, r[..], PROTOCOL_UDP, udp, dns);
    var buf := BuildPseudo(r[..], PROTOCOL_UDP, udp, dns);
    var c := ComputeChecksum(buf);
    if c == 0 {
      c := 0xFFFF;
    }
    ghost var r1 := r[..];
    r[26], r[27] := c % 0x100, c / 0x100;
    assert r[..] == Store16(r1, 26, c);
    reply := r[..];
  }

  // ---- What the client receives ----

  predicate UdpVerifies(r: seq<byte>)
    requires ParseUDP(r)
  {
    Checksum(PseudoPacket(r, PROTOCOL_UDP, r[UdpIndex(r)..UdpIndex(r) + UDP_HEADER], GetUDPPayload(r))) == 0
  }

  /** The pieces a reply consists of, with both checksums in their places. */
  lemma {:induction false} ReplyParts(p: seq<byte>, dns: seq<byte>)
    requires ParseUDP(p)
    ensures var r, ip, udp := Reply(p, dns), ReplyIpHeader(p, ENVELOPE + |dns|), ReplyUdpHeader(p, UDP_HEADER + |dns|);
      && (forall i :: 0 <= i < IP_HEADER && i != 10 && i != 11 ==> r[i] == ip[i])
      && r[12..20] == ip[12..20]
      && r[20..28] == Store16(udp, 6, UdpChecksum(r, udp, dns))
      && r[28..] == dns
      && HasIpHeader(r) && IpHeaderLength(r) == IP_HEADER && Version(r) == 4 && IpVerifies(r)
  {
    hide ParseUDP, ReplyIpHeader, ReplyUdpHeader, Checksum, IpHeaderLength, PseudoPacket, Store16;
    var ip, udp := ReplyIpHeader(p, ENVELOPE + |dns|), ReplyUdpHeader(p, UDP_HEADER + |dns|);
    var bare := ip + udp + dns;
    ReplyHasIpHeader(p, bare, dns);
    var d := WithIpChecksum(bare);
    IpChecksumVerifies(bare);
    var r := Reply(p, dns);
    HeaderLengthFrame(bare, d);
    HeaderLengthFrame(bare, r);
    assert r[..IP_HEADER] == d[..IP_HEADER];
    assert forall i :: 0 <= i < IP_HEADER && i != 10 && i != 11 ==> r[i] == bare[i];
    assert r[12..20] == bare[12..20] == ip[12..20];
    assert r[28..] == dns;
    PseudoFrame(bare, r, PROTOCOL_UDP, udp, dns);
    var c := UdpChecksum(bare, udp, dns);
    assert UdpChecksum(r, udp, dns) == c;
    assert bare[20..28] == udp;
    StoreIsStore(udp, r[20..28], 6, c);
  }

  lemma {:induction false} ReplyParses(p: seq<byte>, dns: seq<byte>)
    requires ParseUDP(p) && ENVELOPE + |dns| < WORD
    ensures var r := Reply(p, dns);
      && ParseUDP(r) && UdpIndex(r) == IP_HEADER && GetUDPPayload(r) == dns && TotalLength(r) == |r|
      && r[12..16] == p[16..20] && r[16..20] == p[12..16]
      && r[20..22] == p[UdpIndex(p) + 2..UdpIndex(p) + 4] && r[22..24] == p[UdpIndex(p)..UdpIndex(p) + 2]
      && r[4] == p[4] && r[5] == p[5]
  {
    hide Reply, IpHeaderLength, Version, UdpChecksum, IpVerifies;
    var r, ip, udp := Reply(p, dns), ReplyIpHeader(p, ENVELOPE + |dns|), ReplyUdpHeader(p, UDP_HEADER + |dns|);
    ReplyParts(p, dns);
    assert UdpIndex(p) >= IP_HEADER;
    assert r[2] == Bytes16(ENVELOPE + |dns|)[0] && r[3] == Bytes16(ENVELOPE + |dns|)[1];
    assert r[9] == PROTOCOL_UDP && r[4] == p[4] && r[5] == p[5];
    var s := r[20..28];
    assert s[4] == r[24] && s[5] == r[25] && udp[4..6] == Bytes16(UDP_HEADER + |dns|);
    assert r[24] == Bytes16(UDP_HEADER + |dns|)[0] && r[25] == Bytes16(UDP_HEADER + |dns|)[1];
    TwoBytes(ENVELOPE + |dns|);
    TwoBytes(UDP_HEADER + |dns|);
    assert r[12..16] == r[12..20][..4] && r[16..20] == r[12..20][4..];
    assert ip[12..20] == p[16..20] + p[12..16];
    assert r[20..22] == s[..2] == udp[..2] && r[22..24] == s[2..4] == udp[2..4];
    assert r[28..28 + |dns|] == r[28..];
  }

  lemma {:induction false} ReplyVerifies(p: seq<byte>, dns: seq<byte>)
    requires ParseUDP(p) && ENVELOPE + |dns| < WORD
    ensures var r := Reply(p, dns); ParseUDP(r) && UdpVerifies(r) && (r[26] != 0 || r[27] != 0)
  {
    hide Reply, ParseUDP, ReplyIpHeader, ReplyUdpHeader, Checksum, IpHeaderLength, PseudoPacket, Store16, GetUDPPayload;
    var r, udp := Reply(p, dns), ReplyUdpHeader(p, UDP_HEADER + |dns|);
    ReplyParts(p, dns);
    ReplyParses(p, dns);
    TransportVerifies(r, PROTOCOL_UDP, udp, dns, 6, UdpChecksum(r, udp, dns));
    var s := r[20..28];
    assert s[6] == r[26] && s[7] == r[27];
  }

  /**
   * Whatever the query, a reply that fits an IP packet passes the parsers and yields exactly the DNS message; the
   * addresses and ports are swapped and the identification is kept, the header has no options and its time to live is
   * 64; the header checksum verifies, and so does the UDP checksum, which is never sent as zero.
   */
  lemma {:induction false} ReplyIsFaithful(p: seq<byte>, dns: seq<byte>)
    requires ParseUDP(p) && ENVELOPE + |dns| < WORD
    ensures var r, h := Reply(p, dns), UdpIndex(p);
      && ParseUDP(r) && GetUDPPayload(r) == dns && TotalLength(r) == |r| && UdpIndex(r) == IP_HEADER
      && r[12..16] == p[16..20] && r[16..20] == p[12..16]
      && r[20..22] == p[h + 2..h + 4] && r[22..24] == p[h..h + 2]
      && r[4] == p[4] && r[5] == p[5]
      && r[0] == 0x45 && r[1] == 0 && r[6] == r[7] == 0 && r[8] == 64 && r[9] == PROTOCOL_UDP
      && IpVerifies(r) && UdpVerifies(r) && (r[26] != 0 || r[27] != 0)
  {
    hide Reply, ParseUDP, UdpVerifies, IpVerifies, GetUDPPayload, ReplyIpHeader, ReplyUdpHeader, UdpChecksum;
    ReplyParts(p, dns);
    ReplyParses(p, dns);
    ReplyVerifies(p, dns);
    ReplyConstants(p, dns);
  }

  /** The fields of the new IP header that come from nowhere. */
  lemma {:induction false} ReplyConstants(p: seq<byte>, dns: seq<byte>)
    requires ParseUDP(p)
    ensures var r := Reply(p, dns);
      r[0] == 0x45 && r[1] == 0 && r[6] == r[7] == 0 && r[8] == 64 && r[9] == PROTOCOL_UDP
  {
    hide Reply, ParseUDP, UdpIndex, IpVerifies, UdpChecksum, Bytes16;
    ReplyParts(p, dns);
  }

  // ---- The whole of the interception ----

  /** The resolver, with its cache and its upstream, is any function from names to addresses. */
  function Processed(p: seq<byte>, resolve: seq<byte> -> seq<u32>): (r: Option<seq<byte>>)
  {
    if !ParseUDP(p) || Net16(p, UdpIndex(p) + 2) != DNS_PORT || GetUDPPayload(p) == [] then None
    else
      match Question(GetUDPPayload(p))
      case None => None
      case Some(name) =>
        if resolve(name) == [] then None
        else Some(Reply(p, Response(Net16(GetUDPPayload(p), 0), name, resolve(name), REPLY_TTL)))
  }

  method ProcessDnsPacket(p: seq<byte>, resolve: seq<byte> -> seq<u32>) returns (r: Option<seq<byte>>)
    ensures r == Processed(p, resolve)
  {
    hide ParseUDP, GetUDPPayload, Question, Reply, Response, Net16;
    if !ParseUDP(p) {
      return None;
    }
    if Net16(p, UdpIndex(p) + 2) != 53 {
      return None;
    }
    var payload := GetUDPPayload(p);
    if payload == [] {
      return None;
    }
    var name, txId := ParseDnsQuestion(payload);
    if name == None {
      return None;
    }
    QuestionHasHeader(payload);
    var ips := resolve(name.value);
    if ips == [] {
      return None;
    }
    var dns := BuildDnsResponse(txId, name.value, ips, REPLY_TTL);
    var reply := BuildReply(p, dns);
    r := Some(reply);
  }

  lemma {:induction false} QuestionHasHeader(payload: seq<byte>)
    requires Question(payload) != None
    ensures |payload| >= DNS_HEADER
  {
  }

  /** r goes back where p came from, by addresses and ports. */
  predicate ComesBack(p: seq<byte>, r: seq<byte>)
    requires ParseUDP(p) && ParseUDP(r)
  {
    && r[12..16] == p[16..20] && r[16..20] == p[12..16]
    && r[UdpIndex(r)..UdpIndex(r) + 2] == p[UdpIndex(p) + 2..UdpIndex(p) + 4]
    && r[UdpIndex(r) + 2..UdpIndex(r) + 4] == p[UdpIndex(p)..UdpIndex(p) + 2]
  }

  /** The message is a response whose question section holds the name. */
  predicate RepeatsQuestion(dns: seq<byte>, name: seq<byte>)
    requires |dns| >= DNS_HEADER
  {
    && Question(dns) == None
    && ParseName(dns, DNS_HEADER, []) == Some((name, DNS_HEADER + |EncodeLabels(Labels(name))| + 1))
  }

  /**
   * End to end: a client that asks for a name over port 53 gets one packet in which both checksums verify, which comes
   * from the address and port it asked and goes to the ones it asked from, under the id it used, repeating its
   * question, and whose answers are exactly the resolved addresses in order. The question is the client's byte for byte
   * if and only if its class is IN and no label of it has a dot in it.
   */
  lemma {:induction false} ClientGetsAnswers(p: seq<byte>, name: seq<byte>, resolve: seq<byte> -> seq<u32>)
    requires ParseUDP(p) && Net16(p, UdpIndex(p) + 2) == DNS_PORT
    requires Question(GetUDPPayload(p)) == Some(name) && GoodName(name)
    requires var dns := Response(0, name, resolve(name), REPLY_TTL); resolve(name) != [] && ENVELOPE + |dns| < WORD
    ensures var processed := Processed(p, resolve);
      && processed.Some? && ParseUDP(processed.value)
      && IpVerifies(processed.value) && UdpVerifies(processed.value) && ComesBack(p, processed.value)
      && |GetUDPPayload(processed.value)| >= DNS_HEADER
      && Net16(GetUDPPayload(processed.value), 0) == Net16(GetUDPPayload(p), 0)
      && RepeatsQuestion(GetUDPPayload(processed.value), name)
      && |GetUDPPayload(p)| >= DNS_HEADER
      && (QuestionSection(GetUDPPayload(processed.value)) == QuestionSection(GetUDPPayload(p))
          <==> PlainQuery(GetUDPPayload(p)))
      && Resolved(GetUDPPayload(processed.value)) == Found(resolve(name), REPLY_TTL)
  {
    hide ParseUDP, GetUDPPayload, Reply, UdpVerifies, IpVerifies, Resolved, GoodName, Net16;
    hide EncodedQuestion, EncodeAnswers, ParseName, Labels, EncodeLabels, QuestionSection, PlainQuery, Question;
    var payload := GetUDPPayload(p);
    QuestionHasHeader(payload);
    var ips, txId := resolve(name), Net16(payload, 0);
    var dns := Response(txId, name, ips, REPLY_TTL);
    assert |dns| == |Response(0, name, ips, REPLY_TTL)| >= RECORD * |ips|;
    ReplyIsFaithful(p, dns);
    ResponseRoundTrip(txId, name, ips, REPLY_TTL);
    ResponseSection(txId, name, ips, REPLY_TTL);
    EchoExactly(payload, name);
    assert ips[..|ips| % WORD] == ips;
  }
}
