/** The messages that are built, and the packets that are answered, in terms of serialized messages. */
module DnsAnswer {
  import opened Words
  import opened InternetChecksum
  import opened Packet
  import opened TransportHeaders
  import opened DnsCodec
  import opened DnsMessages
  import opened QuestionEcho
  import opened DnsReply

  const TYPE_A: nat := 1
  const CLASS_IN: nat := 1
  const QUESTION_NAME: nat := 12

  /** An address record whose owner is a pointer to the name at the start of the question section. */
  function AddressRecord(ip: u32, ttl: u32): Record {
    Record(Name([], Some(QUESTION_NAME)), TYPE_A, CLASS_IN, ttl, Bytes32(ip))
  }

  function AddressRecords(ips: seq<u32>, ttl: u32): (records: seq<Record>)
    ensures |records| == |ips|
    ensures forall i :: 0 <= i < |ips| ==> records[i] == AddressRecord(ips[i], ttl)
  {
    seq(|ips|, i requires 0 <= i < |ips| => AddressRecord(ips[i], ttl))
  }

  function AddressQuestion(name: seq<byte>): Asked {
    Asked(Name(Labels(name), None), TYPE_A, CLASS_IN)
  }

  lemma {:induction false} OneQuestion(name: seq<byte>)
    ensures EncodedQuestion(name) == EncodeAllAsked([AddressQuestion(name)])
  {
    hide Labels, EncodeLabels;
    assert [AddressQuestion(name)][1..] == [];
    assert Bytes16(1) == [0, 1];
    assert EncodeAllAsked([]) == [];
  }

  lemma {:induction false} AnswersAreRecords(ips: seq<u32>, ttl: u32)
    ensures EncodeAnswers(ips, ttl) == EncodeRecords(AddressRecords(ips, ttl))
    decreases |ips|
  {
    hide Bytes32, EncodeAnswer, EncodeRecord;
    if ips != [] {
      var records := AddressRecords(ips, ttl);
      AnswersAreRecords(ips[1..], ttl);
      assert records[1..] == AddressRecords(ips[1..], ttl);
      AnswerIsRecord(ips[0], ttl);
    }
  }

  lemma {:induction false} AnswerIsRecord(ip: u32, ttl: u32)
    ensures EncodeAnswer(ip, ttl) == EncodeRecord(AddressRecord(ip, ttl))
  {
    hide Bytes32;
    NoLabels();
    var r := AddressRecord(ip, ttl);
    assert EncodeName(r.owner) == [0xC0, 0x0C];
    assert Bytes16(1) == [0, 1] && Bytes16(4) == [0, 4];
  }

  /** The response to a name and its addresses: an answer, recursion desired and available, no error. */
  function AnswerMessage(id: nat, name: seq<byte>, ips: seq<u32>, ttl: u32): Message {
    Message(id, 0x81, 0x80, [AddressQuestion(name)], AddressRecords(ips, ttl), [0, 0, 0, 0], [])
  }

  /** A built response is the message with the question, and one record of type A and class IN for each address. */
  lemma {:induction false} ResponseIsMessage(id: nat, name: seq<byte>, ips: seq<u32>, ttl: u32)
    ensures Response(id, name, ips, ttl) == EncodeMessage(AnswerMessage(id, name, ips, ttl))
  {
    hide EncodedQuestion, EncodeAllAsked, EncodeAnswers, EncodeRecords;
    OneQuestion(name);
    AnswersAreRecords(ips, ttl);
    assert Bytes16(1) == [0, 1];
    var m := AnswerMessage(id, name, ips, ttl);
    assert MessageHeader(m) == ResponseHeader(id, |ips|);
    assert EncodeRecords(m.answers) + [] == EncodeRecords(m.answers);
  }

  /** The query sent upstream: recursion desired, one question of type A and class IN. */
  lemma {:induction false} QueryIsMessage(name: seq<byte>)
    ensures QUERY_HEADER + EncodedQuestion(name)
         == EncodeMessage(Message(QUERY_ID, 0x01, 0x00, [AddressQuestion(name)], [], [0, 0, 0, 0], []))
  {
    hide EncodedQuestion, EncodeAllAsked;
    OneQuestion(name);
    assert EncodeRecords([]) == [];
    assert Bytes16(1) == [0, 1] && Bytes16(0) == [0, 0] && Bytes16(QUERY_ID) == [0x12, 0x34];
  }

  // ---- What is asked ----

  predicate AsksAddress(m: Message) {
    m.high < 0x80 && m.questions != [] && m.questions[0].name.pointer.None? && m.questions[0].kind == TYPE_A
  }

  function AskedName(m: Message): seq<byte>
    requires m.questions != []
  {
    Join(m.questions[0].name.labels)
  }

  lemma {:induction false} ParsePointed(p: seq<byte>, pos: nat, domain: seq<byte>, labels: seq<seq<byte>>, t: nat,
      rest: seq<byte>)
    requires t < 0x4000 && At(p, pos, EncodeLabels(labels) + (EncodeEnd(Some(t)) + rest))
    requires forall i :: 0 <= i < |labels| ==> 1 <= |labels[i]| <= 63
    ensures ParseName(p, pos, domain) == None
    decreases |labels|
  {
    hide At, IsPointer, Extend;
    if labels == [] {
      assert EncodeLabels(labels) + (EncodeEnd(Some(t)) + rest) == EncodeEnd(Some(t)) + rest;
      ReadPointer(p, pos, t, rest);
    } else {
      var part, more := labels[0], labels[1..];
      LabelsThenRest(labels, EncodeEnd(Some(t)) + rest);
      ReadLabel(p, pos, part, EncodeLabels(more) + (EncodeEnd(Some(t)) + rest));
      ParsePointed(p, pos + 1 + |part|, Extend(domain, part), more, t, rest);
    }
  }

  /**
   * Of any well-formed message the question parser gives the name, its labels joined with dots, exactly if it is a
   * query whose first question is of type A, with an uncompressed name; of whatever class.
   */
  lemma {:induction false} QuestionOfMessage(m: Message)
    requires ValidMessage(m)
    ensures Question(EncodeMessage(m)) == if AsksAddress(m) then Some(AskedName(m)) else None
  {
    hide At, EncodeMessage, EncodeAllAsked, EncodeRecords, ParseName, Net16, Bytes16, Join, AllValid, ValidName;
    var p, answers := EncodeMessage(m), EncodeRecords(m.answers) + m.more;
    MessageParts(m);
    HeaderHigh(m, EncodeAllAsked(m.questions) + answers);
    HeaderOf(m, EncodeAllAsked(m.questions) + answers);
    if m.questions != [] {
      FirstQuestion(m, answers);
    }
  }

  lemma {:induction false} MessageParts(m: Message)
    requires |m.counts| == 4
    ensures EncodeMessage(m)
         == MessageHeader(m) + (EncodeAllAsked(m.questions) + (EncodeRecords(m.answers) + m.more))
  {
    hide EncodeAllAsked, EncodeRecords;
  }

  lemma {:induction false} HeaderHigh(m: Message, rest: seq<byte>)
    requires |m.counts| == 4
    ensures var p := MessageHeader(m) + rest; Net16(p, 2) < 0x8000 <==> m.high < 0x80
  {
    hide Bytes16;
    var p := MessageHeader(m) + rest;
    assert p[2] == m.high && p[3] == m.low;
  }

  lemma {:induction false} FirstQuestion(m: Message, answers: seq<byte>)
    requires ValidMessage(m) && m.questions != []
    requires EncodeMessage(m) == MessageHeader(m) + (EncodeAllAsked(m.questions) + answers)
    ensures var p, a := EncodeMessage(m), m.questions[0];
      match ParseName(p, DNS_HEADER, [])
      case None => a.name.pointer.Some?
      case Some(r) => a.name.pointer.None? && r.0 == AskedName(m) && r.1 + 4 <= |p|
                      && (Net16(p, r.1) == 1 <==> a.kind == 1)
  {
    hide At, EncodeMessage, EncodeRecords, ParseName, Net16, Bytes16, Join, EncodeLabels, MessageHeader, AllValid;
    var p, a, later := EncodeMessage(m), m.questions[0], EncodeAllAsked(m.questions[1..]) + answers;
    var fields := Bytes16(a.kind) + Bytes16(a.class_);
    AtEnd(MessageHeader(m), EncodeAllAsked(m.questions) + answers);
    assert EncodeAllAsked(m.questions) + answers == EncodeName(a.name) + (fields + later);
    NameParts(a.name, fields + later);
    match a.name.pointer {
      case Some(t) => ParsePointed(p, DNS_HEADER, [], a.name.labels, t, fields + later);
      case None =>
        ParseEncoded(p, DNS_HEADER, [], a.name.labels, fields + later);
        ExtendAllIsJoin([], a.name.labels);
        var end := DNS_HEADER + |EncodeLabels(a.name.labels)| + 1;
        AtSplit(p, end, fields, later);
        AtSplit(p, end, Bytes16(a.kind), Bytes16(a.class_));
        ReadBytes16(p, end, a.kind);
    }
  }

  // ---- What is answered ----

  /**
   * Of all UDP packets with a well-formed message in them, exactly those to port 53 that ask for an address the
   * resolver has are answered. The answer holds the message with the id and the name asked for, and one address record,
   * with a time to live of 300 seconds, for each address.
   */
  lemma {:induction false} AnsweredExactly(
    p: seq<byte>, resolve: seq<byte> -> seq<u32>, m: Message, d: Datagram, trailer: seq<byte>, rest: seq<byte>,
    ports: seq<byte>, checksum: seq<byte>, text: seq<byte>)
    requires ValidMessage(m) && HoldsUdp(p, d, trailer, rest, ports, checksum, EncodeMessage(m), text)
    ensures Processed(p, resolve).Some? <==>
              ports[2..] == [0, 53] && AsksAddress(m) && resolve(AskedName(m)) != []
    ensures Processed(p, resolve).Some? ==>
              var reply := EncodeMessage(AnswerMessage(m.id, AskedName(m), resolve(AskedName(m)), 300));
              && ParseUDP(p)
              && (ENVELOPE + |reply| < WORD ==> GetUDPPayload(Processed(p, resolve).value) == reply)
  {
    hide HoldsUdp, ParseUDP, GetUDPPayload, Question, Reply, Response, EncodeMessage, AskedName, Net16;
    hide UdpVerifies, IpVerifies, AllValid, ValidName;
    ParseUDPAcceptsDatagrams(p);
    assert ParseUDP(p) && GetUDPPayload(p) == EncodeMessage(m);
    QuestionOfMessage(m);
    PortAt(p, d, trailer, rest, ports, checksum, EncodeMessage(m), text);
    IdOf(m);
    if Processed(p, resolve).Some? {
      var name := AskedName(m);
      ResponseIsMessage(m.id, name, resolve(name), REPLY_TTL);
      var dns := Response(m.id, name, resolve(name), REPLY_TTL);
      if ENVELOPE + |dns| < WORD {
        ReplyIsFaithful(p, dns);
      }
    }
  }

  lemma {:induction false} IdOf(m: Message)
    requires ValidMessage(m)
    ensures |EncodeMessage(m)| >= DNS_HEADER && Net16(EncodeMessage(m), 0) == m.id
  {
    hide EncodeAllAsked, EncodeRecords, Net16, Bytes16;
    var p := EncodeMessage(m);
    assert p[0..2] == Bytes16(m.id);
    ReadBytes16(p, 0, m.id);
  }

  lemma {:induction false} PortAt(
    p: seq<byte>, d: Datagram, trailer: seq<byte>, rest: seq<byte>, ports: seq<byte>, checksum: seq<byte>,
    payload: seq<byte>, text: seq<byte>)
    requires HoldsUdp(p, d, trailer, rest, ports, checksum, payload, text)
    ensures ParseUDP(p) && |ports| == 4 && (Net16(p, UdpIndex(p) + 2) == DNS_PORT <==> ports[2..] == [0, 53])
  {
    hide Carries, ParseIPv4, IpHeaderLength;
    UdpIsAccepted(p, d, trailer, rest, ports, checksum, payload, text);
    CarriedAt(p, d, trailer, PROTOCOL_UDP, rest);
    var h := IpHeaderLength(p);
    assert p[h + 2] == rest[2] == ports[2] && p[h + 3] == rest[3] == ports[3];
    assert ports[2..] == [ports[2], ports[3]];
  }
}
