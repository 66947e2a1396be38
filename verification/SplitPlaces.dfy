/** Where a packet is split, told from the configuration, the payload and the host name in it. */
module SplitPlaces {
  import opened Words
  import opened InternetChecksum
  import opened Packet
  import opened Tls
  import opened BypassStrategy
  import opened StreamPreservation

  /** The packet becomes two segments, the first with the payload up to the cut and the second with the rest. */
  ghost predicate SplitsAt(res: seq<PacketToSend>, p: seq<byte>, cut: nat) {
    && ParseTCP(p) && cut <= |GetTCPPayload(p)|
    && |res| == 2
    && ParseTCP(res[0].data) && GetTCPPayload(res[0].data) == GetTCPPayload(p)[..cut]
    && ParseTCP(res[1].data) && GetTCPPayload(res[1].data) == GetTCPPayload(p)[cut..]
    && SequenceNumber(res[0].data) == SequenceNumber(p)
    && SequenceNumber(res[1].data) == U32(SequenceNumber(p) + cut)
  }

  /** A configured offset is where the payload is cut if it is inside, and otherwise there is no split. */
  lemma {:induction false} ConfiguredPlace(splitOffset: nat, splitDelay: nat, p: seq<byte>)
    requires ParseTCP(p) && splitOffset > 0
    ensures var res := ApplySplit(splitOffset, splitDelay, p);
      if splitOffset < |GetTCPPayload(p)| then SplitsAt(res, p, splitOffset) else res == []
  {
    hide ParseTCP, GetTCPPayload, SequenceNumber, SegmentOf, Intact, ApplySplit;
    SplitIsSegmentation(splitOffset, splitDelay, p);
    SegmentsParse(splitOffset, splitDelay, p);
  }

  /** Without a configured offset and without a host name any payload of two bytes or more is cut at its half. */
  lemma {:induction false} HalfPlace(splitDelay: nat, p: seq<byte>)
    requires ParseTCP(p) && FindSNI(GetTCPPayload(p)) == None
    ensures var res := ApplySplit(0, splitDelay, p);
      if |GetTCPPayload(p)| >= 2 then SplitsAt(res, p, |GetTCPPayload(p)| / 2) else res == []
  {
    hide ParseTCP, GetTCPPayload, SequenceNumber, SegmentOf, Intact, ApplySplit, FindSNI;
    SplitIsSegmentation(0, splitDelay, p);
    SegmentsParse(0, splitDelay, p);
  }

  /** Without a configured offset a payload with a host name of n bytes at o is cut n / 2 bytes into it. */
  lemma {:induction false} HostNamePlace(splitDelay: nat, p: seq<byte>, o: nat, n: nat)
    requires ParseTCP(p) && FindSNI(GetTCPPayload(p)) == Some((o, n))
    ensures o + n <= |GetTCPPayload(p)|
    ensures var res := ApplySplit(0, splitDelay, p);
      if o + n / 2 < |GetTCPPayload(p)| then SplitsAt(res, p, o + n / 2) else res == []
    ensures n > 0 ==> o + n / 2 < |GetTCPPayload(p)|
  {
    hide ParseTCP, GetTCPPayload, SequenceNumber, SegmentOf, Intact, ApplySplit, FindSNI;
    var found := FindSNI(GetTCPPayload(p)).value;
    assert HostNameAt(GetTCPPayload(p), found.0, found.1);
    SplitIsSegmentation(0, splitDelay, p);
    SegmentsParse(0, splitDelay, p);
  }

  lemma {:induction false} SegmentsParse(splitOffset: nat, splitDelay: nat, p: seq<byte>)
    requires ParseTCP(p)
    ensures forall i :: 0 <= i < |ApplySplit(splitOffset, splitDelay, p)| ==>
                          ParseTCP(ApplySplit(splitOffset, splitDelay, p)[i].data)
  {
    hide ParseTCP, GetTCPPayload, SequenceNumber, SegmentOf, Intact, ApplySplit;
    SplitIsSegmentation(splitOffset, splitDelay, p);
    var res := ApplySplit(splitOffset, splitDelay, p);
    if res != [] {
      SegmentParses(p, res[0].data);
      SegmentParses(p, res[1].data);
    }
  }

  /** The name is at o in the payload, and the cut between the segments is strictly inside it. */
  ghost predicate CutInName(res: seq<PacketToSend>, p: seq<byte>, o: nat, name: seq<byte>) {
    && o + |name| <= |GetTCPPayload(p)| && GetTCPPayload(p)[o..o + |name|] == name
    && SplitsAt(res, p, o + |name| / 2)
    && o < |GetTCPPayload(res[0].data)| == o + |name| / 2 < o + |name|
  }

  /**
   * From the hello of a browser to the wire: a packet whose payload is any serialized ClientHello with a host name of
   * two bytes or more, and no configured offset, is cut into two segments of which neither has the host name in it.
   */
  lemma {:induction false} HostNameIsCut(
    splitDelay: nat, p: seq<byte>, h: ClientHello, before: seq<Extension>, host: seq<byte>, others: seq<byte>,
    after: seq<Extension>)
    requires ParseTCP(p) && h.Valid() && GetTCPPayload(p) == Serialize(h) && |host| >= 2
    requires h.extensions == before + ([Extension(SERVER_NAME, ServerNameBody(host, others))] + after)
    requires forall i :: 0 <= i < |before| ==> before[i].kind != SERVER_NAME
    ensures var o := ExtensionsIndex(h) + 2 + |SerializeExtensions(before)| + 9;
      CutInName(ApplySplit(0, splitDelay, p), p, o, host)
  {
    hide ParseTCP, GetTCPPayload, SequenceNumber, ApplySplit, FindSNI, Serialize, ServerNameBody, ExtensionsIndex;
    hide SerializeExtensions;
    FindsTheHostName(h, before, host, others, after);
    var o := ExtensionsIndex(h) + 2 + |SerializeExtensions(before)| + 9;
    HostNamePlace(splitDelay, p, o, |host|);
  }
}
