/** When the question that a response repeats is byte for byte the one of the query. */
module QuestionEcho {
  import opened Words
  import opened InternetChecksum
  import opened Packet
  import opened DnsCodec

  /** The labels of the name at index pos as they are on the wire. */
  function WireLabels(p: seq<byte>, pos: nat): seq<seq<byte>>
    requires pos <= |p|
    decreases |p| - pos
  {
    if pos == |p| then []
    else
      var n: int := p[pos];
      if n == 0 || IsPointer(n) || pos + 1 + n > |p| then []
      else [p[pos + 1..pos + 1 + n]] + WireLabels(p, pos + 1 + n)
  }

  /** A name that ends before the message does is the encoding of its labels, and reads as these, joined with dots. */
  lemma {:induction false} NameOnWire(p: seq<byte>, pos: nat, domain: seq<byte>)
    requires pos <= |p| && ParseName(p, pos, domain).Some? && ParseName(p, pos, domain).value.1 < |p|
    ensures var r, labels := ParseName(p, pos, domain).value, WireLabels(p, pos);
      && r.0 == ExtendAll(domain, labels) && p[pos..r.1] == EncodeLabels(labels) + [0]
      && forall i :: 0 <= i < |labels| ==> GoodLabel(labels[i])
    decreases |p| - pos
  {
    hide IsPointer, Extend;
    var n: int := p[pos];
    PointerBits(p[pos]);
    if n == 0 {
      assert p[pos..pos + 1] == [0] == EncodeLabels([]) + [0];
    } else {
      var part, next := p[pos + 1..pos + 1 + n], pos + 1 + n;
      NameOnWire(p, next, Extend(domain, part));
      var r, more := ParseName(p, pos, domain).value, WireLabels(p, next);
      LabelThenRest(p, pos, r.1, part, EncodeLabels(more));
      assert EncodeLabels([part] + more) == [n % 0x100] + part + EncodeLabels(more);
    }
  }

  lemma {:induction false} LabelThenRest(p: seq<byte>, pos: nat, end: nat, part: seq<byte>, more: seq<byte>)
    requires pos + 1 + |part| <= end <= |p| && p[pos + 1..pos + 1 + |part|] == part
    requires p[pos + 1 + |part|..end] == more + [0]
    ensures p[pos..end] == [p[pos]] + part + more + [0]
  {
    assert p[pos..end] == [p[pos]] + p[pos + 1..pos + 1 + |part|] + p[pos + 1 + |part|..end];
  }

  lemma {:induction false} ExtendAllIsJoin(domain: seq<byte>, labels: seq<seq<byte>>)
    requires forall i :: 0 <= i < |labels| ==> labels[i] != []
    ensures domain != [] ==> ExtendAll(domain, labels) == if labels == [] then domain else domain + [DOT] + Join(labels)
    ensures domain == [] ==> ExtendAll(domain, labels) == Join(labels)
    decreases |labels|
  {
    if labels != [] {
      var next := Extend(domain, labels[0]);
      ExtendAllIsJoin(next, labels[1..]);
      if |labels| > 1 && domain != [] {
        assert next + [DOT] + Join(labels[1..]) == domain + [DOT] + (labels[0] + [DOT] + Join(labels[1..]));
      }
    }
  }

  predicate Plain(labels: seq<seq<byte>>) {
    forall i :: 0 <= i < |labels| ==> DOT !in labels[i]
  }

  lemma {:induction false} SamePrefix(a: seq<byte>, b: seq<byte>, c: seq<byte>)
    requires a + b == a + c
    ensures b == c
  {
    assert b == (a + b)[|a|..] && c == (a + c)[|a|..];
  }

  /** A dot within a label makes two labels, whose encoding differs. */
  lemma {:induction false} DottedDiffers(labels: seq<seq<byte>>, tail: seq<byte>, other: seq<byte>)
    requires (forall i :: 0 <= i < |labels| ==> GoodLabel(labels[i])) && !Plain(labels)
    ensures EncodeLabels(Labels(Join(labels))) + tail != EncodeLabels(labels) + other
    decreases |labels|
  {
    hide FirstDot, Labels;
    var first, more := labels[0], labels[1..];
    if DOT in first {
      DottedFirst(labels, tail, other);
    } else {
      assert !Plain(more) by {
        var i :| 0 <= i < |labels| && DOT in labels[i];
        assert more[i - 1] == labels[i];
      }
      DottedDiffers(more, tail, other);
      LabelsOfFirst(first, Join(more));
      var head, x, y := [|first| % 0x100] + first, EncodeLabels(Labels(Join(more))), EncodeLabels(more);
      assert Labels(Join(labels)) == [first] + Labels(Join(more));
      Associative(head, x, tail);
      Associative(head, y, other);
      if head + (x + tail) == head + (y + other) {
        SamePrefix(head, x + tail, y + other);
      }
    }
  }

  lemma {:induction false} DottedFirst(labels: seq<seq<byte>>, tail: seq<byte>, other: seq<byte>)
    requires labels != [] && GoodLabel(labels[0]) && DOT in labels[0]
    ensures EncodeLabels(Labels(Join(labels))) + tail != EncodeLabels(labels) + other
  {
    hide FirstDot;
    var first, name := labels[0], Join(labels);
    var k := FirstDot(first);
    assert name[..|first|] == first;
    FirstDotIs(name, k);
    assert (EncodeLabels(Labels(name)) + tail)[0] == k;
    assert (EncodeLabels(labels) + other)[0] == |first|;
  }

  /** The bytes of the first question: name, type and class. */
  function QuestionSection(p: seq<byte>): (q: seq<byte>) {
    if |p| < DNS_HEADER then []
    else
      match ParseName(p, DNS_HEADER, [])
      case None => []
      case Some(r) => if r.1 + 4 > |p| then [] else p[DNS_HEADER..r.1 + 4]
  }

  /** A query of class IN none of whose labels has a dot in it. */
  predicate PlainQuery(p: seq<byte>)
    requires |p| >= DNS_HEADER
  {
    && Plain(WireLabels(p, DNS_HEADER))
    && var q := QuestionSection(p); |q| >= 4 && q[|q| - 2..] == [0, 1]
  }

  /** The labels of a query and, behind them, type and class. */
  lemma {:induction false} SectionOnWire(p: seq<byte>, name: seq<byte>) returns (tail: seq<byte>)
    requires Question(p) == Some(name)
    ensures |p| >= DNS_HEADER && |tail| == 4 && tail[..2] == [0, 1]
    ensures var labels := WireLabels(p, DNS_HEADER);
      && QuestionSection(p) == EncodeLabels(labels) + ([0] + tail) && name == ExtendAll([], labels)
      && forall i :: 0 <= i < |labels| ==> GoodLabel(labels[i])
  {
    hide ParseName, WireLabels, EncodeLabels, ExtendAll;
    var end := ParseName(p, DNS_HEADER, []).value.1;
    NameOnWire(p, DNS_HEADER, []);
    tail := p[end..end + 4];
    assert p[DNS_HEADER..end + 4] == p[DNS_HEADER..end] + tail;
    assert Net16(p, end) == 1;
  }

  /** The question encoded from a name that was read is the one on the wire exactly for plain queries. */
  lemma {:induction false} EchoExactly(p: seq<byte>, name: seq<byte>)
    requires Question(p) == Some(name)
    ensures |p| >= DNS_HEADER
    ensures EncodedQuestion(name) == QuestionSection(p) <==> PlainQuery(p)
  {
    hide ParseName, WireLabels, EncodeLabels, Labels, ExtendAll, Join, Plain, Question, QuestionSection;
    var tail := SectionOnWire(p, name);
    var labels := WireLabels(p, DNS_HEADER);
    ExtendAllIsJoin([], labels);
    EncodedParts(name);
    SameTails(EncodeLabels(labels), tail);
    if Plain(labels) {
      PlainLabels(labels);
    } else {
      DottedDiffers(labels, [0] + ([0, 1] + [0, 1]), [0] + tail);
    }
  }

  lemma {:induction false} EncodedParts(name: seq<byte>)
    ensures EncodedQuestion(name) == EncodeLabels(Labels(name)) + ([0] + ([0, 1] + [0, 1]))
  {
    hide EncodeLabels, Labels;
  }

  lemma {:induction false} SameTails(head: seq<byte>, tail: seq<byte>)
    requires |tail| == 4 && tail[..2] == [0, 1]
    ensures var q := head + ([0] + tail); q[|q| - 2..] == tail[2..]
    ensures head + ([0] + ([0, 1] + [0, 1])) == head + ([0] + tail) <==> tail[2..] == [0, 1]
  {
    assert tail == [0, 1] + tail[2..];
    if head + ([0] + ([0, 1] + [0, 1])) == head + ([0] + tail) {
      SamePrefix(head, [0] + ([0, 1] + [0, 1]), [0] + tail);
      SamePrefix([0], [0, 1] + [0, 1], tail);
    }
  }

  lemma {:induction false} PlainLabels(labels: seq<seq<byte>>)
    requires Plain(labels) && forall i :: 0 <= i < |labels| ==> GoodLabel(labels[i])
    ensures Labels(Join(labels)) == labels
  {
    hide Labels, Join;
    LabelsOfJoin(labels);
  }

  /** The question section of a response is the encoded question. */
  lemma {:induction false} ResponseSection(txId: nat, name: seq<byte>, ips: seq<u32>, ttl: u32)
    requires txId < WORD && GoodName(name)
    ensures QuestionSection(Response(txId, name, ips, ttl)) == EncodedQuestion(name)
  {
    hide ParseName, EncodeLabels, Labels, EncodeAnswers, Resolved, Question, ResponseHeader;
    ResponseRoundTrip(txId, name, ips, ttl);
    var p, q := Response(txId, name, ips, ttl), EncodedQuestion(name);
    assert p[DNS_HEADER..DNS_HEADER + |q|] == q;
  }
}
