/** Building and reading DNS messages: sections 4.1.1 to 4.1.3 of RFC 1035. */
module DnsCodec {
  import opened Words
  import opened InternetChecksum
  import opened Packet

  const DOT: byte := 0x2E
  const DNS_HEADER: nat := 12
  const MAX_TTL: nat := 300

  type u32 = x: int | 0 <= x < 0x1_0000_0000

  /** The two high bits mark a compression pointer. */
  predicate IsPointer(b: byte) {
    BitAnd(b, 0xC0) == 0xC0
  }

  lemma {:induction false} PointerBits(b: byte)
    ensures IsPointer(b) <==> b >= 0xC0
  {
    assert Pow2(6) == 64 && Pow2(8) == 256 by {
      Pow2Step(0, 1);
      assert Pow2(5) == 32;
      Pow2Step(4, 16);
    }
    HighMaskRoundsDown(b, 8, 6);
  }

  // ---- Names ----

  function FirstDot(s: seq<byte>): (k: nat)
    ensures k <= |s| && (forall i :: 0 <= i < k ==> s[i] != DOT) && (k < |s| ==> s[k] == DOT)
  {
    if s == [] || s[0] == DOT then 0
    else
      var k := 1 + FirstDot(s[1..]);
      assert forall i :: 1 <= i < k ==> s[i] == s[1..][i - 1];
      k
  }

  /** The labels of a name as reading lines up to each dot yields them: nothing follows a dot at the end. */
  function Labels(name: seq<byte>): seq<seq<byte>>
    decreases |name|
  {
    if name == [] then []
    else
      var k := FirstDot(name);
      if k == |name| then [name] else [name[..k]] + Labels(name[k + 1..])
  }

  function EncodeLabels(labels: seq<seq<byte>>): seq<byte>
    decreases |labels|
  {
    if labels == [] then [] else [|labels[0]| % 0x100] + labels[0] + EncodeLabels(labels[1..])
  }

  /** A length byte below the pointer range; the protocol itself allows 63. */
  predicate GoodLabel(part: seq<byte>) {
    1 <= |part| < 0xC0
  }

  predicate GoodName(name: seq<byte>) {
    && (forall i :: 0 <= i < |Labels(name)| ==> GoodLabel(Labels(name)[i]))
    && (name != [] ==> name[|name| - 1] != DOT)
  }

  function Join(labels: seq<seq<byte>>): seq<byte>
    decreases |labels|
  {
    if labels == [] then []
    else if |labels| == 1 then labels[0]
    else labels[0] + [DOT] + Join(labels[1..])
  }

  lemma {:induction false} FirstDotIs(s: seq<byte>, k: nat)
    requires k <= |s| && (forall i :: 0 <= i < k ==> s[i] != DOT) && (k < |s| ==> s[k] == DOT)
    ensures FirstDot(s) == k
  {
  }

  lemma {:induction false} LabelsOfFirst(first: seq<byte>, rest: seq<byte>)
    requires first != [] && DOT !in first
    ensures Labels(first) == [first]
    ensures Labels(first + [DOT] + rest) == [first] + Labels(rest)
  {
    hide FirstDot;
    assert forall i :: 0 <= i < |first| ==> first[i] in first;
    FirstDotIs(first, |first|);
    var name := first + [DOT] + rest;
    FirstDotIs(name, |first|);
    assert name[|first| + 1..] == rest && name[..|first|] == first;
  }

  lemma {:induction false} LabelsOfJoin(labels: seq<seq<byte>>)
    requires forall i :: 0 <= i < |labels| ==> labels[i] != [] && DOT !in labels[i]
    ensures Labels(Join(labels)) == labels
    ensures labels != [] ==> Join(labels) != [] && Join(labels)[|Join(labels)| - 1] != DOT
    decreases |labels|
  {
    hide Labels;
    if labels == [] {
      NoLabels();
    } else {
      var first := labels[0];
      LabelsOfFirst(first, Join(labels[1..]));
      if |labels| == 1 {
        assert labels == [first];
        assert first[|first| - 1] in first;
      } else {
        LabelsOfJoin(labels[1..]);
        assert labels == [first] + labels[1..];
      }
    }
  }

  lemma {:induction false} NoLabels()
    ensures Labels([]) == [] && EncodeLabels([]) == []
  {
  }

  /** Any list of non-empty dot-free labels below the pointer range makes a good name. */
  lemma {:induction false} JoinIsGood(labels: seq<seq<byte>>)
    requires forall i :: 0 <= i < |labels| ==> GoodLabel(labels[i]) && DOT !in labels[i]
    ensures GoodName(Join(labels))
  {
    hide Labels, Join;
    LabelsOfJoin(labels);
    EmptyJoin();
  }

  lemma {:induction false} EmptyJoin()
    ensures Join([]) == []
  {
  }

  /** The label loop of the encoders. */
  method AppendName(buf: seq<byte>, name: seq<byte>) returns (r: seq<byte>)
    ensures r == buf + (EncodeLabels(Labels(name)) + [0])
  {
    hide FirstDot, Labels, EncodeLabels;
    r := buf;
    var pos := 0;
    assert name[0..] == name;
    while pos < |name|
      invariant 0 <= pos <= |name|
      invariant r + EncodeLabels(Labels(name[pos..])) == buf + EncodeLabels(Labels(name))
      decreases |name| - pos
    {
      var end := LineEnd(name, pos);
      var part := name[pos..end];
      NextLabel(name, pos, end);
      ghost var before := r;
      r := r + [|part| % 0x100];
      r := r + part;
      pos := if end < |name| then end + 1 else end;
      assert r == before + ([|part| % 0x100] + part);
      Associative(before, [|part| % 0x100] + part, EncodeLabels(Labels(name[pos..])));
    }
    NoLabels();
    assert name[pos..] == [];
    assert r == buf + EncodeLabels(Labels(name));
    r := r + [0];
  }

  lemma {:induction false} Associative(a: seq<byte>, b: seq<byte>, c: seq<byte>)
    ensures a + b + c == a + (b + c)
  {
  }

  method LineEnd(name: seq<byte>, pos: nat) returns (end: nat)
    requires pos <= |name|
    ensures pos <= end <= |name| && end - pos == FirstDot(name[pos..])
  {
    hide FirstDot;
    end := pos;
    while end < |name| && name[end] != DOT
      invariant pos <= end <= |name|
      invariant forall i :: pos <= i < end ==> name[i] != DOT
    {
      end := end + 1;
    }
    FirstDotIs(name[pos..], end - pos);
  }

  lemma {:induction false} NextLabel(name: seq<byte>, pos: nat, end: nat)
    requires pos < |name| && pos <= end <= |name| && end - pos == FirstDot(name[pos..])
    ensures var part, next := name[pos..end], if end < |name| then end + 1 else end;
      EncodeLabels(Labels(name[pos..])) == [|part| % 0x100] + part + EncodeLabels(Labels(name[next..]))
  {
    hide FirstDot;
    var s, part := name[pos..], name[pos..end];
    if end < |name| {
      assert s[..end - pos] == part && s[end - pos + 1..] == name[end + 1..];
    } else {
      assert s == part && name[end..] == [];
      assert Labels(s) == [s] && Labels(s)[1..] == Labels(name[end..]);
    }
  }

  // ---- Reading a question ----

  function Extend(domain: seq<byte>, part: seq<byte>): seq<byte> {
    (if domain == [] then [] else domain + [DOT]) + part
  }

  /** The name at index pos, appended to domain, and the index after it. */
  function ParseName(p: seq<byte>, pos: nat, domain: seq<byte>): (r: Option<(seq<byte>, nat)>)
    requires pos <= |p|
    ensures r.Some? ==> pos <= r.value.1 <= |p|
    decreases |p| - pos
  {
    if pos == |p| then Some((domain, pos))
    else
      var n: int := p[pos];
      if n == 0 then Some((domain, pos + 1))
      else if IsPointer(n) then None
      else if pos + 1 + n > |p| then None
      else ParseName(p, pos + 1 + n, Extend(domain, p[pos + 1..pos + 1 + n]))
  }

  predicate IsQuery(p: seq<byte>)
    requires |p| >= DNS_HEADER
  {
    Net16(p, 2) < 0x8000 && Net16(p, 4) != 0
  }

  /** The name an IPv4 address query asks for. */
  function Question(p: seq<byte>): (name: Option<seq<byte>>) {
    if |p| < DNS_HEADER || !IsQuery(p) then None
    else
      match ParseName(p, DNS_HEADER, [])
      case None => None
      case Some(r) => if r.1 + 4 > |p| || Net16(p, r.1) != 1 then None else Some(r.0)
  }

  method ParseDnsQuestion(p: seq<byte>) returns (name: Option<seq<byte>>, txId: nat)
    ensures name == Question(p)
    ensures |p| >= DNS_HEADER ==> txId == Net16(p, 0)
  {
    hide IsPointer, Net16;
    txId := 0;
    if |p| < 12 {
      return None, txId;
    }
    txId := Net16(p, 0);
    var flags := Net16(p, 2);
    var qdcount := Net16(p, 4);
    if flags >= 0x8000 || qdcount == 0 {
      return None, txId;
    }
    var domain: seq<byte> := [];
    var pos := 12;
    while pos < |p|
      invariant 12 <= pos <= |p|
      invariant ParseName(p, 12, []) == ParseName(p, pos, domain)
      decreases |p| - pos
    {
      var n: int := p[pos];
      if n == 0 {
        pos := pos + 1;
        break;
      }
      if IsPointer(n) {
        return None, txId;
      }
      if pos + 1 + n > |p| {
        return None, txId;
      }
      if domain != [] {
        domain := domain + [DOT];
      }
      domain := domain + p[pos + 1..pos + 1 + n];
      pos := pos + 1 + n;
    }
    assert ParseName(p, 12, []) == Some((domain, pos));
    if pos + 4 > |p| {
      return None, txId;
    }
    var qtype := Net16(p, pos);
    if qtype != 1 {
      return None, txId;
    }
    name := Some(domain);
  }

  // ---- A query and its reading ----

  function EncodedQuestion(name: seq<byte>): seq<byte> {
    EncodeLabels(Labels(name)) + [0] + ([0, 1] + [0, 1])
  }

  const QUERY_ID: nat := 0x1234
  const QUERY_HEADER: seq<byte> := [0x12, 0x34, 0x01, 0x00, 0x00, 0x01, 0x00, 0x00, 0x00, 0x00, 0x00, 0x00]

  method BuildQuery(hostname: seq<byte>) returns (query: seq<byte>)
    ensures query == QUERY_HEADER + EncodedQuestion(hostname)
  {
    hide EncodeLabels, Labels;
    query := [0x12, 0x34];
    query := query + [0x01, 0x00];
    query := query + [0x00, 0x01];
    query := query + [0x00, 0x00] + [0x00, 0x00] + [0x00, 0x00];
    query := AppendName(query, hostname);
    query := query + [0x00, 0x01];
    query := query + [0x00, 0x01];
  }

  function ExtendAll(domain: seq<byte>, labels: seq<seq<byte>>): seq<byte>
    decreases |labels|
  {
    if labels == [] then domain else ExtendAll(Extend(domain, labels[0]), labels[1..])
  }

  lemma {:induction false} ReadLabel(p: seq<byte>, pos: nat, part: seq<byte>, rest: seq<byte>)
    requires GoodLabel(part) && At(p, pos, [|part| % 0x100] + part + rest)
    ensures p[pos] as int == |part| && !IsPointer(p[pos]) && pos + 1 + |part| + |rest| <= |p|
    ensures p[pos + 1..pos + 1 + |part|] == part && At(p, pos + 1 + |part|, rest)
  {
    hide IsPointer;
    AtSplit(p, pos, [|part| % 0x100] + part, rest);
    AtSplit(p, pos, [|part| % 0x100], part);
    assert p[pos..pos + 1][0] == p[pos];
    PointerBits(p[pos]);
  }

  lemma {:induction false} ReadEnd(p: seq<byte>, pos: nat, rest: seq<byte>)
    requires At(p, pos, [0] + rest)
    ensures p[pos] == 0 && At(p, pos + 1, rest) && pos + 1 + |rest| <= |p|
  {
    AtSplit(p, pos, [0], rest);
    assert p[pos..pos + 1][0] == p[pos];
  }

  lemma {:induction false} ParseEncoded(p: seq<byte>, pos: nat, domain: seq<byte>, labels: seq<seq<byte>>,
      rest: seq<byte>)
    requires At(p, pos, EncodeLabels(labels) + ([0] + rest))
    requires forall i :: 0 <= i < |labels| ==> GoodLabel(labels[i])
    ensures pos + |EncodeLabels(labels)| + 1 + |rest| <= |p| && At(p, pos + |EncodeLabels(labels)| + 1, rest)
    ensures ParseName(p, pos, domain) == Some((ExtendAll(domain, labels), pos + |EncodeLabels(labels)| + 1))
    decreases |labels|
  {
    hide At, IsPointer, Extend;
    if labels == [] {
      assert EncodeLabels(labels) + ([0] + rest) == [0] + rest;
      ReadEnd(p, pos, rest);
    } else {
      var part, more := labels[0], labels[1..];
      assert EncodeLabels(labels) + ([0] + rest) == [|part| % 0x100] + part + (EncodeLabels(more) + ([0] + rest));
      ReadLabel(p, pos, part, EncodeLabels(more) + ([0] + rest));
      ParseEncoded(p, pos + 1 + |part|, Extend(domain, part), more, rest);
    }
  }

  /** Joining the labels read gives back the name they came from. */
  lemma {:induction false} ExtendGivesName(domain: seq<byte>, name: seq<byte>)
    requires GoodName(name)
    ensures ExtendAll(domain, Labels(name)) == if name == [] then domain else Extend(domain, name)
    decreases |name|
  {
    hide FirstDot;
    if name != [] {
      var k := FirstDot(name);
      if k == |name| {
        assert ExtendAll(domain, Labels(name)) == ExtendAll(Extend(domain, name), []);
      } else {
        var rest := name[k + 1..];
        assert Labels(name) == [name[..k]] + Labels(rest);
        GoodRest(name, k);
        ExtendGivesName(Extend(domain, name[..k]), rest);
        ExtendTwice(domain, name, k);
      }
    }
  }

  lemma {:induction false} GoodRest(name: seq<byte>, k: nat)
    requires GoodName(name) && k == FirstDot(name) < |name|
    ensures k > 0 && name[k + 1..] != [] && GoodName(name[k + 1..])
  {
    hide FirstDot;
    var rest := name[k + 1..];
    var l := Labels(name);
    assert l == [name[..k]] + Labels(rest);
    assert GoodLabel(l[0]);
    assert forall i :: 0 <= i < |Labels(rest)| ==> Labels(rest)[i] == l[i + 1];
  }

  lemma {:induction false} ExtendTwice(domain: seq<byte>, name: seq<byte>, k: nat)
    requires 0 < k < |name| && name[k] == DOT
    ensures Extend(Extend(domain, name[..k]), name[k + 1..]) == Extend(domain, name)
  {
    assert name == name[..k] + [DOT] + name[k + 1..];
  }

  lemma {:induction false} QuestionParses(p: seq<byte>, name: seq<byte>, rest: seq<byte>)
    requires GoodName(name) && |p| >= DNS_HEADER && At(p, DNS_HEADER, EncodedQuestion(name) + rest)
    ensures var next := DNS_HEADER + |EncodeLabels(Labels(name))| + 1;
      && ParseName(p, DNS_HEADER, []) == Some((name, next))
      && next + 4 + |rest| <= |p| && Net16(p, next) == 1 && At(p, next + 4, rest)
  {
    hide At, Labels, EncodeLabels, ParseName, ExtendAll;
    var labels := Labels(name);
    assert EncodedQuestion(name) + rest == EncodeLabels(labels) + ([0] + (([0, 1] + [0, 1]) + rest));
    ParseEncoded(p, DNS_HEADER, [], labels, ([0, 1] + [0, 1]) + rest);
    ExtendGivesName([], name);
    assert [] + name == name;
    var next := DNS_HEADER + |EncodeLabels(labels)| + 1;
    AtSplit(p, next, [0, 1] + [0, 1], rest);
    AtSplit(p, next, [0, 1], [0, 1]);
    assert Bytes16(1) == [0, 1];
    ReadBytes16(p, next, 1);
  }

  lemma {:induction false} GoodQueryParses(name: seq<byte>)
    requires GoodName(name)
    ensures var query := QUERY_HEADER + EncodedQuestion(name);
      Question(query) == Some(name) && Net16(query, 0) == QUERY_ID
  {
    hide Labels, EncodeLabels, ParseName, GoodName;
    var query := QUERY_HEADER + EncodedQuestion(name);
    assert query[DNS_HEADER..] == EncodedQuestion(name) + [];
    QuestionParses(query, name, []);
    QueryFields(name);
  }

  lemma {:induction false} QueryFields(name: seq<byte>)
    ensures var query := QUERY_HEADER + EncodedQuestion(name); Net16(query, 0) == QUERY_ID && IsQuery(query)
  {
    hide Labels, EncodeLabels;
    var query := QUERY_HEADER + EncodedQuestion(name);
    assert query[0] == 0x12 && query[1] == 0x34 && query[2] == 1 && query[3] == 0 && query[4] == 0 && query[5] == 1;
  }

  // ---- Names that do not come back ----

  /** What is read after a non-empty domain is that domain, alone or with a dot behind it. */
  predicate Continues(name: seq<byte>, domain: seq<byte>) {
    domain <= name && (|name| > |domain| ==> name[|domain|] == DOT)
  }

  lemma {:induction false} ParseContinues(p: seq<byte>, pos: nat, domain: seq<byte>)
    requires pos <= |p| && domain != []
    ensures ParseName(p, pos, domain).Some? ==> Continues(ParseName(p, pos, domain).value.0, domain)
    decreases |p| - pos
  {
    hide IsPointer;
    if pos < |p| {
      var n: int := p[pos];
      if n != 0 && !IsPointer(n) && pos + 1 + n <= |p| {
        var next := Extend(domain, p[pos + 1..pos + 1 + n]);
        ParseContinues(p, pos + 1 + n, next);
        assert next[..|domain|] == domain && next[|domain|] == DOT;
      }
    }
  }

  /** Reading the encoding of a name that is not good does not give that name back. */
  lemma {:induction false} BadNameIsLost(p: seq<byte>, pos: nat, domain: seq<byte>, name: seq<byte>, rest: seq<byte>)
    requires !GoodName(name) && At(p, pos, EncodeLabels(Labels(name)) + ([0] + rest))
    ensures ParseName(p, pos, domain).Some? ==> ParseName(p, pos, domain).value.0 != Extend(domain, name)
    decreases |name|
  {
    hide FirstDot, At, Extend, GoodName, EncodeLabels, ParseName, Labels;
    assert name != [] by { EmptyIsGood(); }
    var k := FirstDot(name);
    var part, later := name[..k], if k < |name| then name[k + 1..] else [];
    var tail := EncodeLabels(Labels(later)) + ([0] + rest);
    FirstLabel(name, rest);
    AtFirst(p, pos, part, tail);
    if k == 0 || |part| % 0x100 == 0 {
      StopsHere(p, pos, domain);
      ExtendIsLonger(domain, name);
    } else if |part| >= 0x100 {
      CutLabelIsLost(p, pos, domain, name, k, tail);
    } else if |part| < 0xC0 {
      ReadLabel(p, pos, part, tail);
      ParseStep(p, pos, domain, part);
      if k < |name| {
        if later == [] {
          TrailingDotIsLost(p, pos, domain, name, k, rest);
        } else {
          GoodFromLater(name, k);
          BadNameIsLost(p, pos + 1 + |part|, Extend(domain, part), later, rest);
          ExtendTwice(domain, name, k);
        }
      } else {
        OneLabelIsGood(name);
      }
    } else {
      PointerIsRefused(p, pos, domain);
    }
  }

  lemma {:induction false} EmptyIsGood()
    ensures GoodName([])
  {
  }

  lemma {:induction false} OneLabelIsGood(name: seq<byte>)
    requires FirstDot(name) == |name| && GoodLabel(name)
    ensures GoodName(name)
  {
    hide FirstDot;
    assert Labels(name) == [name];
  }

  lemma {:induction false} FirstLabel(name: seq<byte>, rest: seq<byte>)
    requires name != []
    ensures var k := FirstDot(name);
      var part, later := name[..k], if k < |name| then name[k + 1..] else [];
      EncodeLabels(Labels(name)) + ([0] + rest)
          == [|part| % 0x100] + part + (EncodeLabels(Labels(later)) + ([0] + rest))
  {
    hide FirstDot;
    var k := FirstDot(name);
    var part, later := name[..k], if k < |name| then name[k + 1..] else [];
    var l := Labels(name);
    assert l[0] == part && l[1..] == Labels(later);
  }

  lemma {:induction false} AtFirst(p: seq<byte>, pos: nat, part: seq<byte>, tail: seq<byte>)
    requires At(p, pos, [|part| % 0x100] + part + tail)
    ensures pos + 1 + |part| <= |p| && p[pos] as int == |part| % 0x100 && p[pos + 1..pos + 1 + |part|] == part
  {
    AtSplit(p, pos, [|part| % 0x100] + part, tail);
    AtSplit(p, pos, [|part| % 0x100], part);
    assert p[pos..pos + 1][0] == p[pos];
  }

  lemma {:induction false} StopsHere(p: seq<byte>, pos: nat, domain: seq<byte>)
    requires pos < |p| && p[pos] == 0
    ensures ParseName(p, pos, domain) == Some((domain, pos + 1))
  {
  }

  lemma {:induction false} PointerIsRefused(p: seq<byte>, pos: nat, domain: seq<byte>)
    requires pos < |p| && p[pos] >= 0xC0
    ensures ParseName(p, pos, domain) == None
  {
    hide IsPointer;
    PointerBits(p[pos]);
  }

  lemma {:induction false} ParseStep(p: seq<byte>, pos: nat, domain: seq<byte>, part: seq<byte>)
    requires GoodLabel(part) && pos + 1 + |part| <= |p| && p[pos] as int == |part|
    requires p[pos + 1..pos + 1 + |part|] == part
    ensures ParseName(p, pos, domain) == ParseName(p, pos + 1 + |part|, Extend(domain, part))
  {
    hide IsPointer, Extend;
    PointerBits(p[pos]);
  }

  lemma {:induction false} ExtendIsLonger(domain: seq<byte>, name: seq<byte>)
    requires name != []
    ensures |Extend(domain, name)| > |domain|
  {
  }

  /** A label of 256 bytes or more: only the first bytes are read, and no dot follows them in the name. */
  lemma {:induction false} CutLabelIsLost(p: seq<byte>, pos: nat, domain: seq<byte>, name: seq<byte>, k: nat,
      tail: seq<byte>)
    requires k == FirstDot(name) && k >= 0x100 && k % 0x100 != 0
    requires pos + 1 + k <= |p| && p[pos] as int == k % 0x100 && p[pos + 1..pos + 1 + k] == name[..k]
    ensures ParseName(p, pos, domain).Some? ==> ParseName(p, pos, domain).value.0 != Extend(domain, name)
  {
    hide IsPointer, FirstDot;
    var n := k % 0x100;
    if !IsPointer(n) {
      assert p[pos + 1..pos + 1 + n] == p[pos + 1..pos + 1 + k][..n] == name[..n];
      var next := Extend(domain, name[..n]);
      ParseContinues(p, pos + 1 + n, next);
      var whole := Extend(domain, name);
      assert |whole| > |next| && whole[|next|] == name[n] != DOT;
    }
  }

  /** A dot at the end is not encoded. */
  lemma {:induction false} TrailingDotIsLost(p: seq<byte>, pos: nat, domain: seq<byte>, name: seq<byte>, k: nat,
      rest: seq<byte>)
    requires k == |name| - 1 && At(p, pos, [k % 0x100] + name[..k] + (EncodeLabels(Labels([])) + ([0] + rest)))
    requires ParseName(p, pos, domain) == ParseName(p, pos + 1 + k, Extend(domain, name[..k]))
    ensures ParseName(p, pos, domain).Some? ==> ParseName(p, pos, domain).value.0 != Extend(domain, name)
  {
    hide At, ParseName;
    NoLabels();
    var none := EncodeLabels(Labels([]));
    AtSplit(p, pos, [k % 0x100] + name[..k], none + ([0] + rest));
    assert none + ([0] + rest) == [0] + rest;
    ReadEnd(p, pos + 1 + k, rest);
    StopsHere(p, pos + 1 + k, Extend(domain, name[..k]));
  }

  lemma {:induction false} GoodFromLater(name: seq<byte>, k: nat)
    requires k == FirstDot(name) && k + 1 < |name| && GoodLabel(name[..k])
    ensures GoodName(name[k + 1..]) ==> GoodName(name)
  {
    hide FirstDot;
    var l, later := Labels(name), name[k + 1..];
    assert l == [name[..k]] + Labels(later);
    if GoodName(later) {
      forall i | 0 <= i < |l|
        ensures GoodLabel(l[i])
      {
        assert i > 0 ==> l[i] == Labels(later)[i - 1];
      }
    }
  }

  /**
   * The query built for a name parses back to that name, under the fixed id, if and only if each label has 1 to 191
   * bytes and the name does not end with a dot.
   */
  lemma {:induction false} QueryRoundTrip(name: seq<byte>)
    ensures var query := QUERY_HEADER + EncodedQuestion(name);
      (Question(query) == Some(name) <==> GoodName(name)) && Net16(query, 0) == QUERY_ID
  {
    hide Labels, EncodeLabels, ParseName, GoodName, IsQuery;
    QueryFields(name);
    if GoodName(name) {
      GoodQueryParses(name);
    } else {
      var query := QUERY_HEADER + EncodedQuestion(name);
      assert EncodedQuestion(name) == EncodeLabels(Labels(name)) + ([0] + ([0, 1] + [0, 1]));
      AtEnd(QUERY_HEADER, EncodedQuestion(name));
      BadNameIsLost(query, DNS_HEADER, [], name, [0, 1] + [0, 1]);
      assert Extend([], name) == name;
    }
  }

  // ---- A response ----

  function Bytes32(n: nat): (b: seq<byte>)
    ensures |b| == 4
  {
    Bytes16(n / WORD) + Bytes16(n % WORD)
  }

  const RECORD: nat := 16

  /** An address record whose owner is a pointer to the question's name. */
  function EncodeAnswer(ip: u32, ttl: u32): (b: seq<byte>)
    ensures |b| == RECORD
  {
    [0xC0, 0x0C] + ([0, 1] + [0, 1] + Bytes32(ttl) + [0, 4] + Bytes32(ip))
  }

  function EncodeAnswers(ips: seq<u32>, ttl: u32): (b: seq<byte>)
    ensures |b| == RECORD * |ips|
    decreases |ips|
  {
    if ips == [] then [] else EncodeAnswer(ips[0], ttl) + EncodeAnswers(ips[1..], ttl)
  }

  function ResponseHeader(txId: nat, count: nat): (b: seq<byte>)
    ensures |b| == DNS_HEADER
  {
    Bytes16(txId) + [0x81, 0x80] + [0, 1] + Bytes16(count) + [0, 0] + [0, 0]
  }

  function Response(txId: nat, name: seq<byte>, ips: seq<u32>, ttl: u32): (p: seq<byte>)
    ensures |p| >= DNS_HEADER
  {
    ResponseHeader(txId, |ips|) + EncodedQuestion(name) + EncodeAnswers(ips, ttl)
  }

  method BuildDnsResponse(txId: nat, name: seq<byte>, ips: seq<u32>, ttl: u32) returns (buf: seq<byte>)
    ensures buf == Response(txId, name, ips, ttl)
  {
    hide EncodeLabels, Labels, Bytes16, EncodeAnswer;
    buf := Bytes16(txId);
    buf := buf + [0x81, 0x80];
    buf := buf + [0x00, 0x01];
    buf := buf + Bytes16(|ips|);
    buf := buf + [0x00, 0x00] + [0x00, 0x00];
    assert buf == ResponseHeader(txId, |ips|);
    buf := AppendName(buf, name);
    buf := buf + [0x00, 0x01];
    buf := buf + [0x00, 0x01];
    assert buf == ResponseHeader(txId, |ips|) + EncodedQuestion(name);
    buf := AppendAnswers(buf, ips, ttl);
  }

  method AppendAnswers(buf: seq<byte>, ips: seq<u32>, ttl: u32) returns (r: seq<byte>)
    ensures r == buf + EncodeAnswers(ips, ttl)
  {
    hide EncodeAnswer;
    r := buf;
    var i := 0;
    assert ips[0..] == ips;
    while i < |ips|
      invariant 0 <= i <= |ips|
      invariant r + EncodeAnswers(ips[i..], ttl) == buf + EncodeAnswers(ips, ttl)
    {
      assert ips[i..][1..] == ips[i + 1..];
      Associative(r, EncodeAnswer(ips[i], ttl), EncodeAnswers(ips[i + 1..], ttl));
      r := r + EncodeAnswer(ips[i], ttl);
      i := i + 1;
    }
  }

  // ---- Reading a response ----

  /** Index after a name in the question section. */
  function SkipName(p: seq<byte>, pos: nat): (q: nat)
    ensures pos <= q
    decreases if pos < |p| then |p| - pos else 0
  {
    if pos >= |p| then pos
    else
      var n: int := p[pos];
      if n == 0 then pos + 1 else if IsPointer(n) then pos + 2 else SkipName(p, pos + 1 + n)
  }

  function SkipQuestions(p: seq<byte>, pos: nat, count: nat): nat
    decreases count
  {
    if count == 0 then pos else SkipQuestions(p, SkipName(p, pos) + 4, count - 1)
  }

  /** Index after labels, taking a length byte of any value for a length. */
  function SkipLabels(p: seq<byte>, pos: nat): (q: nat)
    ensures pos <= q
    decreases if pos < |p| then |p| - pos else 0
  {
    if pos >= |p| then pos
    else
      var n: int := p[pos];
      if n == 0 then pos + 1 else SkipLabels(p, pos + 1 + n)
  }

  /** Index after the owner of a record. */
  function SkipOwner(p: seq<byte>, pos: nat): (q: nat)
    requires pos < |p|
    ensures pos <= q
  {
    if IsPointer(p[pos]) then pos + 2 else SkipLabels(p, pos)
  }

  /** Addresses found, and the smallest time to live. */
  datatype Found = Found(ips: seq<u32>, minTtl: nat)

  function AddRecord(found: Found, ip: u32, ttl: nat): Found {
    Found(found.ips + [ip], if ttl < found.minTtl then ttl else found.minTtl)
  }

  function WalkAnswers(p: seq<byte>, pos: nat, count: nat, found: Found): Found
    decreases count
  {
    if count == 0 || pos >= |p| then found
    else
      var q := SkipOwner(p, pos);
      if q + 10 > |p| then found
      else
        var rdlen := Net16(p, q + 8);
        if q + 10 + rdlen > |p| then found
        else
          var next := if Net16(p, q) == 1 && rdlen == 4 then AddRecord(found, Net32(p, q + 10), Net32(p, q + 4))
              else found;
          WalkAnswers(p, q + 10 + rdlen, count - 1, next)
  }

  function Resolved(p: seq<byte>): Found {
    var none := Found([], MAX_TTL);
    if |p| < DNS_HEADER then none
    else
      var flags: int := p[3];
      if flags % 16 != 0 then none
      else WalkAnswers(p, SkipQuestions(p, DNS_HEADER, Net16(p, 4)), Net16(p, 6), none)
  }

  method SkipQuestionSection(p: seq<byte>, start: nat, qdcount: nat) returns (pos: nat)
    ensures pos == SkipQuestions(p, start, qdcount)
  {
    hide IsPointer;
    pos := start;
    var i := 0;
    while i < qdcount
      invariant 0 <= i <= qdcount
      invariant SkipQuestions(p, pos, qdcount - i) == SkipQuestions(p, start, qdcount)
    {
      ghost var before := pos;
      while pos < |p|
        invariant before <= pos && SkipName(p, pos) == SkipName(p, before)
        decreases |p| - pos
      {
        var n: int := p[pos];
        if n == 0 {
          pos := pos + 1;
          break;
        }
        if IsPointer(n) {
          pos := pos + 2;
          break;
        }
        pos := pos + 1 + n;
      }
      assert pos == SkipName(p, before);
      pos := pos + 4;
      i := i + 1;
    }
  }

  method SkipOwnerName(p: seq<byte>, start: nat) returns (pos: nat)
    requires start < |p|
    ensures pos == SkipOwner(p, start)
  {
    hide IsPointer;
    pos := start;
    if IsPointer(p[pos]) {
      pos := pos + 2;
    } else {
      while pos < |p|
        invariant start <= pos && SkipLabels(p, pos) == SkipLabels(p, start)
        decreases |p| - pos
      {
        var n: int := p[pos];
        if n == 0 {
          pos := pos + 1;
          break;
        }
        pos := pos + 1 + n;
      }
    }
  }

  method ReadReply(p: seq<byte>) returns (found: Found)
    ensures found == Resolved(p)
  {
    hide IsPointer, SkipName, SkipLabels, SkipOwner, Net16, Net32, AddRecord;
    found := Found([], 300);
    if |p| < 12 {
      return;
    }
    var flags: int := p[3];
    if flags % 16 != 0 {
      return;
    }
    var qdcount := Net16(p, 4);
    var ancount := Net16(p, 6);
    if ancount == 0 {
      return;
    }
    var pos: nat := SkipQuestionSection(p, 12, qdcount);
    var i := 0;
    while i < ancount && pos < |p|
      invariant 0 <= i <= ancount
      invariant WalkAnswers(p, pos, ancount - i, found) == Resolved(p)
    {
      pos := SkipOwnerName(p, pos);
      if pos + 10 > |p| {
        break;
      }
      var kind := Net16(p, pos);
      var ttl := Net32(p, pos + 4);
      var rdlen := Net16(p, pos + 8);
      pos := pos + 10;
      if pos + rdlen > |p| {
        break;
      }
      if kind == 1 && rdlen == 4 {
        found := AddRecord(found, Net32(p, pos), ttl);
      }
      pos := pos + rdlen;
      i := i + 1;
    }
  }

  // ---- The round trip of a response ----

  lemma {:induction false} ReadBytes32(p: seq<byte>, at: nat, n: u32)
    requires At(p, at, Bytes32(n))
    ensures Net32(p, at) == n
  {
    hide Bytes16, Net16;
    AtSplit(p, at, Bytes16(n / WORD), Bytes16(n % WORD));
    ReadBytes16(p, at, n / WORD);
    ReadBytes16(p, at + 2, n % WORD);
  }

  lemma {:induction false} ReadAnswer(p: seq<byte>, pos: nat, ip: u32, ttl: u32)
    requires At(p, pos, EncodeAnswer(ip, ttl))
    ensures pos + RECORD <= |p| && SkipOwner(p, pos) == pos + 2
    ensures Net16(p, pos + 2) == 1 && Net32(p, pos + 6) == ttl && Net16(p, pos + 10) == 4 && Net32(p, pos + 12) == ip
  {
    hide Bytes32, IsPointer, Net16, Net32, At;
    AtSplit(p, pos, [0xC0, 0x0C], [0, 1] + [0, 1] + Bytes32(ttl) + [0, 4] + Bytes32(ip));
    AtSplit(p, pos + 2, [0, 1] + [0, 1] + Bytes32(ttl) + [0, 4], Bytes32(ip));
    AtSplit(p, pos + 2, [0, 1] + [0, 1] + Bytes32(ttl), [0, 4]);
    AtSplit(p, pos + 2, [0, 1] + [0, 1], Bytes32(ttl));
    AtSplit(p, pos + 2, [0, 1], [0, 1]);
    PointerAt(p, pos);
    assert Bytes16(1) == [0, 1] && Bytes16(4) == [0, 4];
    ReadBytes16(p, pos + 2, 1);
    ReadBytes32(p, pos + 6, ttl);
    ReadBytes16(p, pos + 10, 4);
    ReadBytes32(p, pos + 12, ip);
  }

  lemma {:induction false} PointerAt(p: seq<byte>, pos: nat)
    requires At(p, pos, [0xC0, 0x0C])
    ensures pos < |p| && IsPointer(p[pos])
  {
    hide IsPointer;
    assert p[pos..pos + 2][0] == p[pos];
    PointerBits(0xC0);
  }

  function Least(ttl: nat, minTtl: nat): nat {
    if ttl < minTtl then ttl else minTtl
  }

  lemma {:induction false} WalkEncoded(p: seq<byte>, pos: nat, count: nat, ips: seq<u32>, ttl: u32, found: Found)
    requires At(p, pos, EncodeAnswers(ips, ttl)) && count <= |ips|
    ensures WalkAnswers(p, pos, count, found)
      == Found(found.ips + ips[..count], if count == 0 then found.minTtl else Least(ttl, found.minTtl))
    decreases |ips|
  {
    hide EncodeAnswer, SkipOwner, Net16, Net32, At;
    if count > 0 {
      AtSplit(p, pos, EncodeAnswer(ips[0], ttl), EncodeAnswers(ips[1..], ttl));
      ReadAnswer(p, pos, ips[0], ttl);
      var next := AddRecord(found, ips[0], ttl);
      WalkEncoded(p, pos + RECORD, count - 1, ips[1..], ttl, next);
      assert found.ips + ips[..count] == next.ips + ips[1..][..count - 1];
    }
  }

  lemma {:induction false} SkipEncoded(p: seq<byte>, pos: nat, labels: seq<seq<byte>>, rest: seq<byte>)
    requires At(p, pos, EncodeLabels(labels) + ([0] + rest))
    requires forall i :: 0 <= i < |labels| ==> GoodLabel(labels[i])
    ensures SkipName(p, pos) == pos + |EncodeLabels(labels)| + 1
    decreases |labels|
  {
    hide At, IsPointer;
    if labels == [] {
      assert EncodeLabels(labels) + ([0] + rest) == [0] + rest;
      ReadEnd(p, pos, rest);
    } else {
      var part, more := labels[0], labels[1..];
      assert EncodeLabels(labels) + ([0] + rest) == [|part| % 0x100] + part + (EncodeLabels(more) + ([0] + rest));
      ReadLabel(p, pos, part, EncodeLabels(more) + ([0] + rest));
      SkipEncoded(p, pos + 1 + |part|, more, rest);
    }
  }

  lemma {:induction false} HeaderFields(txId: nat, count: nat, rest: seq<byte>)
    requires txId < WORD
    ensures var p := ResponseHeader(txId, count) + rest;
      Net16(p, 0) == txId && p[2] == 0x81 && p[3] == 0x80 && Net16(p, 4) == 1 && Net16(p, 6) == count % WORD
  {
    var p := ResponseHeader(txId, count) + rest;
    assert p[0] == txId / 0x100 % 0x100 && p[1] == txId % 0x100;
    assert p[4] == 0 && p[5] == 1;
    assert p[6] == count / 0x100 % 0x100 && p[7] == count % 0x100;
    TwoBytes(txId);
    TwoBytes(count);
  }

  lemma {:induction false} TwoBytes(n: nat)
    ensures n % WORD == 0x100 * (n / 0x100 % 0x100) + n % 0x100
    ensures n < WORD ==> n % WORD == n
  {
  }

  /**
   * The answer walker applied to a response returns exactly the addresses it was built from, in order, as many as the
   * 16-bit count can tell, with the smaller of its time to live and the default; the id is the one given. And a
   * response is never mistaken for a question.
   */
  lemma {:induction false} ResponseRoundTrip(txId: nat, name: seq<byte>, ips: seq<u32>, ttl: u32)
    requires txId < WORD && GoodName(name)
    ensures var p, count := Response(txId, name, ips, ttl), |ips| % WORD;
      && Resolved(p) == Found(ips[..count], if count == 0 then MAX_TTL else Least(ttl, MAX_TTL))
      && Net16(p, 0) == txId && Question(p) == None
      && ParseName(p, DNS_HEADER, []) == Some((name, DNS_HEADER + |EncodeLabels(Labels(name))| + 1))
  {
    hide Labels, EncodeLabels, EncodeAnswers, ParseName, ResponseHeader, SkipName, WalkAnswers, At, Net16;
    var p, answers, labels := Response(txId, name, ips, ttl), EncodeAnswers(ips, ttl), Labels(name);
    var rest := EncodedQuestion(name) + answers;
    assert p == ResponseHeader(txId, |ips|) + rest;
    HeaderFields(txId, |ips|, rest);
    NotAQuery(p);
    AtEnd(ResponseHeader(txId, |ips|), rest);
    QuestionParses(p, name, answers);
    assert rest == EncodeLabels(labels) + ([0] + (([0, 1] + [0, 1]) + answers));
    SkipEncoded(p, DNS_HEADER, labels, ([0, 1] + [0, 1]) + answers);
    var next := DNS_HEADER + |EncodeLabels(labels)| + 5;
    assert SkipQuestions(p, DNS_HEADER, 1) == SkipQuestions(p, next, 0) == next;
    WalkEncoded(p, next, |ips| % WORD, ips, ttl, Found([], MAX_TTL));
    assert [] + ips[..|ips| % WORD] == ips[..|ips| % WORD];
  }

  lemma {:induction false} NotAQuery(p: seq<byte>)
    requires |p| >= DNS_HEADER && p[2] == 0x81
    ensures Question(p) == None
  {
  }

  lemma {:induction false} AtEnd(a: seq<byte>, b: seq<byte>)
    ensures At(a + b, |a|, b)
  {
  }
}
