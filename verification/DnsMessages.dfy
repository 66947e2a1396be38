/**
 * Well-formed messages of any server (sections 4.1.1 to 4.1.4 of RFC 1035) and what the answer walker gets of them.
 */
module DnsMessages {
  import opened Words
  import opened InternetChecksum
  import opened Packet
  import opened DnsCodec

  /** A name on the wire: labels, and a zero byte or a pointer to the rest of the name. */
  datatype Name = Name(labels: seq<seq<byte>>, pointer: Option<nat>)

  datatype Asked = Asked(name: Name, kind: nat, class_: nat)

  datatype Record = Record(owner: Name, kind: nat, class_: nat, ttl: u32, data: seq<byte>)

  /** more is whatever follows the answers. */
  datatype Message = Message(id: nat, high: byte, low: byte, questions: seq<Asked>, answers: seq<Record>,
                             counts: seq<byte>, more: seq<byte>)

  predicate ValidName(n: Name) {
    && (forall i :: 0 <= i < |n.labels| ==> 1 <= |n.labels[i]| <= 63)
    && (n.pointer.Some? ==> n.pointer.value < 0x4000)
  }

  predicate ValidAsked(a: Asked) {
    ValidName(a.name) && a.kind < WORD && a.class_ < WORD
  }

  predicate ValidRecord(r: Record) {
    ValidName(r.owner) && r.kind < WORD && r.class_ < WORD && |r.data| < WORD
  }

  predicate AllValid(records: seq<Record>) {
    forall r :: r in records ==> ValidRecord(r)
  }

  predicate ValidMessage(m: Message) {
    && m.id < WORD && |m.questions| < WORD && |m.answers| < WORD && |m.counts| == 4
    && (forall i :: 0 <= i < |m.questions| ==> ValidAsked(m.questions[i]))
    && AllValid(m.answers)
  }

  function EncodeEnd(pointer: Option<nat>): (b: seq<byte>)
    ensures 1 <= |b| <= 2
  {
    match pointer
    case None => [0]
    case Some(t) => [(0xC0 + t / 0x100) % 0x100, t % 0x100]
  }

  function EncodeName(n: Name): (b: seq<byte>)
    ensures |b| > 0
  {
    EncodeLabels(n.labels) + EncodeEnd(n.pointer)
  }

  function EncodeAsked(a: Asked): seq<byte> {
    EncodeName(a.name) + (Bytes16(a.kind) + Bytes16(a.class_))
  }

  function EncodeAllAsked(questions: seq<Asked>): seq<byte>
    decreases |questions|
  {
    if questions == [] then [] else EncodeAsked(questions[0]) + EncodeAllAsked(questions[1..])
  }

  function EncodeRecord(r: Record): seq<byte> {
    EncodeName(r.owner) + (Bytes16(r.kind) + (Bytes16(r.class_) + (Bytes32(r.ttl) + (Bytes16(|r.data|) + r.data))))
  }

  function EncodeRecords(records: seq<Record>): seq<byte>
    decreases |records|
  {
    if records == [] then [] else EncodeRecord(records[0]) + EncodeRecords(records[1..])
  }

  function MessageHeader(m: Message): (b: seq<byte>)
    requires |m.counts| == 4
    ensures |b| == DNS_HEADER
  {
    Bytes16(m.id) + [m.high, m.low] + Bytes16(|m.questions|) + Bytes16(|m.answers|) + m.counts
  }

  function EncodeMessage(m: Message): seq<byte>
    requires |m.counts| == 4
  {
    MessageHeader(m) + (EncodeAllAsked(m.questions) + (EncodeRecords(m.answers) + m.more))
  }

  // ---- What there is to find ----

  predicate IsAddress(r: Record) {
    r.kind == 1 && |r.data| == 4
  }

  /** The addresses of the records in order, added to those found before. */
  function AddressesOf(records: seq<Record>, found: Found): Found
    decreases |records|
  {
    if records == [] then found
    else
      AddressesOf(records[1..],
                  if IsAddress(records[0]) then AddRecord(found, Net32(records[0].data, 0), records[0].ttl) else found)
  }

  /** Labels before a pointer, which the walker takes for another label of 192 bytes or more. */
  predicate Mixed(n: Name) {
    n.labels != [] && n.pointer.Some?
  }

  // ---- Names ----

  lemma {:induction false} ReadPointer(p: seq<byte>, pos: nat, t: nat, rest: seq<byte>)
    requires t < 0x4000 && At(p, pos, EncodeEnd(Some(t)) + rest)
    ensures pos + 2 <= |p| && p[pos] >= 0xC0 && IsPointer(p[pos]) && At(p, pos + 2, rest)
  {
    hide IsPointer;
    AtSplit(p, pos, EncodeEnd(Some(t)), rest);
    assert p[pos..pos + 2][0] == p[pos];
    PointerBits(p[pos]);
  }

  lemma {:induction false} LabelsThenRest(labels: seq<seq<byte>>, rest: seq<byte>)
    requires labels != []
    ensures EncodeLabels(labels) + rest
      == [|labels[0]| % 0x100] + labels[0] + (EncodeLabels(labels[1..]) + rest)
  {
  }

  /** The walker of names steps over their labels. */
  lemma {:induction false} SkipOverLabels(p: seq<byte>, pos: nat, labels: seq<seq<byte>>, rest: seq<byte>)
    requires At(p, pos, EncodeLabels(labels) + rest) && forall i :: 0 <= i < |labels| ==> 1 <= |labels[i]| <= 63
    ensures var end := pos + |EncodeLabels(labels)|;
      && At(p, end, rest) && SkipName(p, pos) == SkipName(p, end) && SkipLabels(p, pos) == SkipLabels(p, end)
    ensures labels != [] ==> pos < |p| && !IsPointer(p[pos])
    decreases |labels|
  {
    hide At, IsPointer;
    if labels == [] {
      assert EncodeLabels(labels) + rest == rest;
    } else {
      var part, more := labels[0], labels[1..];
      LabelsThenRest(labels, rest);
      ReadLabel(p, pos, part, EncodeLabels(more) + rest);
      SkipOverLabels(p, pos + 1 + |part|, more, rest);
    }
  }

  lemma {:induction false} NameParts(n: Name, rest: seq<byte>)
    ensures EncodeName(n) + rest == EncodeLabels(n.labels) + (EncodeEnd(n.pointer) + rest)
    ensures |EncodeName(n)| == |EncodeLabels(n.labels)| + |EncodeEnd(n.pointer)|
  {
    hide EncodeLabels, EncodeEnd;
  }

  /** Names of questions are skipped in every form. */
  lemma {:induction false} SkipAnyName(p: seq<byte>, pos: nat, n: Name, rest: seq<byte>)
    requires ValidName(n) && At(p, pos, EncodeName(n) + rest)
    ensures SkipName(p, pos) == pos + |EncodeName(n)| && At(p, pos + |EncodeName(n)|, rest)
  {
    hide At, IsPointer, EncodeLabels;
    var end := pos + |EncodeLabels(n.labels)|;
    NameParts(n, rest);
    SkipOverLabels(p, pos, n.labels, EncodeEnd(n.pointer) + rest);
    match n.pointer {
      case None => ReadEnd(p, end, rest);
      case Some(t) => ReadPointer(p, end, t, rest);
    }
  }

  /** Owners of records are skipped unless they are mixed; then the walker lands far behind them. */
  lemma {:induction false} SkipAnyOwner(p: seq<byte>, pos: nat, n: Name, rest: seq<byte>)
    requires ValidName(n) && At(p, pos, EncodeName(n) + rest)
    ensures pos < |p| && At(p, pos + |EncodeName(n)|, rest)
    ensures !Mixed(n) ==> SkipOwner(p, pos) == pos + |EncodeName(n)|
    ensures Mixed(n) ==> SkipOwner(p, pos) >= pos + |EncodeName(n)| + 191
  {
    hide At, IsPointer, EncodeLabels;
    var end := pos + |EncodeLabels(n.labels)|;
    NameParts(n, rest);
    SkipOverLabels(p, pos, n.labels, EncodeEnd(n.pointer) + rest);
    match n.pointer {
      case None =>
        ReadEnd(p, end, rest);
        if n.labels == [] {
          NoLabels();
          ZeroIsNoPointer();
        }
      case Some(t) =>
        ReadPointer(p, end, t, rest);
        if n.labels == [] {
          NoLabels();
        } else {
          PointerAsLength(p, end);
        }
    }
  }

  lemma {:induction false} ZeroIsNoPointer()
    ensures !IsPointer(0)
  {
    hide IsPointer;
    PointerBits(0);
  }

  lemma {:induction false} PointerAsLength(p: seq<byte>, pos: nat)
    requires pos < |p| && p[pos] >= 0xC0
    ensures SkipLabels(p, pos) >= pos + 193
  {
    var n: int := p[pos];
    assert SkipLabels(p, pos) == SkipLabels(p, pos + 1 + n);
  }

  // ---- Questions ----

  lemma {:induction false} SkipAllAsked(p: seq<byte>, pos: nat, questions: seq<Asked>, rest: seq<byte>)
    requires At(p, pos, EncodeAllAsked(questions) + rest)
    requires forall i :: 0 <= i < |questions| ==> ValidName(questions[i].name)
    ensures var end := pos + |EncodeAllAsked(questions)|;
      SkipQuestions(p, pos, |questions|) == end && At(p, end, rest)
    decreases |questions|
  {
    hide At, EncodeName, SkipName;
    if questions == [] {
      assert EncodeAllAsked(questions) + rest == rest;
    } else {
      var a, more := questions[0], EncodeAllAsked(questions[1..]);
      var fields := Bytes16(a.kind) + Bytes16(a.class_);
      assert EncodeAllAsked(questions) + rest == EncodeName(a.name) + (fields + (more + rest));
      SkipAnyName(p, pos, a.name, fields + (more + rest));
      AtSplit(p, pos + |EncodeName(a.name)|, fields, more + rest);
      SkipAllAsked(p, pos + |EncodeName(a.name)| + 4, questions[1..], rest);
    }
  }

  // ---- Records ----

  /** The fields behind the owner of a record. */
  lemma {:induction false} ReadFields(p: seq<byte>, q: nat, r: Record, rest: seq<byte>)
    requires ValidRecord(r)
    requires At(p, q, Bytes16(r.kind) + (Bytes16(r.class_) + (Bytes32(r.ttl) + (Bytes16(|r.data|) + (r.data + rest)))))
    ensures q + 10 + |r.data| <= |p| && At(p, q + 10 + |r.data|, rest)
    ensures Net16(p, q) == r.kind && Net32(p, q + 4) == r.ttl && Net16(p, q + 8) == |r.data|
    ensures |r.data| == 4 ==> Net32(p, q + 10) == Net32(r.data, 0)
  {
    hide At, Bytes16, Bytes32, Net16, Net32, ValidName;
    AtSplit(p, q, Bytes16(r.kind), Bytes16(r.class_) + (Bytes32(r.ttl) + (Bytes16(|r.data|) + (r.data + rest))));
    AtSplit(p, q + 2, Bytes16(r.class_), Bytes32(r.ttl) + (Bytes16(|r.data|) + (r.data + rest)));
    AtSplit(p, q + 4, Bytes32(r.ttl), Bytes16(|r.data|) + (r.data + rest));
    AtSplit(p, q + 8, Bytes16(|r.data|), r.data + rest);
    AtSplit(p, q + 10, r.data, rest);
    ReadBytes16(p, q, r.kind);
    ReadBytes32(p, q + 4, r.ttl);
    ReadBytes16(p, q + 8, |r.data|);
    if |r.data| == 4 {
      SameNet32(p, q + 10, r.data);
    }
  }

  lemma {:induction false} SameNet32(p: seq<byte>, at: nat, data: seq<byte>)
    requires |data| == 4 && At(p, at, data)
    ensures at + 4 <= |p| && Net32(p, at) == Net32(data, 0)
  {
    var piece := p[at..at + 4];
    assert piece[0] == p[at] && piece[1] == p[at + 1] && piece[2] == p[at + 2] && piece[3] == p[at + 3];
  }

  lemma {:induction false} RecordParts(r: Record, rest: seq<byte>)
    ensures EncodeRecord(r) + rest == EncodeName(r.owner)
      + (Bytes16(r.kind) + (Bytes16(r.class_) + (Bytes32(r.ttl) + (Bytes16(|r.data|) + (r.data + rest)))))
    ensures |EncodeRecord(r)| == |EncodeName(r.owner)| + 10 + |r.data|
  {
    hide EncodeName, Bytes16, Bytes32;
  }

  function Next(r: Record, found: Found): Found {
    if IsAddress(r) then AddRecord(found, Net32(r.data, 0), r.ttl) else found
  }

  /** One record read. */
  lemma {:induction false} WalkRecord(p: seq<byte>, pos: nat, r: Record, rest: seq<byte>, count: nat, found: Found)
    requires ValidRecord(r) && !Mixed(r.owner) && At(p, pos, EncodeRecord(r) + rest) && count > 0
    ensures At(p, pos + |EncodeRecord(r)|, rest)
    ensures WalkAnswers(p, pos, count, found) == WalkAnswers(p, pos + |EncodeRecord(r)|, count - 1, Next(r, found))
  {
    hide At, Bytes16, Bytes32, Net16, Net32, EncodeName, SkipOwner, ValidName, EncodeRecord, AddRecord;
    var fields := Bytes16(r.kind) + (Bytes16(r.class_) + (Bytes32(r.ttl) + (Bytes16(|r.data|) + (r.data + rest))));
    RecordParts(r, rest);
    SkipAnyOwner(p, pos, r.owner, fields);
    ReadFields(p, pos + |EncodeName(r.owner)|, r, rest);
  }

  predicate NoneMixed(records: seq<Record>) {
    forall r :: r in records ==> !Mixed(r.owner)
  }

  /** Records without mixed owners are all read. */
  lemma {:induction false} WalkRecords(
    p: seq<byte>, pos: nat, records: seq<Record>, rest: seq<byte>, count: nat, found: Found)
    requires AllValid(records) && NoneMixed(records) && At(p, pos, EncodeRecords(records) + rest)
    requires |records| <= count
    ensures At(p, pos + |EncodeRecords(records)|, rest)
    ensures WalkAnswers(p, pos, count, found)
      == WalkAnswers(p, pos + |EncodeRecords(records)|, count - |records|, AddressesOf(records, found))
    decreases |records|
  {
    hide At, EncodeRecord, WalkAnswers, ValidRecord, Mixed, AddRecord, IsAddress, Net32;
    if records == [] {
      assert EncodeRecords(records) + rest == rest;
    } else {
      var r, more := records[0], records[1..];
      assert EncodeRecords(records) + rest == EncodeRecord(r) + (EncodeRecords(more) + rest);
      assert |EncodeRecords(records)| == |EncodeRecord(r)| + |EncodeRecords(more)|;
      WalkRecord(p, pos, r, EncodeRecords(more) + rest, count, found);
      WalkRecords(p, pos + |EncodeRecord(r)|, more, rest, count - 1, Next(r, found));
    }
  }

  /** A mixed owner with less than 201 bytes behind it ends the walk. */
  lemma {:induction false} WalkStops(p: seq<byte>, pos: nat, r: Record, rest: seq<byte>, count: nat, found: Found)
    requires ValidRecord(r) && Mixed(r.owner) && At(p, pos, EncodeRecord(r) + rest)
    requires |p| < pos + |EncodeName(r.owner)| + 201
    ensures WalkAnswers(p, pos, count, found) == found
  {
    hide At, Bytes16, Bytes32, Net16, Net32, EncodeName, SkipOwner, ValidName, EncodeRecord, AddRecord;
    var fields := Bytes16(r.kind) + (Bytes16(r.class_) + (Bytes32(r.ttl) + (Bytes16(|r.data|) + (r.data + rest))));
    RecordParts(r, rest);
    SkipAnyOwner(p, pos, r.owner, fields);
  }

  // ---- Messages ----

  const NONE_FOUND: Found := Found([], MAX_TTL)

  /** Where the walk of a message begins. */
  lemma {:induction false} WalkBegins(m: Message)
    requires ValidMessage(m) && m.low as int % 16 == 0
    ensures var p, pos := EncodeMessage(m), DNS_HEADER + |EncodeAllAsked(m.questions)|;
      && At(p, pos, EncodeRecords(m.answers) + m.more)
      && Resolved(p) == WalkAnswers(p, pos, |m.answers|, NONE_FOUND)
  {
    hide At, EncodeAllAsked, EncodeRecords, WalkAnswers, SkipQuestions, ValidRecord, ValidName, Bytes16, Net16;
    var p, answers := EncodeMessage(m), EncodeRecords(m.answers) + m.more;
    HeaderOf(m, EncodeAllAsked(m.questions) + answers);
    SkipAllAsked(p, DNS_HEADER, m.questions, answers);
  }

  lemma {:induction false} HeaderOf(m: Message, rest: seq<byte>)
    requires |m.counts| == 4 && |m.questions| < WORD && |m.answers| < WORD
    ensures var p := MessageHeader(m) + rest;
      && At(p, DNS_HEADER, rest) && p[3] == m.low
      && Net16(p, 4) == |m.questions| && Net16(p, 6) == |m.answers|
  {
    hide Bytes16, Net16;
    var p := MessageHeader(m) + rest;
    AtEnd(MessageHeader(m), rest);
    assert p[4..6] == Bytes16(|m.questions|) && p[6..8] == Bytes16(|m.answers|);
    ReadBytes16(p, 4, |m.questions|);
    ReadBytes16(p, 6, |m.answers|);
  }

  /**
   * Of every well-formed response without an error, with any questions, records of any kind, compressed names in any
   * place but behind the labels of an owner, and anything behind the answers, the walker returns exactly the addresses
   * of the address records, in order, and the smallest of their times to live and the default.
   */
  lemma {:induction false} ResponseIsRead(m: Message)
    requires ValidMessage(m) && m.low as int % 16 == 0 && NoneMixed(m.answers)
    ensures Resolved(EncodeMessage(m)) == AddressesOf(m.answers, NONE_FOUND)
  {
    hide At, EncodeMessage, EncodeRecords, WalkAnswers, ValidRecord, Resolved, AddressesOf, EncodeAllAsked, NoneMixed;
    WalkBegins(m);
    var p, pos := EncodeMessage(m), DNS_HEADER + |EncodeAllAsked(m.questions)|;
    WalkRecords(p, pos, m.answers, m.more, |m.answers|, NONE_FOUND);
    WalkNone(p, pos + |EncodeRecords(m.answers)|, AddressesOf(m.answers, NONE_FOUND));
  }

  /** A response with an error code gives no address, whatever its records, and neither does one without a header. */
  lemma {:induction false} ErrorGivesNothing(m: Message, p: seq<byte>)
    requires ValidMessage(m)
    ensures m.low as int % 16 != 0 ==> Resolved(EncodeMessage(m)) == NONE_FOUND
    ensures |p| < DNS_HEADER ==> Resolved(p) == NONE_FOUND
  {
    hide EncodeAllAsked, EncodeRecords, WalkAnswers, SkipQuestions, AllValid, Net16;
    HeaderOf(m, EncodeAllAsked(m.questions) + (EncodeRecords(m.answers) + m.more));
  }

  lemma {:induction false} WalkNone(p: seq<byte>, pos: nat, found: Found)
    ensures WalkAnswers(p, pos, 0, found) == found
  {
  }

  lemma {:induction false} RecordsAppend(a: seq<Record>, b: seq<Record>, found: Found)
    ensures EncodeRecords(a + b) == EncodeRecords(a) + EncodeRecords(b)
    ensures AddressesOf(a + b, found) == AddressesOf(b, AddressesOf(a, found))
    decreases |a|
  {
    hide EncodeRecord, AddRecord, IsAddress, Net32;
    if a == [] {
      assert a + b == b;
    } else {
      assert (a + b)[1..] == a[1..] + b;
      RecordsAppend(a[1..], b, Next(a[0], found));
      Associative(EncodeRecord(a[0]), EncodeRecords(a[1..]), EncodeRecords(b));
    }
  }

  predicate NoAddress(records: seq<Record>) {
    forall r :: r in records ==> !IsAddress(r)
  }

  /** Records add something exactly if one of them holds an address. */
  lemma {:induction false} AddsNothingExactly(records: seq<Record>, found: Found)
    ensures |AddressesOf(records, found).ips| >= |found.ips|
    ensures NoAddress(records) ==> AddressesOf(records, found) == found
    ensures !NoAddress(records) ==> |AddressesOf(records, found).ips| > |found.ips|
    decreases |records|
  {
    hide IsAddress, Net32;
    if records != [] {
      assert forall r :: r in records <==> r == records[0] || r in records[1..];
      AddsNothingExactly(records[1..], Next(records[0], found));
    }
  }

  /** What follows the owner of record i in the message. */
  function BehindOwner(m: Message, i: nat): int
    requires i < |m.answers|
  {
    |EncodeRecords(m.answers[i..])| - |EncodeName(m.answers[i].owner)| + |m.more|
  }

  /**
   * An owner of labels and a pointer throws the walker at least 191 bytes off. If there is not as much as that and a
   * record's fields behind it, the walk ends there: exactly the records before it are read, and every address is
   * returned if and only if none is in that record or later.
   */
  lemma {:induction false} MixedOwnerLosesExactly(m: Message, i: nat)
    requires ValidMessage(m) && m.low as int % 16 == 0
    requires i < |m.answers| && Mixed(m.answers[i].owner) && NoneMixed(m.answers[..i]) && BehindOwner(m, i) < 201
    ensures Resolved(EncodeMessage(m)) == AddressesOf(m.answers[..i], NONE_FOUND)
    ensures Resolved(EncodeMessage(m)) == AddressesOf(m.answers, NONE_FOUND) <==> NoAddress(m.answers[i..])
  {
    hide At, WalkAnswers, ValidRecord, Resolved, AddressesOf, EncodeAllAsked, NoneMixed, EncodeName, Mixed, NoAddress;
    hide EncodeRecords, EncodeRecord;
    var p, pos := EncodeMessage(m), DNS_HEADER + |EncodeAllAsked(m.questions)|;
    var before, after, r := m.answers[..i], m.answers[i..], m.answers[i];
    assert before + after == m.answers && after[0] == r && r in m.answers;
    WalkBegins(m);
    RecordsAppend(before, after, NONE_FOUND);
    Associative(EncodeRecords(before), EncodeRecords(after), m.more);
    WalkRecords(p, pos, before, EncodeRecords(after) + m.more, |m.answers|, NONE_FOUND);
    var at := pos + |EncodeRecords(before)|;
    FirstRecord(after, m.more);
    MessageLength(m);
    WalkStops(p, at, r, EncodeRecords(after[1..]) + m.more, |after|, AddressesOf(before, NONE_FOUND));
    AddsNothingExactly(after, AddressesOf(before, NONE_FOUND));
  }

  lemma {:induction false} FirstRecord(records: seq<Record>, more: seq<byte>)
    requires records != []
    ensures EncodeRecords(records) + more == EncodeRecord(records[0]) + (EncodeRecords(records[1..]) + more)
  {
    hide EncodeRecord;
  }

  lemma {:induction false} MessageLength(m: Message)
    requires |m.counts| == 4
    ensures |EncodeMessage(m)| == DNS_HEADER + |EncodeAllAsked(m.questions)| + |EncodeRecords(m.answers)| + |m.more|
  {
    hide EncodeAllAsked, EncodeRecords;
  }

  /** One address record owned by a name of a label and a pointer: its address is not returned. */
  lemma {:induction false} MixedOwnerLosesAddress(data: seq<byte>)
    requires |data| == 4
    ensures var r := Record(Name([[0x61]], Some(12)), 1, 1, 60, data);
      var m := Message(1, 0x81, 0x80, [Asked(Name([[0x62]], None), 1, 1)], [r], [0, 0, 0, 0], []);
      && ValidMessage(m) && AddressesOf(m.answers, NONE_FOUND).ips == [Net32(data, 0)]
      && Resolved(EncodeMessage(m)) == NONE_FOUND
  {
    hide Resolved, EncodeMessage, Net32;
    var r := Record(Name([[0x61]], Some(12)), 1, 1, 60, data);
    var m := Message(1, 0x81, 0x80, [Asked(Name([[0x62]], None), 1, 1)], [r], [0, 0, 0, 0], []);
    OneRecord(r);
    assert m.answers[..0] == [] && m.answers[0..] == [r];
    MixedOwnerLosesExactly(m, 0);
  }

  lemma {:induction false} OneRecord(r: Record)
    requires |r.data| == 4
    ensures |EncodeRecords([r])| == |EncodeName(r.owner)| + 14
    ensures AddressesOf([r], NONE_FOUND) == Next(r, NONE_FOUND) && AddressesOf([], NONE_FOUND) == NONE_FOUND
  {
    hide EncodeName, Bytes16, Bytes32, Net32, AddRecord;
    assert [r][1..] == [];
    assert EncodeRecords([r]) == EncodeRecord(r) + EncodeRecords([]);
    RecordParts(r, []);
  }
}
