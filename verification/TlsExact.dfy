/** Exactly which payloads the server name finder finds a name in, and where: all of them, well-formed or not. */
module TlsExact {
  import opened Words
  import opened InternetChecksum
  import opened Packet
  import opened Tls

  /** The walk goes past an extension of another kind, and past a list of names that starts with one of another type. */
  predicate Passed(e: Extension) {
    |e.body| < WORD && (e.kind == 0 ==> |e.body| >= 5 && e.body[2] != 0)
  }

  predicate AllPassed(extensions: seq<Extension>) {
    forall e :: e in extensions ==> Passed(e)
  }

  /**
   * What the finder looks at. It ignores the version and the length of the record, those of the handshake message, and
   * the random; the length of the list of names; and everything behind the name.
   */
  datatype RawHello = RawHello(
    record: seq<byte>, message: seq<byte>, sessionId: seq<byte>, cipherSuites: seq<byte>,
    compressionMethods: seq<byte>, before: seq<Extension>, listLength: seq<byte>, host: seq<byte>,
    others: seq<byte>, after: seq<byte>, rest: seq<byte>)
  {
    predicate Valid() {
      && |record| == 4 && |message| == 37 && |listLength| == 2
      && |sessionId| < 0x100 && |cipherSuites| < WORD && |compressionMethods| < 0x100
      && AllPassed(before) && |host| < WORD && |NameList()| < WORD && |Block()| < WORD
    }

    function NameList(): seq<byte> {
      listLength + [0x00] + Long(host) + others
    }

    function Found(): seq<byte> {
      Bytes16(0) + Long(NameList()) + after
    }

    function Block(): seq<byte> {
      SerializeExtensions(before) + Found()
    }

    function Fields(): seq<byte> {
      Short(sessionId) + (Long(cipherSuites) + (Short(compressionMethods) + (Bytes16(|Block()|) + (Block() + rest))))
    }

    function Serialize(): seq<byte> {
      [0x16] + record + [0x01] + message + Fields()
    }

    function HostIndex(): nat {
      FIXED_PART + |Short(sessionId)| + |Long(cipherSuites)| + |Short(compressionMethods)| + 2
      + |SerializeExtensions(before)| + 9
    }
  }

  // ---- From bytes to fields ----

  lemma {:induction false} TwoAt(p: seq<byte>, at: nat)
    requires at + 2 <= |p|
    ensures p[at..at + 2] == Bytes16(Net16(p, at))
  {
    var a: int, b: int := p[at], p[at + 1];
    assert (0x100 * a + b) / 0x100 == a && (0x100 * a + b) % 0x100 == b;
  }

  lemma {:induction false} LongAt(p: seq<byte>, at: nat, n: nat)
    requires at + 2 + n <= |p| && Net16(p, at) == n
    ensures p[at..at + 2 + n] == Long(p[at + 2..at + 2 + n])
  {
    TwoAt(p, at);
    assert p[at..at + 2 + n] == p[at..at + 2] + p[at + 2..at + 2 + n];
  }

  lemma {:induction false} ShortAt(p: seq<byte>, at: nat, n: nat)
    requires at + 1 + n <= |p| && p[at] as int == n
    ensures p[at..at + 1 + n] == Short(p[at + 1..at + 1 + n])
  {
    assert p[at..at + 1 + n] == [p[at]] + p[at + 1..at + 1 + n];
  }

  lemma {:induction false} Cons(e: Extension, before: seq<Extension>)
    ensures SerializeExtensions([e] + before) == Bytes16(e.kind) + Long(e.body) + SerializeExtensions(before)
  {
    assert ([e] + before)[1..] == before;
  }

  /** Where the walk finds a name, the bytes are those of extensions passed, the name list, and anything. */
  lemma {:induction false} WalkIsExtensions(p: seq<byte>, cursor: nat, end: nat)
    returns (before: seq<Extension>, listLength: seq<byte>, host: seq<byte>, others: seq<byte>, after: seq<byte>)
    requires cursor <= end <= |p| && Extensions(p, cursor, end).Some?
    ensures AllPassed(before) && |listLength| == 2 && |host| < WORD
    ensures var list := listLength + [0x00] + Long(host) + others;
      && |list| < WORD
      && p[cursor..end] == SerializeExtensions(before) + (Bytes16(0) + Long(list) + after)
      && Extensions(p, cursor, end) == Some((cursor + |SerializeExtensions(before)| + 9, |host|))
    decreases end - cursor
  {
    hide Net16, Long, Bytes16, HostNameAt;
    var kind, len := Net16(p, cursor), Net16(p, cursor + 2);
    var body := cursor + 4;
    if kind == 0 && p[body + 2] == 0 {
      before := [];
      listLength, host, others, after := NameAt(p, cursor, end);
      assert SerializeExtensions(before) == [];
      assert [] + p[cursor..end] == p[cursor..end];
    } else {
      var e := Extension(kind, p[body..body + len]);
      var more;
      more, listLength, host, others, after := WalkIsExtensions(p, body + len, end);
      before := [e] + more;
      ConsAt(p, cursor, end, e, more, Bytes16(0) + Long(listLength + [0x00] + Long(host) + others) + after);
    }
  }

  lemma {:induction false} ConsAt(
    p: seq<byte>, cursor: nat, end: nat, e: Extension, more: seq<Extension>, rest: seq<byte>)
    requires cursor + 4 + |e.body| <= end <= |p|
    requires e.kind == Net16(p, cursor) && |e.body| == Net16(p, cursor + 2)
    requires e.body == p[cursor + 4..cursor + 4 + |e.body|]
    requires p[cursor + 4 + |e.body|..end] == SerializeExtensions(more) + rest
    ensures p[cursor..end] == SerializeExtensions([e] + more) + rest
    ensures |SerializeExtensions([e] + more)| == 4 + |e.body| + |SerializeExtensions(more)|
  {
    hide Net16, Long, Bytes16, SerializeExtensions;
    var body := cursor + 4 + |e.body|;
    Cons(e, more);
    ExtensionAt(p, cursor, e.kind, |e.body|);
    assert p[cursor..end] == p[cursor..body] + p[body..end];
    Regroup(Bytes16(e.kind) + Long(e.body), SerializeExtensions(more), rest);
    LongLength(e.body);
  }

  lemma {:induction false} LongLength(b: seq<byte>)
    ensures |Long(b)| == 2 + |b|
  {
  }

  lemma {:induction false} Regroup(a: seq<byte>, b: seq<byte>, c: seq<byte>)
    ensures a + b + c == a + (b + c)
  {
  }

  lemma {:induction false} ExtensionAt(p: seq<byte>, cursor: nat, kind: nat, len: nat)
    requires cursor + 4 + len <= |p| && kind == Net16(p, cursor) && len == Net16(p, cursor + 2)
    ensures p[cursor..cursor + 4 + len] == Bytes16(kind) + Long(p[cursor + 4..cursor + 4 + len])
  {
    hide Net16, Bytes16, Long;
    TwoAt(p, cursor);
    LongAt(p, cursor + 2, len);
    assert p[cursor..cursor + 4 + len] == p[cursor..cursor + 2] + p[cursor + 2..cursor + 4 + len];
  }

  /** The extension that the walk stops at. */
  lemma {:induction false} NameAt(p: seq<byte>, cursor: nat, end: nat)
    returns (listLength: seq<byte>, host: seq<byte>, others: seq<byte>, after: seq<byte>)
    requires cursor <= end <= |p| && cursor + 4 <= end && Extensions(p, cursor, end).Some?
    requires Net16(p, cursor) == 0 && cursor + 6 < |p| && p[cursor + 6] == 0
    ensures |listLength| == 2 && |host| < WORD
    ensures var list := listLength + [0x00] + Long(host) + others;
      && |list| < WORD && p[cursor..end] == Bytes16(0) + Long(list) + after
      && Extensions(p, cursor, end) == Some((cursor + 9, |host|))
  {
    hide Net16, Bytes16;
    var len := Net16(p, cursor + 2);
    var body := cursor + 4;
    var n := Net16(p, body + 3);
    listLength, host, others, after := p[body..body + 2], p[body + 5..body + 5 + n], p[body + 5 + n..body + len],
      p[body + len..end];
    LongAt(p, body + 3, n);
    ExtensionAt(p, cursor, 0, len);
    var list := listLength + [0x00] + Long(host) + others;
    assert p[body..body + len] == p[body..body + 2] + [p[body + 2]] + p[body + 3..body + 5 + n] + others;
    assert p[cursor..end] == p[cursor..body + len] + after;
  }

  /** The cursor of the finder after session id, ciphers and compression methods. */
  lemma {:induction false} CursorOf(p: seq<byte>) returns (ciphers: nat, compression: nat, extensions: nat, end: nat)
    requires FindSNI(p).Some?
    ensures FIXED_PART < ciphers <= |p| && ciphers + 2 <= compression < extensions && extensions + 2 <= end <= |p|
    ensures p[0] == 0x16 && p[5] == 0x01 && p[FIXED_PART] as int == ciphers - FIXED_PART - 1
    ensures Net16(p, ciphers) == compression - ciphers - 2 && p[compression] as int == extensions - compression - 1
    ensures Net16(p, extensions) == end - extensions - 2 && FindSNI(p) == Extensions(p, extensions + 2, end)
  {
    hide Net16, Extensions;
    ciphers := SkipShort(p, FIXED_PART);
    compression := SkipLong(p, ciphers);
    extensions := SkipShort(p, compression);
    end := extensions + 2 + Net16(p, extensions);
  }

  /** A payload in which a name is found is a hello as the finder sees it. */
  lemma {:induction false} FoundIsHello(p: seq<byte>) returns (r: RawHello)
    requires FindSNI(p).Some?
    ensures r.Valid() && p == r.Serialize() && FindSNI(p) == Some((r.HostIndex(), |r.host|))
  {
    hide Net16, Long, Short, Bytes16, Extensions, FindSNI, SerializeExtensions, AllPassed, HostNameAt;
    hide RawHello.Serialize;
    var ciphers, compression, extensions, end := CursorOf(p);
    var before, listLength, host, others, after := WalkIsExtensions(p, extensions + 2, end);
    r := RawHello(p[1..5], p[6..FIXED_PART], p[FIXED_PART + 1..ciphers], p[ciphers + 2..compression],
                  p[compression + 1..extensions], before, listLength, host, others, after, p[end..]);
    ShortAt(p, FIXED_PART, ciphers - FIXED_PART - 1);
    LongAt(p, ciphers, compression - ciphers - 2);
    ShortAt(p, compression, extensions - compression - 1);
    TwoAt(p, extensions);
    Assembled(p, r, ciphers, compression, extensions, end);
    LongLength(r.cipherSuites);
    ShortLength(r.sessionId);
    ShortLength(r.compressionMethods);
  }

  lemma {:induction false} Assembled(p: seq<byte>, r: RawHello, a: nat, b: nat, c: nat, end: nat)
    requires FIXED_PART <= a <= b <= c && c + 2 <= end <= |p| && p[0] == 0x16 && p[5] == 0x01
    requires r.record == p[1..5] && r.message == p[6..FIXED_PART] && Short(r.sessionId) == p[FIXED_PART..a]
    requires Long(r.cipherSuites) == p[a..b] && Short(r.compressionMethods) == p[b..c]
    requires Bytes16(end - c - 2) == p[c..c + 2] && r.Block() == p[c + 2..end] && r.rest == p[end..]
    ensures p == r.Serialize()
  {
    hide Short, Long, Bytes16, SerializeExtensions, RawHello.Block;
    PiecesOf(p, a, b, c, end);
  }

  lemma {:induction false} ShortLength(b: seq<byte>)
    ensures |Short(b)| == 1 + |b|
  {
  }

  lemma {:induction false} PiecesOf(p: seq<byte>, a: nat, b: nat, c: nat, end: nat)
    requires FIXED_PART <= a <= b <= c && c + 2 <= end <= |p|
    ensures p == [p[0]] + p[1..5] + [p[5]] + p[6..FIXED_PART]
                 + (p[FIXED_PART..a] + (p[a..b] + (p[b..c] + (p[c..c + 2] + (p[c + 2..end] + p[end..])))))
  {
  }

  // ---- From fields to bytes ----

  lemma {:induction false} WalkGoesPast(p: seq<byte>, cursor: nat, end: nat, e: Extension, rest: seq<byte>)
    requires Passed(e) && At(p, cursor, Bytes16(e.kind) + Long(e.body) + rest)
    requires end == cursor + |Bytes16(e.kind) + Long(e.body) + rest|
    ensures var next := cursor + |Bytes16(e.kind) + Long(e.body)|;
      At(p, next, rest) && Extensions(p, cursor, end) == Extensions(p, next, end)
  {
    hide Bytes16, Net16;
    AtSplit(p, cursor, Bytes16(e.kind) + Long(e.body), rest);
    AtSplit(p, cursor, Bytes16(e.kind), Long(e.body));
    ReadBytes16(p, cursor, e.kind);
    ReadLong(p, cursor + 2, e.body);
    var len := |e.body|;
    assert e.kind == 0 ==> p[cursor + 4..cursor + 4 + len][2] == p[cursor + 6];
  }

  lemma {:induction false} WalkGoesPastAll(p: seq<byte>, cursor: nat, end: nat, before: seq<Extension>, rest: seq<byte>)
    requires AllPassed(before) && At(p, cursor, SerializeExtensions(before) + rest)
    requires end == cursor + |SerializeExtensions(before) + rest|
    ensures var next := cursor + |SerializeExtensions(before)|;
      At(p, next, rest) && Extensions(p, cursor, end) == Extensions(p, next, end)
    decreases |before|
  {
    hide Bytes16, Long, Extensions, At, Passed;
    if before == [] {
      assert SerializeExtensions(before) + rest == rest;
    } else {
      var e, s := before[0], SerializeExtensions(before[1..]);
      assert SerializeExtensions(before) + rest == Bytes16(e.kind) + Long(e.body) + (s + rest);
      WalkGoesPast(p, cursor, end, e, s + rest);
      WalkGoesPastAll(p, cursor + |Bytes16(e.kind) + Long(e.body)|, end, before[1..], rest);
    }
  }

  lemma {:induction false} WalkStopsAt(
    p: seq<byte>, cursor: nat, end: nat, listLength: seq<byte>, host: seq<byte>, others: seq<byte>, after: seq<byte>)
    requires |listLength| == 2 && |host| < WORD && |listLength + [0x00] + Long(host) + others| < WORD
    requires At(p, cursor, Bytes16(0) + Long(listLength + [0x00] + Long(host) + others) + after)
    requires end == cursor + |Bytes16(0) + Long(listLength + [0x00] + Long(host) + others) + after|
    ensures Extensions(p, cursor, end) == Some((cursor + 9, |host|)) && At(p, cursor + 9, host)
  {
    hide Bytes16, Net16;
    var list := listLength + [0x00] + Long(host) + others;
    AtSplit(p, cursor, Bytes16(0) + Long(list), after);
    AtSplit(p, cursor, Bytes16(0), Long(list));
    ReadBytes16(p, cursor, 0);
    ReadLong(p, cursor + 2, list);
    AtSplit(p, cursor + 4, listLength + [0x00] + Long(host), others);
    AtSplit(p, cursor + 4, listLength + [0x00], Long(host));
    AtSplit(p, cursor + 4, listLength, [0x00]);
    ReadLong(p, cursor + 7, host);
    assert p[cursor + 6..cursor + 7][0] == p[cursor + 6];
  }

  /** Index of the length of the extensions. */
  function BlockIndex(r: RawHello): nat {
    FIXED_PART + |Short(r.sessionId)| + |Long(r.cipherSuites)| + |Short(r.compressionMethods)|
  }

  lemma {:induction false} FieldsAreRead(p: seq<byte>, r: RawHello)
    requires r.Valid() && |p| > FIXED_PART && At(p, FIXED_PART, r.Fields())
    ensures var ciphers := FIXED_PART + |Short(r.sessionId)|;
      var compression := ciphers + |Long(r.cipherSuites)|;
      && SkipShort(p, FIXED_PART) == ciphers && ciphers + 2 <= |p| && SkipLong(p, ciphers) == compression
      && compression < |p| && SkipShort(p, compression) == BlockIndex(r) && BlockIndex(r) + 2 <= |p|
    ensures BlockIndex(r) + 2 + |r.Block()| <= |p| && Net16(p, BlockIndex(r)) == |r.Block()|
    ensures At(p, BlockIndex(r) + 2, r.Block())
  {
    hide Bytes16, Net16, SkipShort, SkipLong, At, Short, Long;
    hide AllPassed;
    var tail := Bytes16(|r.Block()|) + (r.Block() + r.rest);
    var sessionId, ciphers, compression := Short(r.sessionId), Long(r.cipherSuites), Short(r.compressionMethods);
    AtSplit(p, FIXED_PART, sessionId, ciphers + (compression + tail));
    ReadShort(p, FIXED_PART, r.sessionId);
    var c := FIXED_PART + |sessionId|;
    AtSplit(p, c, ciphers, compression + tail);
    ReadLong(p, c, r.cipherSuites);
    AtSplit(p, c + |ciphers|, compression, tail);
    ReadShort(p, c + |ciphers|, r.compressionMethods);
    var x := c + |ciphers| + |compression|;
    AtSplit(p, x, Bytes16(|r.Block()|), r.Block() + r.rest);
    ReadBytes16(p, x, |r.Block()|);
    AtSplit(p, x + 2, r.Block(), r.rest);
    LongLength(r.cipherSuites);
    ShortLength(r.compressionMethods);
  }

  lemma {:induction false} FinderReachesBlock(p: seq<byte>, r: RawHello)
    requires r.Valid() && IsClientHello(p) && |p| > FIXED_PART && At(p, FIXED_PART, r.Fields())
    ensures var x := BlockIndex(r); x + 2 + |r.Block()| <= |p| && At(p, x + 2, r.Block())
    ensures FindSNI(p) == Extensions(p, BlockIndex(r) + 2, BlockIndex(r) + 2 + |r.Block()|)
  {
    hide Net16, SkipShort, SkipLong, At, Short, Long, Extensions, SerializeExtensions, AllPassed, IsClientHello;
    hide Bytes16;
    FieldsAreRead(p, r);
  }

  /** In every hello as the finder sees it the name is found, where it is. */
  lemma {:induction false} HelloIsFound(r: RawHello)
    requires r.Valid()
    ensures FindSNI(r.Serialize()) == Some((r.HostIndex(), |r.host|))
    ensures r.HostIndex() + |r.host| <= |r.Serialize()|
    ensures r.Serialize()[r.HostIndex()..r.HostIndex() + |r.host|] == r.host
  {
    hide Extensions, Bytes16, At, Short, Long, SerializeExtensions, AllPassed, FindSNI, IsClientHello;
    var p, x := r.Serialize(), BlockIndex(r);
    HelloBegins(r);
    FinderReachesBlock(p, r);
    var end := x + 2 + |r.Block()|;
    WalkGoesPastAll(p, x + 2, end, r.before, r.Found());
    WalkStopsAt(p, x + 2 + |SerializeExtensions(r.before)|, end, r.listLength, r.host, r.others, r.after);
    AtIs(p, r.HostIndex(), r.host);
  }

  lemma {:induction false} AtIs(p: seq<byte>, at: nat, b: seq<byte>)
    requires At(p, at, b)
    ensures at + |b| <= |p| && p[at..at + |b|] == b
  {
  }

  lemma {:induction false} HelloBegins(r: RawHello)
    requires r.Valid()
    ensures var p := r.Serialize(); IsClientHello(p) && |p| > FIXED_PART && At(p, FIXED_PART, r.Fields())
  {
    hide Bytes16, Short, Long, SerializeExtensions, AllPassed;
    var p := r.Serialize();
    ShortLength(r.sessionId);
    assert |r.Fields()| > 0;
    assert p[0] == 0x16 && p[5] == 0x01;
    assert p[FIXED_PART..] == r.Fields();
  }

  /**
   * A host name of n bytes is found at index o of a payload if and only if the payload is a hello as the finder sees
   * it, with this name there.
   */
  lemma {:induction false} FindsExactly(p: seq<byte>, o: nat, n: nat)
    ensures FindSNI(p) == Some((o, n)) <==>
              exists r: RawHello :: r.Valid() && p == r.Serialize() && o == r.HostIndex() && n == |r.host|
  {
    hide FindSNI;
    if FindSNI(p) == Some((o, n)) {
      var r := FoundIsHello(p);
    }
    if r: RawHello :| r.Valid() && p == r.Serialize() && o == r.HostIndex() && n == |r.host| {
      HelloIsFound(r);
    }
  }

  /** A record with a handshake message, and one whose message is a hello, told by their first bytes. */
  lemma {:induction false} RecordsExactly(p: seq<byte>)
    ensures IsTLSHandshake(p) <==> exists record, rest :: |record| == 4 && p == [0x16] + record + rest
    ensures IsClientHello(p) <==> exists record, rest :: |record| == 4 && p == [0x16] + record + ([0x01] + rest)
  {
    if IsTLSHandshake(p) {
      assert p == [0x16] + p[1..5] + p[5..];
    }
    if IsClientHello(p) {
      assert p == [0x16] + p[1..5] + ([0x01] + p[6..]);
    }
  }
}
