/** Finding the server name in a TLS ClientHello: sections 4.1.2 and 4.2 of RFC 8446, section 3 of RFC 6066. */
module Tls {
  import opened Words
  import opened InternetChecksum
  import opened Packet

  const HANDSHAKE_RECORD: byte := 0x16
  const CLIENT_HELLO: byte := 0x01
  const SERVER_NAME: nat := 0
  const HOST_NAME: byte := 0

  /** Record header, handshake header, version and random. */
  const FIXED_PART: nat := 43

  // ---- The finder as a function of the bytes ----

  predicate IsTLSHandshake(p: seq<byte>) {
    |p| >= 5 && p[0] == HANDSHAKE_RECORD
  }

  predicate IsClientHello(p: seq<byte>) {
    IsTLSHandshake(p) && |p| >= 6 && p[5] == CLIENT_HELLO
  }

  /** A host name of n bytes at index o: in range, with its length and type encoded right before it. */
  predicate HostNameAt(p: seq<byte>, o: nat, n: nat) {
    3 <= o && o + n <= |p| && Net16(p, o - 2) == n && p[o - 3] == HOST_NAME
  }

  function Extensions(p: seq<byte>, cursor: nat, end: nat): (r: Option<(nat, nat)>)
    requires cursor <= end <= |p|
    ensures r.Some? ==> HostNameAt(p, r.value.0, r.value.1) && cursor <= r.value.0 && r.value.0 + r.value.1 <= end
    decreases end - cursor
  {
    if cursor + 4 > end then None
    else
      var kind, len := Net16(p, cursor), Net16(p, cursor + 2);
      var body := cursor + 4;
      if body + len > end then None
      else if kind != SERVER_NAME then Extensions(p, body + len, end)
      else if body + 5 > body + len then None
      else if p[body + 2] != HOST_NAME then Extensions(p, body + len, end)
      else
        var n := Net16(p, body + 3);
        if body + 5 + n > body + len then None else Some((body + 5, n))
  }

  function ExtensionsBlock(p: seq<byte>, cursor: nat): (r: Option<(nat, nat)>)
    requires cursor <= |p|
    ensures r.Some? ==> HostNameAt(p, r.value.0, r.value.1)
  {
    if cursor + 2 > |p| then None
    else
      var end := cursor + 2 + Net16(p, cursor);
      if end > |p| then None else Extensions(p, cursor + 2, end)
  }

  /** Index after a byte string with a one-byte length. */
  function SkipShort(p: seq<byte>, cursor: nat): nat
    requires cursor < |p|
  {
    var n: int := p[cursor];
    cursor + 1 + n
  }

  function SkipLong(p: seq<byte>, cursor: nat): nat
    requires cursor + 2 <= |p|
  {
    cursor + 2 + Net16(p, cursor)
  }

  function FindSNI(p: seq<byte>): (r: Option<(nat, nat)>)
    ensures r.Some? ==> HostNameAt(p, r.value.0, r.value.1)
  {
    if !IsClientHello(p) || |p| <= FIXED_PART then None
    else
      var ciphers := SkipShort(p, FIXED_PART);
      if ciphers + 2 > |p| then None
      else
        var compression := SkipLong(p, ciphers);
        if compression + 1 > |p| then None
        else
          var extensions := SkipShort(p, compression);
          if extensions + 2 > |p| then None else ExtensionsBlock(p, extensions)
  }

  // ---- The finder with its cursor ----

  method FindSNIOffset(p: seq<byte>) returns (r: Option<(nat, nat)>)
    ensures r == FindSNI(p)
  {
    hide Net16;
    if !IsClientHello(p) {
      return None;
    }
    var size := |p|;
    if size < 43 {
      return None;
    }
    var cursor := 5;
    cursor := cursor + 4;
    cursor := cursor + 34;
    if cursor >= size {
      return None;
    }
    var sessionIdLen: int := p[cursor];
    cursor := cursor + 1 + sessionIdLen;
    if cursor + 2 > size {
      return None;
    }
    var cipherSuitesLen := Net16(p, cursor);
    cursor := cursor + 2 + cipherSuitesLen;
    if cursor + 1 > size {
      return None;
    }
    var compressionLen: int := p[cursor];
    cursor := cursor + 1 + compressionLen;
    if cursor + 2 > size {
      return None;
    }
    var extensionsLen := Net16(p, cursor);
    cursor := cursor + 2;
    var extensionsEnd := cursor + extensionsLen;
    if extensionsEnd > size {
      return None;
    }
    r := WalkExtensions(p, cursor, extensionsEnd);
  }

  method WalkExtensions(p: seq<byte>, start: nat, end: nat) returns (r: Option<(nat, nat)>)
    requires start <= end <= |p|
    ensures r == Extensions(p, start, end)
  {
    hide Net16;
    var cursor := start;
    while cursor + 4 <= end
      invariant start <= cursor <= end
      invariant Extensions(p, start, end) == Extensions(p, cursor, end)
      decreases end - cursor
    {
      var extType := Net16(p, cursor);
      var extLen := Net16(p, cursor + 2);
      cursor := cursor + 4;
      if cursor + extLen > end {
        return None;
      }
      if extType == 0x0000 {
        var sniCursor := cursor;
        if sniCursor + 5 > cursor + extLen {
          return None;
        }
        sniCursor := sniCursor + 2;
        if sniCursor + 3 > cursor + extLen {
          return None;
        }
        var nameType := p[sniCursor];
        sniCursor := sniCursor + 1;
        if nameType == 0x00 {
          var nameLen := Net16(p, sniCursor);
          sniCursor := sniCursor + 2;
          if sniCursor + nameLen > cursor + extLen {
            return None;
          }
          return Some((sniCursor, nameLen));
        }
      }
      cursor := cursor + extLen;
    }
    r := None;
  }

  function ExtractSNI(p: seq<byte>): (name: Option<seq<byte>>)
    ensures name.Some? <==> FindSNI(p).Some?
  {
    match FindSNI(p)
    case None => None
    case Some(found) => Some(p[found.0..found.0 + found.1])
  }

  // ---- The other direction: a ClientHello in one record ----

  datatype Extension = Extension(kind: word, body: seq<byte>)

  datatype ClientHello = ClientHello(
    recordVersion: seq<byte>, version: seq<byte>, random: seq<byte>, sessionId: seq<byte>,
    cipherSuites: seq<byte>, compressionMethods: seq<byte>, extensions: seq<Extension>)
  {
    predicate Valid() {
      && |recordVersion| == 2 && |version| == 2 && |random| == 32
      && |sessionId| < 0x100 && |compressionMethods| < 0x100
      && |cipherSuites| < WORD && ValidExtensions(extensions) && |SerializeExtensions(extensions)| < WORD
      && |SerializeHandshake(this)| < WORD
    }
  }

  predicate ValidExtensions(extensions: seq<Extension>) {
    forall i :: 0 <= i < |extensions| ==> |extensions[i].body| < WORD
  }

  function Short(b: seq<byte>): (s: seq<byte>)
    ensures |s| == 1 + |b|
  {
    [|b| % 0x100] + b
  }

  function Long(b: seq<byte>): (s: seq<byte>)
    ensures |s| == 2 + |b|
  {
    Bytes16(|b|) + b
  }

  function SerializeExtensions(extensions: seq<Extension>): seq<byte>
    decreases |extensions|
  {
    if extensions == [] then []
    else Bytes16(extensions[0].kind) + Long(extensions[0].body) + SerializeExtensions(extensions[1..])
  }

  function SerializeBody(h: ClientHello): seq<byte> {
    Short(h.sessionId)
    + (Long(h.cipherSuites) + (Short(h.compressionMethods) + Long(SerializeExtensions(h.extensions))))
  }

  function SerializeHandshake(h: ClientHello): seq<byte> {
    var n := |h.version + h.random + SerializeBody(h)|;
    [CLIENT_HELLO, n / WORD % 0x100] + Bytes16(n) + h.version + h.random + SerializeBody(h)
  }

  function Serialize(h: ClientHello): seq<byte> {
    [HANDSHAKE_RECORD] + h.recordVersion + Bytes16(|SerializeHandshake(h)|) + SerializeHandshake(h)
  }

  /** The body of a server_name extension with a host name first in its list. */
  function ServerNameBody(host: seq<byte>, others: seq<byte>): seq<byte> {
    Bytes16(3 + |host| + |others|) + [HOST_NAME] + Long(host) + others
  }

  // ---- Reading what was written ----

  lemma {:induction false} ReadShort(p: seq<byte>, cursor: nat, b: seq<byte>)
    requires |b| < 0x100 && At(p, cursor, Short(b))
    ensures SkipShort(p, cursor) == cursor + |Short(b)|
  {
    assert p[cursor..cursor + |Short(b)|][0] == p[cursor];
  }

  lemma {:induction false} ReadLong(p: seq<byte>, cursor: nat, b: seq<byte>)
    requires |b| < WORD && At(p, cursor, Long(b))
    ensures SkipLong(p, cursor) == cursor + |Long(b)|
    ensures Net16(p, cursor) == |b| && At(p, cursor + 2, b)
  {
    hide Bytes16, Net16;
    AtSplit(p, cursor, Bytes16(|b|), b);
    ReadBytes16(p, cursor, |b|);
  }

  lemma {:induction false} SerializeAppend(a: seq<Extension>, b: seq<Extension>)
    ensures SerializeExtensions(a + b) == SerializeExtensions(a) + SerializeExtensions(b)
    decreases |a|
  {
    hide Bytes16, Long;
    if a == [] {
      assert a + b == b;
    } else {
      assert (a + b)[1..] == a[1..] + b;
      SerializeAppend(a[1..], b);
    }
  }

  /** The walk passes over one extension of another kind. */
  lemma {:induction false} WalkPasses(p: seq<byte>, cursor: nat, end: nat, e: Extension, rest: seq<byte>)
    requires At(p, cursor, Bytes16(e.kind) + Long(e.body) + rest)
    requires end == cursor + |Bytes16(e.kind) + Long(e.body) + rest|
    requires e.kind != SERVER_NAME && |e.body| < WORD
    ensures var next := cursor + |Bytes16(e.kind) + Long(e.body)|;
      At(p, next, rest) && Extensions(p, cursor, end) == Extensions(p, next, end)
  {
    hide Bytes16, Net16;
    AtSplit(p, cursor, Bytes16(e.kind) + Long(e.body), rest);
    AtSplit(p, cursor, Bytes16(e.kind), Long(e.body));
    ReadBytes16(p, cursor, e.kind);
    ReadLong(p, cursor + 2, e.body);
  }

  lemma {:induction false} WalkPassesAll(p: seq<byte>, cursor: nat, end: nat, before: seq<Extension>, rest: seq<byte>)
    requires At(p, cursor, SerializeExtensions(before) + rest)
    requires end == cursor + |SerializeExtensions(before) + rest|
    requires ValidExtensions(before) && forall i :: 0 <= i < |before| ==> before[i].kind != SERVER_NAME
    ensures var next := cursor + |SerializeExtensions(before)|;
      At(p, next, rest) && Extensions(p, cursor, end) == Extensions(p, next, end)
    decreases |before|
  {
    hide Bytes16, Long, Extensions, At;
    if before == [] {
      assert SerializeExtensions(before) + rest == rest;
    } else {
      var e, s := before[0], SerializeExtensions(before[1..]);
      assert SerializeExtensions(before) + rest == Bytes16(e.kind) + Long(e.body) + (s + rest);
      WalkPasses(p, cursor, end, e, s + rest);
      WalkPassesAll(p, cursor + |Bytes16(e.kind) + Long(e.body)|, end, before[1..], rest);
    }
  }

  /** The walk stops at a server_name extension and returns where its host name is. */
  lemma {:induction false} WalkFinds(p: seq<byte>, cursor: nat, end: nat, host: seq<byte>, others: seq<byte>,
      rest: seq<byte>)
    requires |ServerNameBody(host, others)| < WORD
    requires At(p, cursor, Bytes16(SERVER_NAME) + Long(ServerNameBody(host, others)) + rest)
    requires end == cursor + |Bytes16(SERVER_NAME) + Long(ServerNameBody(host, others)) + rest|
    ensures Extensions(p, cursor, end) == Some((cursor + 9, |host|)) && At(p, cursor + 9, host)
  {
    hide Bytes16, Net16;
    var body := ServerNameBody(host, others);
    AtSplit(p, cursor, Bytes16(SERVER_NAME) + Long(body), rest);
    AtSplit(p, cursor, Bytes16(SERVER_NAME), Long(body));
    ReadBytes16(p, cursor, SERVER_NAME);
    ReadLong(p, cursor + 2, body);
    var list := Bytes16(3 + |host| + |others|);
    AtSplit(p, cursor + 4, list + [HOST_NAME] + Long(host), others);
    AtSplit(p, cursor + 4, list + [HOST_NAME], Long(host));
    AtSplit(p, cursor + 4, list, [HOST_NAME]);
    ReadLong(p, cursor + 7, host);
    assert p[cursor + 6..cursor + 7][0] == p[cursor + 6];
  }

  /** Index of the extensions block of a serialized hello. */
  function ExtensionsIndex(h: ClientHello): nat {
    FIXED_PART + |Short(h.sessionId)| + |Long(h.cipherSuites)| + |Short(h.compressionMethods)|
  }

  lemma {:induction false} SerializedParts(h: ClientHello)
    requires h.Valid()
    ensures var p := Serialize(h); IsClientHello(p) && |p| > FIXED_PART && At(p, FIXED_PART, SerializeBody(h))
    ensures |Serialize(h)| == FIXED_PART + |SerializeBody(h)|
  {
    hide SerializeBody, Bytes16, SerializeExtensions;
    var p := Serialize(h);
    var front := [HANDSHAKE_RECORD] + h.recordVersion + Bytes16(|SerializeHandshake(h)|);
    assert |SerializeBody(h)| > 0 by { BodyNonEmpty(h); }
    assert p[5] == SerializeHandshake(h)[0];
    assert p[FIXED_PART..] == SerializeBody(h);
  }

  lemma {:induction false} BodyNonEmpty(h: ClientHello)
    ensures |SerializeBody(h)| > 0
  {
  }

  lemma {:induction false} ReachesExtensions(h: ClientHello)
    requires h.Valid()
    ensures var p, c := Serialize(h), ExtensionsIndex(h);
      && At(p, c + 2, SerializeExtensions(h.extensions)) && |p| == c + 2 + |SerializeExtensions(h.extensions)|
      && FindSNI(p) == Extensions(p, c + 2, |p|)
  {
    hide Serialize, SerializeExtensions, SerializeHandshake, IsClientHello, Bytes16, Net16, Extensions, SkipShort;
    hide SkipLong, At;
    hide Short, Long;
    var p, s := Serialize(h), SerializeExtensions(h.extensions);
    SerializedParts(h);
    var sessionId, ciphers, compression := Short(h.sessionId), Long(h.cipherSuites), Short(h.compressionMethods);
    AtSplit(p, FIXED_PART, sessionId, ciphers + (compression + Long(s)));
    ReadShort(p, FIXED_PART, h.sessionId);
    var c := FIXED_PART + |sessionId|;
    AtSplit(p, c, ciphers, compression + Long(s));
    ReadLong(p, c, h.cipherSuites);
    AtSplit(p, c + |ciphers|, compression, Long(s));
    ReadShort(p, c + |ciphers|, h.compressionMethods);
    ReadLong(p, c + |ciphers| + |compression|, s);
  }

  /**
   * The finder inverts the serializer: whatever session id, ciphers, compression methods and extensions of other kinds
   * come first and whatever extensions and names come after, it returns the place of the host name.
   */
  lemma {:induction false} FindsTheHostName(h: ClientHello, before: seq<Extension>, host: seq<byte>,
      others: seq<byte>, after: seq<Extension>)
    requires h.Valid()
    requires h.extensions == before + ([Extension(SERVER_NAME, ServerNameBody(host, others))] + after)
    requires forall i :: 0 <= i < |before| ==> before[i].kind != SERVER_NAME
    ensures var o := ExtensionsIndex(h) + 2 + |SerializeExtensions(before)| + 9;
      FindSNI(Serialize(h)) == Some((o, |host|)) && At(Serialize(h), o, host)
    ensures ExtractSNI(Serialize(h)) == Some(host)
  {
    hide Serialize, SerializeHandshake, Extensions, Bytes16, Long, ServerNameBody, FindSNI, ExtensionsIndex;
    var e := Extension(SERVER_NAME, ServerNameBody(host, others));
    var p, c := Serialize(h), ExtensionsIndex(h) + 2;
    ReachesExtensions(h);
    SerializeAppend(before, [e] + after);
    var rest := Bytes16(e.kind) + Long(e.body) + SerializeExtensions(after);
    assert SerializeExtensions([e] + after) == rest by { assert ([e] + after)[1..] == after; }
    assert ValidExtensions(before) by { assert forall i :: 0 <= i < |before| ==> before[i] == h.extensions[i]; }
    WalkPassesAll(p, c, |p|, before, rest);
    assert h.extensions[|before|] == e;
    WalkFinds(p, c + |SerializeExtensions(before)|, |p|, host, others, SerializeExtensions(after));
  }

  /** A hello without a server_name extension yields nothing. */
  lemma {:induction false} FindsNothingWithout(h: ClientHello)
    requires h.Valid()
    requires forall i :: 0 <= i < |h.extensions| ==> h.extensions[i].kind != SERVER_NAME
    ensures FindSNI(Serialize(h)) == None
  {
    hide Serialize, SerializeHandshake, Bytes16, Long, FindSNI, ExtensionsIndex, SerializeExtensions;
    var p, c := Serialize(h), ExtensionsIndex(h) + 2;
    ReachesExtensions(h);
    assert SerializeExtensions(h.extensions) + [] == SerializeExtensions(h.extensions);
    WalkPassesAll(p, c, |p|, h.extensions, []);
    assert Extensions(p, |p|, |p|) == None;
  }
}
