/** What a receiver delivers of the packets of a chain, against what it delivers of the packet alone. */
module Delivery {
  import opened Words
  import opened InternetChecksum
  import opened Packet
  import opened BypassStrategy
  import opened StreamPreservation
  import opened Receiver
  import opened ChainPlan

  // ---- Taking the pieces of a plan ----

  /** taken says whether the receiver looks at the packets of the flow; noise only has to last for the hops. */
  predicate Arrives(piece: Piece, hops: nat, taken: bool) {
    if piece.Part? then taken else piece.ttl as int >= hops
  }

  predicate Hits(piece: Piece, o: nat) {
    Hit(piece.at, |piece.bytes|, o)
  }

  function TakePiece(w: Window, piece: Piece, hops: nat, taken: bool, fin: bool): Window {
    if Arrives(piece, hops, taken) then Take(w, U32(w.base + piece.at), piece.bytes, piece.Part? && fin) else w
  }

  function TakeAll(w: Window, pieces: seq<Piece>, hops: nat, taken: bool, fin: bool): Window
    decreases |pieces|
  {
    if pieces == [] then w else TakeAll(TakePiece(w, pieces[0], hops, taken, fin), pieces[1..], hops, taken, fin)
  }

  lemma {:induction false} PacketIsPiece(p: seq<byte>, piece: Piece, packet: PacketToSend, w: Window, hops: nat)
    requires ParseTCP(p) && Intact(p) && Carries(p, piece, packet) && w.base == SequenceNumber(p)
    requires piece.Noise? ==> piece.ttl as int < hops || |piece.bytes| < WORD - TcpHeaders(p)
    ensures TakePacket(w, packet.data, hops) == TakePiece(w, piece, hops, Acceptable(p, hops), HasFlag(p, FIN))
  {
    hide ParseTCP, GetTCPPayload, SequenceNumber, SegmentOf, Intact, HasFlag, Take, U32;
    if piece.Part? {
      SegmentIsTaken(p, packet.data, hops);
    }
  }

  lemma {:induction false} ProcessIsTakeAll(
    p: seq<byte>, pieces: seq<Piece>, packets: seq<PacketToSend>, w: Window, hops: nat)
    requires ParseTCP(p) && Intact(p) && AllCarry(p, pieces, packets) && w.base == SequenceNumber(p)
    requires NoiseFits(pieces, hops, WORD - TcpHeaders(p))
    ensures Process(w, packets, hops) == TakeAll(w, pieces, hops, Acceptable(p, hops), HasFlag(p, FIN))
    decreases |pieces|
  {
    hide ParseTCP, SequenceNumber, Intact, Acceptable, HasFlag, Take, U32, Carries, TakePacket;
    if pieces != [] {
      assert Carries(p, pieces[0], packets[0]);
      PacketIsPiece(p, pieces[0], packets[0], w, hops);
      PieceShrinks(w, pieces[0], hops, Acceptable(p, hops), HasFlag(p, FIN));
      assert forall i :: 0 <= i < |pieces[1..]| ==> pieces[1..][i] == pieces[i + 1];
      assert forall i :: 0 <= i < |packets[1..]| ==> packets[1..][i] == packets[i + 1];
      ProcessIsTakeAll(p, pieces[1..], packets[1..], TakePacket(w, packets[0].data, hops), hops);
    }
  }

  // ---- What is held ----

  function PieceAt(piece: Piece, o: nat, hops: nat, taken: bool): Option<byte> {
    if Arrives(piece, hops, taken) && Hits(piece, o) then Some(piece.bytes[U32(o - piece.at)]) else None
  }

  /** The byte that comes first for offset o. */
  function FirstAt(pieces: seq<Piece>, o: nat, hops: nat, taken: bool): Option<byte>
    decreases |pieces|
  {
    if pieces == [] then None
    else if PieceAt(pieces[0], o, hops, taken).Some? then PieceAt(pieces[0], o, hops, taken)
    else FirstAt(pieces[1..], o, hops, taken)
  }

  ghost predicate HeldAt(w: Window, t: Window, o: nat, first: Option<byte>) {
    && (o in t.bytes <==> o in w.bytes || first.Some?)
    && (o in w.bytes && o in t.bytes ==> t.bytes[o] == w.bytes[o])
    && (o !in w.bytes && first.Some? && o in t.bytes ==> t.bytes[o] == first.value)
  }

  lemma {:induction false} PieceHeld(w: Window, piece: Piece, o: nat, hops: nat, taken: bool, fin: bool)
    requires o < w.limit
    ensures HeldAt(w, TakePiece(w, piece, hops, taken, fin), o, PieceAt(piece, o, hops, taken))
  {
    hide U32, Index;
    PieceIndex(w.base, piece.at, o);
  }

  lemma {:induction false} AllHeld(w: Window, pieces: seq<Piece>, o: nat, hops: nat, taken: bool, fin: bool)
    requires o < TakeAll(w, pieces, hops, taken, fin).limit
    ensures HeldAt(w, TakeAll(w, pieces, hops, taken, fin), o, FirstAt(pieces, o, hops, taken))
    decreases |pieces|
  {
    hide TakePiece, PieceAt;
    if pieces != [] {
      var v := TakePiece(w, pieces[0], hops, taken, fin);
      LimitShrinks(v, pieces[1..], hops, taken, fin);
      PieceShrinks(w, pieces[0], hops, taken, fin);
      PieceHeld(w, pieces[0], o, hops, taken, fin);
      AllHeld(v, pieces[1..], o, hops, taken, fin);
    }
  }

  lemma {:induction false} PieceShrinks(w: Window, piece: Piece, hops: nat, taken: bool, fin: bool)
    ensures TakePiece(w, piece, hops, taken, fin).limit <= w.limit
    ensures TakePiece(w, piece, hops, taken, fin).base == w.base
  {
    hide U32;
  }

  lemma {:induction false} LimitShrinks(w: Window, pieces: seq<Piece>, hops: nat, taken: bool, fin: bool)
    ensures TakeAll(w, pieces, hops, taken, fin).limit <= w.limit
    decreases |pieces|
  {
    hide TakePiece;
    if pieces != [] {
      PieceShrinks(w, pieces[0], hops, taken, fin);
      LimitShrinks(TakePiece(w, pieces[0], hops, taken, fin), pieces[1..], hops, taken, fin);
    }
  }

  function Min(a: nat, b: nat): nat {
    if a < b then a else b
  }

  /** A FIN ends the stream behind the first part. */
  lemma {:induction false} LimitIs(
    w: Window, pieces: seq<Piece>, n: nat, payload: seq<byte>, hops: nat, taken: bool, fin: bool)
    requires PartsFrom(pieces, n, payload) && |payload| < WORD && n <= |payload|
    ensures TakeAll(w, pieces, hops, taken, fin).limit
      == if taken && fin && !AllNoise(pieces) then Min(w.limit, n + FirstPart(pieces)) else w.limit
    decreases |pieces|
  {
    hide Take, U32, Arrives, FirstPart;
    if pieces != [] {
      var piece := pieces[0];
      var v := TakePiece(w, piece, hops, taken, fin);
      PieceLimit(w, piece, hops, taken, fin);
      FirstOfPieces(pieces);
      LimitIs(v, pieces[1..], if piece.Part? then n + |piece.bytes| else n, payload, hops, taken, fin);
    }
  }

  lemma {:induction false} PieceLimit(w: Window, piece: Piece, hops: nat, taken: bool, fin: bool)
    requires piece.Part? ==> 0 <= piece.at && piece.at + |piece.bytes| < TWO32
    ensures TakePiece(w, piece, hops, taken, fin).limit
      == if piece.Part? && taken && fin then Min(w.limit, piece.at + |piece.bytes|) else w.limit
  {
    hide U32;
    if piece.Part? {
      EndOffset(w.base, piece.at, |piece.bytes|);
    }
  }

  lemma {:induction false} FirstOfPieces(pieces: seq<Piece>)
    requires pieces != []
    ensures AllNoise(pieces) <==> pieces[0].Noise? && AllNoise(pieces[1..])
    ensures FirstPart(pieces) == if pieces[0].Part? then |pieces[0].bytes| else FirstPart(pieces[1..])
  {
    assert forall i :: 1 <= i < |pieces| ==> pieces[i] == pieces[1..][i - 1];
    assert forall i :: 0 <= i < |pieces[1..]| ==> pieces[1..][i] == pieces[i + 1];
  }

  // ---- Noise that comes first ----

  /** The byte that the text has at offset o, or that nothing comes there. */
  function Wanted(text: seq<byte>, o: nat): Option<byte> {
    if o < |text| then Some(text[o]) else None
  }

  /** Nothing that arrives hits offset o before piece i does. */
  predicate FirstHit(pieces: seq<Piece>, i: nat, o: nat, hops: nat, taken: bool)
    requires i < |pieces|
  {
    && Arrives(pieces[i], hops, taken)
    && Hits(pieces[i], o)
    && forall j :: 0 <= j < i && Arrives(pieces[j], hops, taken) ==> !Hits(pieces[j], o)
  }

  /** Piece i is noise that comes first for offset o, where the text has another byte or ends. */
  predicate Spoils(pieces: seq<Piece>, i: nat, o: nat, hops: nat, taken: bool, text: seq<byte>) {
    && i < |pieces| && pieces[i].Noise? && FirstHit(pieces, i, o, hops, taken)
    && Some(pieces[i].bytes[U32(o - pieces[i].at)]) != Wanted(text, o)
  }

  lemma {:induction false} FirstHitIs(pieces: seq<Piece>, i: nat, o: nat, hops: nat, taken: bool)
    requires i < |pieces| && FirstHit(pieces, i, o, hops, taken)
    ensures Hits(pieces[i], o) && FirstAt(pieces, o, hops, taken) == Some(pieces[i].bytes[U32(o - pieces[i].at)])
    decreases i
  {
    hide U32, Arrives;
    if i > 0 {
      assert forall j :: 0 <= j < i ==> pieces[1..][j] == pieces[j + 1];
      assert pieces[1..][i - 1] == pieces[i];
      FirstHitIs(pieces[1..], i - 1, o, hops, taken);
    }
  }

  lemma {:induction false} FirstExists(pieces: seq<Piece>, o: nat, hops: nat, taken: bool) returns (i: nat)
    requires FirstAt(pieces, o, hops, taken).Some?
    ensures i < |pieces| && FirstHit(pieces, i, o, hops, taken)
    decreases |pieces|
  {
    hide U32, Arrives, Hits;
    i := 0;
    if !(Arrives(pieces[0], hops, taken) && Hits(pieces[0], o)) {
      var j := FirstExists(pieces[1..], o, hops, taken);
      i := j + 1;
      assert forall k :: 1 <= k < |pieces| ==> pieces[k] == pieces[1..][k - 1];
    }
  }

  lemma {:induction false} PartHit(at: nat, n: nat, o: nat)
    requires o < TWO32 && at + n < TWO32
    ensures Hit(at, n, o) <==> at <= o < at + n
    ensures Hit(at, n, o) ==> U32(o - at) == o - at
  {
  }

  lemma {:induction false} PartAt(pieces: seq<Piece>, n: nat, payload: seq<byte>, i: nat)
    requires PartsFrom(pieces, n, payload) && n <= |payload| && i < |pieces| && pieces[i].Part?
    ensures 0 <= pieces[i].at && pieces[i].at + |pieces[i].bytes| <= |payload|
    ensures pieces[i].bytes == payload[pieces[i].at..pieces[i].at + |pieces[i].bytes|]
    decreases i
  {
    if i > 0 {
      PartAt(pieces[1..], if pieces[0].Part? then n + |pieces[0].bytes| else n, payload, i - 1);
    }
  }

  /** A part gives an offset the byte of the payload. */
  lemma {:induction false} PartIsRight(pieces: seq<Piece>, payload: seq<byte>, i: nat, o: nat)
    requires PartsFrom(pieces, 0, payload) && |payload| < WORD && o < TWO32
    requires i < |pieces| && pieces[i].Part? && Hits(pieces[i], o)
    ensures o < |payload| && pieces[i].bytes[U32(o - pieces[i].at)] == payload[o]
  {
    hide U32, PartsFrom;
    PartAt(pieces, 0, payload, i);
    PartHit(pieces[i].at, |pieces[i].bytes|, o);
  }

  lemma {:induction false} PayloadIsCovered(pieces: seq<Piece>, n: nat, payload: seq<byte>, o: nat, hops: nat)
    requires PartsFrom(pieces, n, payload) && n <= o < |payload| < WORD
    ensures FirstAt(pieces, o, hops, true).Some?
    decreases |pieces|
  {
    hide U32;
    var piece := pieces[0];
    if piece.Part? {
      PartHit(piece.at, |piece.bytes|, o);
    }
    if !(Arrives(piece, hops, true) && Hits(piece, o)) {
      PayloadIsCovered(pieces[1..], if piece.Part? then n + |piece.bytes| else n, payload, o, hops);
    }
  }

  lemma {:induction false} SpoiltExactly(pieces: seq<Piece>, payload: seq<byte>, o: nat, hops: nat, taken: bool)
    requires PartsFrom(pieces, 0, payload) && |payload| < WORD && o < TWO32
    ensures var text := if taken then payload else [];
      FirstAt(pieces, o, hops, taken) != Wanted(text, o) <==> exists i: nat :: Spoils(pieces, i, o, hops, taken, text)
  {
    hide U32, PartsFrom, Hits, FirstAt;
    var text := if taken then payload else [];
    if i: nat :| Spoils(pieces, i, o, hops, taken, text) {
      FirstHitIs(pieces, i, o, hops, taken);
    }
    if FirstAt(pieces, o, hops, taken).Some? {
      var i := FirstExists(pieces, o, hops, taken);
      FirstHitIs(pieces, i, o, hops, taken);
      if pieces[i].Part? {
        PartIsRight(pieces, payload, i, o);
      } else {
        assert FirstAt(pieces, o, hops, taken) != Wanted(text, o) ==> Spoils(pieces, i, o, hops, taken, text);
      }
    } else if o < |text| {
      PayloadIsCovered(pieces, 0, payload, o, hops);
    }
  }

  // ---- The window after a chain ----

  /** The pieces of a chain for the packet p. */
  function Pieces(strategies: seq<Strategy>, p: seq<byte>): seq<Piece>
    requires ParseTCP(p)
  {
    Plan(strategies, [Part(0, GetTCPPayload(p))])
  }

  /** Where the stream ends for the receiver of a chain: a FIN ends it behind the first part. */
  function End(strategies: seq<Strategy>, p: seq<byte>, hops: nat, size: nat): nat
    requires ParseTCP(p)
  {
    if Ends(p, hops) then Min(size, FirstCut(strategies, GetTCPPayload(p))) else size
  }

  ghost predicate HeldIs(t: Window, pieces: seq<Piece>, hops: nat, taken: bool) {
    forall o: nat :: o < t.limit ==>
      && (o in t.bytes <==> FirstAt(pieces, o, hops, taken).Some?)
      && (o in t.bytes ==> FirstAt(pieces, o, hops, taken) == Some(t.bytes[o]))
  }

  /** What a receiver of a chain holds is told by the plan. */
  lemma {:induction false} ChainHeld(strategies: seq<Strategy>, p: seq<byte>, hops: nat, size: nat)
    requires Intact(p) && ParseTCP(p) && size <= TWO32 && JunkFits(strategies, hops, WORD - TcpHeaders(p))
    ensures var w := Opened(SequenceNumber(p), size);
      var t := Process(w, Chain(strategies, [PacketToSend(p, 0, true)]), hops);
      t.limit == End(strategies, p, hops, size) && HeldIs(t, Pieces(strategies, p), hops, Acceptable(p, hops))
  {
    hide ParseTCP, GetTCPPayload, SequenceNumber, Intact, Acceptable, HasFlag, Chain, Plan, AllCarry, Process, TakeAll;
    hide FirstAt, FirstPart, NoiseFits, JunkFits, TcpHeaders, PartsFrom, FirstCut, AllNoise;
    var seed, whole, w := PacketToSend(p, 0, true), Part(0, GetTCPPayload(p)), Opened(SequenceNumber(p), size);
    var taken, fin, pieces := Acceptable(p, hops), HasFlag(p, FIN), Pieces(strategies, p);
    PayloadIsShort(p);
    SeedCarries(p);
    ChainCarries(strategies, p, [seed], [whole]);
    SeedPlan(strategies, GetTCPPayload(p), hops, WORD - TcpHeaders(p));
    ProcessIsTakeAll(p, pieces, Chain(strategies, [seed]), w, hops);
    LimitIs(w, pieces, 0, GetTCPPayload(p), hops, taken, fin);
    var t := TakeAll(w, pieces, hops, taken, fin);
    forall o: nat | o < t.limit
      ensures HeldAt(w, t, o, FirstAt(pieces, o, hops, taken))
    {
      AllHeld(w, pieces, o, hops, taken, fin);
    }
  }

  lemma {:induction false} SeedPlan(strategies: seq<Strategy>, payload: seq<byte>, hops: nat, room: int)
    requires JunkFits(strategies, hops, room)
    ensures var pieces := Plan(strategies, [Part(0, payload)]);
      && PartsFrom(pieces, 0, payload) && NoiseFits(pieces, hops, room) && !AllNoise(pieces)
      && FirstPart(pieces) == FirstCut(strategies, payload)
  {
    hide Plan, FirstCut, JunkFits, PlanApply, FirstPart;
    var whole := Part(0, payload);
    assert [whole][1..] == [];
    assert payload[0..0 + |payload|] == payload;
    PlanParts(strategies, [whole], payload);
    PlanNoise(strategies, [whole], hops, room);
    assert [] + [whole] == [whole];
    PlanFirst(strategies, [], payload);
    PlanEndsInPart(strategies, [whole]);
  }

  lemma {:induction false} PlanEndsInPart(strategies: seq<Strategy>, pieces: seq<Piece>)
    requires pieces != [] && pieces[|pieces| - 1].Part?
    ensures !AllNoise(Plan(strategies, pieces))
    decreases |strategies|
  {
    hide PlanApply;
    if strategies != [] {
      LastIsPart(strategies[0], pieces[|pieces| - 1]);
      PlanEndsInPart(strategies[1..], pieces[..|pieces| - 1] + PlanApply(strategies[0], pieces[|pieces| - 1]));
    }
  }

  // ---- Delivery ----

  /** Junk that never lasts for the hops. */
  predicate JunkIsShort(strategies: seq<Strategy>, hops: nat) {
    JunkFits(strategies, hops, 0)
  }

  /**
   * End to end, for every chain whose junk does not last for the hops: the receiver delivers exactly the payload of the
   * packet, as far as it fits the window; but if the packet carries a FIN, it delivers only the first segment.
   */
  lemma {:induction false} ChainDelivery(strategies: seq<Strategy>, p: seq<byte>, hops: nat, size: nat)
    requires Intact(p) && ParseTCP(p) && size <= TWO32 && JunkIsShort(strategies, hops)
    ensures FirstCut(strategies, GetTCPPayload(p)) <= |GetTCPPayload(p)|
    ensures Delivered(Chain(strategies, [PacketToSend(p, 0, true)]), hops, SequenceNumber(p), size)
      == if Ends(p, hops) then Cap(GetTCPPayload(p)[..FirstCut(strategies, GetTCPPayload(p))], size)
         else Cap(Text(p, hops), size)
  {
    hide Acceptable, Intact, ParseTCP, HasFlag, GetTCPPayload, SequenceNumber, Chain, Contiguous, Process, Plan;
    hide FirstCut, PartsFrom, FirstAt, TcpHeaders, Spoils;
    var payload, taken, pieces := GetTCPPayload(p), Acceptable(p, hops), Pieces(strategies, p);
    FirstCutRange(strategies, payload);
    PayloadIsShort(p);
    ChainHeld(strategies, p, hops, size);
    SeedPlan(strategies, payload, hops, 0);
    var t := Process(Opened(SequenceNumber(p), size), Chain(strategies, [PacketToSend(p, 0, true)]), hops);
    forall o: nat | o < t.limit
      ensures FirstAt(pieces, o, hops, taken) == Wanted(Text(p, hops), o)
    {
      SpoiltExactly(pieces, payload, o, hops, taken);
      ShortSpoilsNothing(pieces, o, hops, taken, Text(p, hops));
    }
    assert Shows(t, Text(p, hops));
    ShownIsDelivered(t, Text(p, hops));
    if Ends(p, hops) {
      CapOfCut(payload, FirstCut(strategies, payload), size);
    }
  }

  lemma {:induction false} CapOfCut(payload: seq<byte>, cut: nat, size: nat)
    requires cut <= |payload|
    ensures Cap(payload[..cut], size) == Cap(payload, Min(size, cut))
  {
    if cut > size {
      assert payload[..cut][..size] == payload[..size];
    }
  }

  lemma {:induction false} ShortSpoilsNothing(
    pieces: seq<Piece>, o: nat, hops: nat, taken: bool, text: seq<byte>)
    requires NoiseFits(pieces, hops, 0)
    ensures !exists i: nat :: Spoils(pieces, i, o, hops, taken, text)
  {
    hide U32, Hits;
  }

  /** How far noise is felt: over the text, and right behind it unless the stream or the window ends there. */
  function Reach(text: nat, ends: bool, size: nat): nat {
    if text >= size then size else if ends then text else text + 1
  }

  /** A FIN cuts the stream off inside the window: everything behind the first cut is lost. */
  predicate CutsOff(strategies: seq<Strategy>, p: seq<byte>, hops: nat, size: nat)
    requires ParseTCP(p)
  {
    var cut := FirstCut(strategies, GetTCPPayload(p));
    Ends(p, hops) && cut < |GetTCPPayload(p)| && cut < size
  }

  /** Some noise of the plan arrives first where it is felt. */
  ghost predicate SomeSpoils(pieces: seq<Piece>, p: seq<byte>, hops: nat, size: nat)
    requires ParseTCP(p)
  {
    exists i: nat, o: nat ::
      o < Reach(|Text(p, hops)|, Ends(p, hops), size) && Spoils(pieces, i, o, hops, Acceptable(p, hops), Text(p, hops))
  }

  lemma {:induction false} DeliveredIsShort(w: Window, o: nat)
    requires o <= w.limit
    ensures |Contiguous(w, o)| <= w.limit - o
    decreases w.limit - o
  {
    if o < w.limit && o in w.bytes {
      DeliveredIsShort(w, o + 1);
    }
  }

  /** Comparing what is held with the text alone. */
  lemma {:induction false} HeldDiffersExactly(
    t: Window, pieces: seq<Piece>, hops: nat, taken: bool, text: seq<byte>, ends: bool, size: nat)
    requires t.limit == (if ends && |text| < size then |text| else size) && HeldIs(t, pieces, hops, taken)
    ensures Contiguous(t, 0) != Cap(text, size) <==>
            exists o: nat :: o < Reach(|text|, ends, size) && FirstAt(pieces, o, hops, taken) != Wanted(text, o)
  {
    hide Contiguous, FirstAt;
    var c := Cap(text, size);
    if forall o: nat :: o < Reach(|text|, ends, size) ==> FirstAt(pieces, o, hops, taken) == Wanted(text, o) {
      assert |c| < t.limit ==> |c| < Reach(|text|, ends, size);
      forall o: nat | o < |c|
        ensures o in t.bytes && t.bytes[o] == c[o]
      {
        assert FirstAt(pieces, o, hops, taken) == Wanted(text, o);
      }
      ContiguousIs(t, 0, c);
      assert c[0..] == c;
    } else {
      var o := FirstDifference(pieces, hops, taken, text, Reach(|text|, ends, size));
      HeldDiffers(t, pieces, hops, taken, text, ends, size, o);
    }
  }

  /** The first offset at which something else comes than wanted. */
  lemma {:induction false} FirstDifference(pieces: seq<Piece>, hops: nat, taken: bool, text: seq<byte>, n: nat)
    returns (o: nat)
    requires exists d: nat :: d < n && FirstAt(pieces, d, hops, taken) != Wanted(text, d)
    ensures o < n && FirstAt(pieces, o, hops, taken) != Wanted(text, o)
    ensures forall d: nat :: d < o ==> FirstAt(pieces, d, hops, taken) == Wanted(text, d)
  {
    hide FirstAt;
    o := 0;
    while FirstAt(pieces, o, hops, taken) == Wanted(text, o)
      invariant o <= n
      invariant forall d: nat :: d < o ==> FirstAt(pieces, d, hops, taken) == Wanted(text, d)
      decreases n - o
    {
      o := o + 1;
    }
  }

  lemma {:induction false} HeldDiffers(
    t: Window, pieces: seq<Piece>, hops: nat, taken: bool, text: seq<byte>, ends: bool, size: nat, o: nat)
    requires t.limit == (if ends && |text| < size then |text| else size) && HeldIs(t, pieces, hops, taken)
    requires o < Reach(|text|, ends, size) && FirstAt(pieces, o, hops, taken) != Wanted(text, o)
    requires forall d: nat :: d < o ==> FirstAt(pieces, d, hops, taken) == Wanted(text, d)
    ensures Contiguous(t, 0) != Cap(text, size)
  {
    hide Contiguous, FirstAt;
    assert forall d: nat :: d < o ==> FirstAt(pieces, d, hops, taken) == Wanted(text, d) && d in t.bytes;
    assert o < t.limit;
    if o in t.bytes {
      ContiguousReaches(t, 0, o + 1);
      assert Contiguous(t, 0)[o - 0] == t.bytes[o];
    } else {
      ContiguousIs(t, 0, text[..o]);
      assert text[..o][0..] == text[..o];
    }
  }

  /**
   * When a chain changes what the receiver delivers, told before it runs, for every chain: exactly if a FIN cuts the
   * stream off at a split within the window, or noise that lasts for the hops comes first at an offset where the text
   * has another byte or has just ended.
   */
  lemma {:induction false} ChainChangesExactly(strategies: seq<Strategy>, p: seq<byte>, hops: nat, size: nat)
    requires Intact(p) && ParseTCP(p) && size <= TWO32 && JunkFits(strategies, hops, WORD - TcpHeaders(p))
    ensures var seed := [PacketToSend(p, 0, true)];
      Delivered(Chain(strategies, seed), hops, SequenceNumber(p), size)
        != Delivered(seed, hops, SequenceNumber(p), size)
      <==> CutsOff(strategies, p, hops, size) || SomeSpoils(Pieces(strategies, p), p, hops, size)
  {
    hide Acceptable, Intact, ParseTCP, HasFlag, GetTCPPayload, SequenceNumber, Chain, Contiguous, Process, Plan;
    hide FirstCut, PartsFrom, FirstAt, TcpHeaders, Spoils, JunkFits, HeldIs;
    var payload, taken, pieces := GetTCPPayload(p), Acceptable(p, hops), Pieces(strategies, p);
    var text, ends := Text(p, hops), Ends(p, hops);
    FirstCutRange(strategies, payload);
    PayloadIsShort(p);
    DeliveredAlone(p, hops, size);
    ChainHeld(strategies, p, hops, size);
    SeedPlan(strategies, payload, hops, WORD - TcpHeaders(p));
    var t := Process(Opened(SequenceNumber(p), size), Chain(strategies, [PacketToSend(p, 0, true)]), hops);
    if CutsOff(strategies, p, hops, size) {
      DeliveredIsShort(t, 0);
    } else {
      HeldDiffersExactly(t, pieces, hops, taken, text, ends, size);
      SomeSpoilsExactly(pieces, p, hops, size);
    }
  }

  lemma {:induction false} SomeSpoilsExactly(pieces: seq<Piece>, p: seq<byte>, hops: nat, size: nat)
    requires ParseTCP(p) && PartsFrom(pieces, 0, GetTCPPayload(p)) && size <= TWO32
    ensures SomeSpoils(pieces, p, hops, size) <==>
            exists o: nat :: o < Reach(|Text(p, hops)|, Ends(p, hops), size)
                             && FirstAt(pieces, o, hops, Acceptable(p, hops)) != Wanted(Text(p, hops), o)
  {
    hide Acceptable, ParseTCP, HasFlag, GetTCPPayload, PartsFrom, FirstAt, Spoils, Wanted;
    PayloadIsShort(p);
    var payload, taken, text, ends := GetTCPPayload(p), Acceptable(p, hops), Text(p, hops), Ends(p, hops);
    if i: nat, o: nat :| o < Reach(|text|, ends, size) && Spoils(pieces, i, o, hops, taken, text) {
      SpoiltExactly(pieces, payload, o, hops, taken);
      assert FirstAt(pieces, o, hops, taken) != Wanted(text, o);
    }
    if o: nat :| o < Reach(|text|, ends, size) && FirstAt(pieces, o, hops, taken) != Wanted(text, o) {
      SpoiltExactly(pieces, payload, o, hops, taken);
      var i: nat :| Spoils(pieces, i, o, hops, taken, text);
    }
  }

  /** Without junk that arrives nothing but a FIN at a split loses data, and it does exactly if the cut is in sight. */
  lemma {:induction false} ReceiverGetsPayload(strategies: seq<Strategy>, p: seq<byte>, hops: nat, size: nat)
    requires Intact(p) && ParseTCP(p) && size <= TWO32 && JunkIsShort(strategies, hops)
    ensures var seed := [PacketToSend(p, 0, true)];
      Delivered(Chain(strategies, seed), hops, SequenceNumber(p), size)
        == Delivered(seed, hops, SequenceNumber(p), size)
      <==> !CutsOff(strategies, p, hops, size)
  {
    hide Acceptable, Intact, ParseTCP, HasFlag, GetTCPPayload, SequenceNumber, Chain, FirstCut, Delivered;
    ChainDelivery(strategies, p, hops, size);
    DeliveredAlone(p, hops, size);
    var payload, cut := GetTCPPayload(p), FirstCut(strategies, GetTCPPayload(p));
    if Ends(p, hops) {
      assert |Cap(payload[..cut], size)| == if cut < size then cut else size;
      assert cut >= size ==> payload[..cut][..size] == payload[..size];
    }
  }
}
