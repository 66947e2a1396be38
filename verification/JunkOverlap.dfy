/** Junk that does arrive: which sequence numbers it claims, and when it changes what the receiver delivers. */
module JunkOverlap {
  import opened Words
  import opened InternetChecksum
  import opened Packet
  import opened BypassStrategy
  import opened StreamPreservation
  import opened Receiver
  import opened ChainPlan
  import opened Delivery

  // ---- Sequence numbers ----

  /** Byte i from s + k on and byte j from s on have the same sequence number. */
  predicate SameNumber(s: nat, k: int, i: nat, j: nat) {
    U32(s + k + i) == U32(s + j)
  }

  /** Of n bytes from sequence number s + k on and m bytes from s on, two have the same number. */
  ghost predicate Meets(s: nat, k: int, n: nat, m: nat) {
    exists i: nat, j: nat :: i < n && j < m && SameNumber(s, k, i, j)
  }

  /** Byte o of the second range is one of the first exactly if some byte of the first has its number. */
  lemma {:induction false} HitExactly(s: nat, k: int, n: nat, o: nat)
    requires n < TWO32
    ensures Hit(k, n, o) <==> exists i: nat :: i < n && SameNumber(s, k, i, o)
  {
    hide U32, SameNumber;
    if Hit(k, n, o) {
      HitIsSame(s, k, o);
    }
    if i: nat :| i < n && SameNumber(s, k, i, o) {
      SameIsHit(s, k, i, o);
    }
  }

  lemma {:induction false} HitIsSame(s: nat, k: int, o: nat)
    ensures SameNumber(s, k, U32(o - k), o)
  {
    var i, q := U32(o - k), (o - k) / TWO32;
    var r, t := (s + o) % TWO32, (s + o) / TWO32;
    assert s + k + i == TWO32 * (t - q) + r;
    ModUnique(s + k + i, TWO32, t - q, r);
  }

  lemma {:induction false} SameIsHit(s: nat, k: int, i: nat, o: nat)
    requires i < TWO32 && SameNumber(s, k, i, o)
    ensures U32(o - k) == i
  {
    var q := (s + o) / TWO32 - (s + k + i) / TWO32;
    assert o - k == TWO32 * q + i;
    ModUnique(o - k, TWO32, q, i);
  }

  /** The ranges meet if and only if one of them starts within the other, modulo 2^32. */
  lemma {:induction false} MeetsExactly(s: nat, k: int, n: nat, m: nat)
    requires n < TWO32 && m < TWO32
    ensures Meets(s, k, n, m) <==> n > 0 && m > 0 && (U32(k) < m || U32(-k) < n)
    ensures Meets(s, k, n, m) <==> exists o: nat :: o < m && Hit(k, n, o)
  {
    hide U32, Hit, SameNumber;
    if Meets(s, k, n, m) {
      var i: nat, o: nat :| i < n && o < m && SameNumber(s, k, i, o);
      HitExactly(s, k, n, o);
      assert Hit(k, n, o);
    }
    if n > 0 && m > 0 && U32(k) < m {
      StartsInside(k, n);
    }
    if n > 0 && m > 0 && U32(-k) < n {
      CoversStart(k, n);
    }
    if o: nat :| o < m && Hit(k, n, o) {
      OneStartsInside(k, n, m, o);
      HitExactly(s, k, n, o);
    }
  }

  lemma {:induction false} StartsInside(k: int, n: nat)
    requires n > 0
    ensures Hit(k, n, U32(k))
  {
  }

  lemma {:induction false} CoversStart(k: int, n: nat)
    requires U32(-k) < n
    ensures Hit(k, n, 0)
  {
  }

  lemma {:induction false} OneStartsInside(k: int, n: nat, m: nat, o: nat)
    requires o < m < TWO32 && n < TWO32 && Hit(k, n, o)
    ensures n > 0 && (U32(k) < m || U32(-k) < n)
  {
    var i := U32(o - k);
    assert i <= o ==> U32(k) == o - i;
    assert i > o ==> U32(-k) == i - o;
  }

  /** The default junk, 32 bytes one before the packet's number, meets every payload but the empty one. */
  lemma {:induction false} DefaultJunkMeets(s: nat, m: nat)
    requires m < TWO32
    ensures Meets(s, -1, 32, m) <==> m > 0
  {
    MeetsExactly(s, -1, 32, m);
  }

  // ---- Junk before splits ----

  /**
   * The junk differs from the text at a byte that it takes the place of, or stands right behind the text. All of this
   * can be told before the strategy is applied.
   */
  ghost predicate Changes(noise: seq<byte>, k: int, text: seq<byte>, ends: bool, size: nat) {
    exists o: nat :: o < Reach(|text|, ends, size) && Hit(k, |noise|, o)
      && (o < |text| ==> noise[U32(o - k)] != text[o])
  }

  ghost predicate OnlyFirstIsNoise(pieces: seq<Piece>, noise: Piece) {
    pieces != [] && pieces[0] == noise && forall i :: 1 <= i < |pieces| ==> pieces[i].Part?
  }

  lemma {:induction false} SplitsAddParts(splits: seq<Strategy>, pieces: seq<Piece>, noise: Piece)
    requires |pieces| > 1 && OnlyFirstIsNoise(pieces, noise) && forall i :: 0 <= i < |splits| ==> splits[i].Split?
    ensures OnlyFirstIsNoise(Plan(splits, pieces), noise)
    decreases |splits|
  {
    hide Cut;
    if splits != [] {
      assert forall i :: 0 <= i < |splits[1..]| ==> splits[1..][i] == splits[i + 1];
      SplitsAddParts(splits[1..], pieces[..|pieces| - 1] + PlanApply(splits[0], pieces[|pieces| - 1]), noise);
    }
  }

  /** The pieces of junk followed by splits, such as the default chain. */
  lemma {:induction false} JunkThenSplits(
    noise: seq<byte>, ttl: byte, k: int, splits: seq<Strategy>, payload: seq<byte>)
    requires payload != [] && forall i :: 0 <= i < |splits| ==> splits[i].Split?
    ensures OnlyFirstIsNoise(Plan([Junk(noise, ttl, k)] + splits, [Part(0, payload)]), Noise(k, noise, ttl))
  {
    var strategies, whole := [Junk(noise, ttl, k)] + splits, Part(0, payload);
    assert strategies[1..] == splits && [whole][..0] == [];
    assert [] + PlanApply(strategies[0], whole) == [Noise(k, noise, ttl), whole];
    SplitsAddParts(splits, [Noise(k, noise, ttl), whole], Noise(k, noise, ttl));
  }

  lemma {:induction false} OneNoiseSpoilsExactly(
    pieces: seq<Piece>, noise: seq<byte>, ttl: byte, k: int, p: seq<byte>, hops: nat, size: nat)
    requires ParseTCP(p) && OnlyFirstIsNoise(pieces, Noise(k, noise, ttl)) && ttl as int >= hops
    ensures SomeSpoils(pieces, p, hops, size) <==> Changes(noise, k, Text(p, hops), Ends(p, hops), size)
  {
    hide Acceptable, ParseTCP, HasFlag, GetTCPPayload, U32;
    var taken, text, ends := Acceptable(p, hops), Text(p, hops), Ends(p, hops);
    if o: nat :| o < Reach(|text|, ends, size) && Hit(k, |noise|, o) && (o < |text| ==> noise[U32(o - k)] != text[o]) {
      assert Spoils(pieces, 0, o, hops, taken, text);
    }
  }

  /**
   * When junk that arrives changes the delivered stream, the junk coming before any splits: exactly if a byte of it
   * differs from the byte of the text in whose place it comes first, or continues the stream behind the text, or a FIN
   * cuts the stream off at a split.
   */
  lemma {:induction false} ArrivingJunkChangesExactly(
    noise: seq<byte>, ttl: byte, k: int, splits: seq<Strategy>, p: seq<byte>, hops: nat, size: nat)
    requires Intact(p) && ParseTCP(p) && GetTCPPayload(p) != [] && TcpHeaders(p) + |noise| < WORD
    requires ttl as int >= hops && size <= TWO32 && forall i :: 0 <= i < |splits| ==> splits[i].Split?
    ensures var seed, strategies := [PacketToSend(p, 0, true)], [Junk(noise, ttl, k)] + splits;
      Delivered(Chain(strategies, seed), hops, SequenceNumber(p), size)
        != Delivered(seed, hops, SequenceNumber(p), size)
      <==> CutsOff(strategies, p, hops, size) || Changes(noise, k, Text(p, hops), Ends(p, hops), size)
  {
    hide Intact, ParseTCP, GetTCPPayload, SequenceNumber, Chain, Delivered, Changes, Plan, CutsOff, SomeSpoils, Text;
    hide Ends, TcpHeaders;
    var strategies := [Junk(noise, ttl, k)] + splits;
    ChainChangesExactly(strategies, p, hops, size);
    JunkThenSplits(noise, ttl, k, splits, GetTCPPayload(p));
    OneNoiseSpoilsExactly(Pieces(strategies, p), noise, ttl, k, p, hops, size);
  }

  /**
   * Since the bytes of junk are random: some junk of n bytes changes the stream exactly if its sequence numbers meet
   * those of the text, or the one right behind it where the stream does not end.
   */
  lemma {:induction false} SomeJunkChangesExactly(n: nat, k: int, text: seq<byte>, ends: bool, size: nat, s: nat)
    requires n < WORD && |text| < WORD && size < TWO32
    ensures (exists noise: seq<byte> :: |noise| == n && Changes(noise, k, text, ends, size))
      <==> Meets(s, k, n, Reach(|text|, ends, size))
  {
    hide U32, Meets;
    MeetsExactly(s, k, n, Reach(|text|, ends, size));
    if o: nat :| o < Reach(|text|, ends, size) && Hit(k, n, o) {
      var other: byte := if o < |text| && text[o] == 0 then 1 else 0;
      var noise: seq<byte> := seq(n, _ => other);
      OtherByteChanges(noise, other, k, text, ends, size, o);
    }
  }

  lemma {:induction false} OtherByteChanges(
    noise: seq<byte>, other: byte, k: int, text: seq<byte>, ends: bool, size: nat, o: nat)
    requires o < Reach(|text|, ends, size) && Hit(k, |noise|, o) && (o < |text| ==> other != text[o])
    requires forall i :: 0 <= i < |noise| ==> noise[i] == other
    ensures Changes(noise, k, text, ends, size)
  {
    hide U32;
    assert noise[U32(o - k)] == other;
  }
}
