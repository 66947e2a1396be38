/** The ones-complement checksum of section 2 of RFC 1071, as the packet code and the bundled example compute it. */
module InternetChecksum {
  import opened Words

  const WORD: nat := 0x1_0000
  const ONES: nat := 0xFFFF

  /** More bytes than these could overflow the 32-bit sum; an odd last byte counts as a whole word here. */
  const MAX_SUMMED: nat := 131074

  type word = x: int | 0 <= x < 0x1_0000

  /** Sum of the 16-bit words as a little-endian machine loads them; a last odd byte is a low byte. */
  function WordSum(data: seq<byte>): nat
    decreases |data|
  {
    if |data| >= 2 then
      var a: int, b: int := data[0], data[1];
      a + 0x100 * b + WordSum(data[2..])
    else if |data| == 1 then
      var a: int := data[0];
      a
    else 0
  }

  /** The same words in network order; a last odd byte is padded with a zero byte on the right. */
  function NetworkSum(data: seq<byte>): nat
    decreases |data|
  {
    if |data| >= 2 then
      var a: int, b: int := data[0], data[1];
      0x100 * a + b + NetworkSum(data[2..])
    else if |data| == 1 then
      var a: int := data[0];
      0x100 * a
    else 0
  }

  /** Carries are added back in until none is left. */
  function Fold(sum: nat): (f: nat)
    ensures f < WORD
    decreases sum
  {
    if sum < WORD then sum else Fold(sum % WORD + sum / WORD)
  }

  function Checksum(data: seq<byte>): (c: nat)
    ensures c < WORD
  {
    ONES - Fold(U32(WordSum(data)))
  }

  // ---- The loops ----

  method FoldInPlace(start: nat) returns (sum: nat)
    requires start < TWO32
    ensures sum == Fold(start)
  {
    sum := start;
    while sum / WORD != 0
      invariant sum < TWO32 && Fold(sum) == Fold(start)
      decreases sum
    {
      LowMaskIsMod(sum, 16);
      Pow2Table();
      assert BitAnd(sum, ONES) == sum % WORD;
      sum := BitAnd(sum, ONES) + sum / WORD;
    }
  }

  /** The 32-bit sum, which wraps around when it overflows. */
  method AddWords(data: seq<byte>) returns (sum: nat)
    ensures sum == U32(WordSum(data))
  {
    hide WordSum;
    sum := 0;
    var pos, len := 0, |data|;
    assert data[0..] == data;
    while len > 1
      invariant 0 <= pos && 0 <= len && pos + len == |data|
      invariant sum < TWO32 && U32(sum + WordSum(data[pos..])) == U32(WordSum(data))
      decreases len
    {
      WordSumStep(data, pos);
      var low: int, high: int := data[pos], data[pos + 1];
      sum := U32(sum + (low + 0x100 * high));
      pos := pos + 2;
      len := len - 2;
    }
    WordSumEnd(data, pos);
    if len == 1 {
      var low: int := data[pos];
      sum := U32(sum + low);
    }
  }

  lemma {:induction false} WordSumStep(data: seq<byte>, pos: nat)
    requires pos + 2 <= |data|
    ensures WordSum(data[pos..]) == data[pos] as int + 0x100 * data[pos + 1] as int + WordSum(data[pos + 2..])
  {
    assert data[pos..][2..] == data[pos + 2..];
  }

  lemma {:induction false} WordSumEnd(data: seq<byte>, pos: nat)
    requires pos <= |data| <= pos + 1
    ensures WordSum(data[pos..]) == if pos < |data| then data[pos] as int else 0
  {
  }

  method ComputeChecksum(data: seq<byte>) returns (c: nat)
    ensures c == Checksum(data)
  {
    hide WordSum, Fold;
    var sum := AddWords(data);
    sum := FoldInPlace(sum);
    c := ONES - sum;
  }

  /** The bundled example folds twice instead of in a loop, and comes to the same. */
  method IPChecksum(buffer: seq<byte>) returns (c: nat)
    ensures c == Checksum(buffer)
  {
    hide WordSum;
    var sum := AddWords(buffer);
    TwoStepFold(sum);
    sum := sum / WORD + sum % WORD;
    sum := U32(sum + sum / WORD);
    c := ONES - sum % WORD;
  }

  lemma {:induction false} TwoStepFold(sum: nat)
    requires sum < TWO32
    ensures var t := sum / WORD + sum % WORD; t + t / WORD < TWO32 && (t + t / WORD) % WORD == Fold(sum)
  {
    var t := sum / WORD + sum % WORD;
    assert t <= 2 * ONES;
    assert sum < WORD ==> t == sum;
    assert t >= WORD ==> Fold(t) == Fold(t - ONES) == t - ONES;
  }

  // ---- What the fold computes ----

  /** The representative of sum modulo 65535 among 1..65535, and 0 only for 0. */
  function Residue(sum: nat): nat {
    if sum == 0 then 0 else 1 + (sum - 1) % ONES
  }

  lemma {:induction false} FoldIsResidue(sum: nat)
    ensures Fold(sum) == Residue(sum)
    decreases sum
  {
    if sum < WORD {
      assert sum > 0 ==> (sum - 1) % ONES == sum - 1;
    } else {
      var t := sum % WORD + sum / WORD;
      FoldIsResidue(t);
      ResidueUnique(sum, t, sum / WORD);
    }
  }

  lemma {:induction false} ResidueUnique(a: nat, b: nat, k: int)
    requires a == b + ONES * k
    requires a == 0 <==> b == 0
    ensures Residue(a) == Residue(b)
  {
  }

  lemma {:induction false} WordSumBound(data: seq<byte>)
    ensures WordSum(data) <= ONES * ((|data| + 1) / 2)
    decreases |data|
  {
    if |data| >= 2 {
      WordSumBound(data[2..]);
    }
  }

  /** Up to MAX_SUMMED bytes, odd lengths included, the 32-bit sum is the mathematical one. */
  lemma {:induction false} SumNeverOverflows(data: seq<byte>)
    requires |data| <= MAX_SUMMED
    ensures WordSum(data) < TWO32
    ensures Checksum(data) == ONES - Residue(WordSum(data))
  {
    hide WordSum, Fold;
    WordSumBound(data);
    FoldIsResidue(WordSum(data));
  }

  /** And that is the most: one byte more, and a sum of all ones overflows. */
  lemma {:induction false} LimitIsTight()
    ensures WordSum(seq(MAX_SUMMED + 1, _ => 0xFF)) >= TWO32
  {
    SumOfOnes(MAX_SUMMED + 1);
  }

  lemma {:induction false} SumOfOnes(n: nat)
    ensures WordSum(seq(n, _ => 0xFF)) == ONES * (n / 2) + 0xFF * (n % 2)
    decreases n
  {
    var s: seq<byte> := seq(n, _ => 0xFF);
    if n >= 2 {
      assert s[2..] == seq(n - 2, _ => 0xFF);
      SumOfOnes(n - 2);
    }
  }

  function SwapBytes(w: nat): nat {
    0x100 * (w % 0x100) + w / 0x100
  }

  /** Byte order does not matter: the folded sum of the loaded words is the byte swap of the one in network order. */
  lemma {:induction false} ByteOrderIndependence(data: seq<byte>)
    ensures Fold(WordSum(data)) == SwapBytes(Fold(NetworkSum(data)))
  {
    hide WordSum, NetworkSum, Fold;
    var w, n := WordSum(data), NetworkSum(data);
    FoldIsResidue(w);
    FoldIsResidue(n);
    var k := OrdersCongruent(data);
    SwapResidue(n, w, k);
  }

  lemma {:induction false} OrdersCongruent(data: seq<byte>) returns (k: int)
    ensures WordSum(data) == 0x100 * NetworkSum(data) - ONES * k
    ensures WordSum(data) == 0 <==> NetworkSum(data) == 0
    decreases |data|
  {
    if |data| >= 2 {
      var a: int := data[0];
      var j := OrdersCongruent(data[2..]);
      k := j + a;
    } else if |data| == 1 {
      k := data[0];
    } else {
      k := 0;
    }
  }

  lemma {:induction false} SwapResidue(n: nat, w: nat, k: int)
    requires w == 0x100 * n - ONES * k
    requires w == 0 <==> n == 0
    ensures Residue(w) == SwapBytes(Residue(n))
  {
    if n > 0 {
      var r := Residue(n);
      var q := (n - 1) / ONES;
      assert n == r + ONES * q;
      var s := SwapBytes(r);
      assert 0x100 * r == s + ONES * (r / 0x100);
      assert s > 0;
      ResidueUnique(w, s, r / 0x100 + 0x100 * q - k);
    }
  }

  // ---- Storing a checksum ----

  /** Storing a word on a little-endian machine. */
  function Store16(data: seq<byte>, at: nat, w: nat): (d: seq<byte>)
    requires at + 2 <= |data| && w < WORD
    ensures |d| == |data|
    ensures d[at] == w % 0x100 && d[at + 1] == w / 0x100
    ensures forall i :: 0 <= i < |data| && i != at && i != at + 1 ==> d[i] == data[i]
  {
    data[at := w % 0x100][at + 1 := w / 0x100]
  }

  lemma {:induction false} SumSplits(a: seq<byte>, b: seq<byte>)
    requires |a| % 2 == 0
    ensures WordSum(a + b) == WordSum(a) + WordSum(b)
    decreases |a|
  {
    if a == [] {
      assert a + b == b;
    } else {
      assert (a + b)[2..] == a[2..] + b;
      SumSplits(a[2..], b);
    }
  }

  lemma {:induction false} StoreAdds(data: seq<byte>, at: nat, w: nat)
    requires at % 2 == 0 && at + 2 <= |data| && w < WORD
    requires data[at] == 0 && data[at + 1] == 0
    ensures WordSum(Store16(data, at, w)) == WordSum(data) + w
    decreases at
  {
    hide Store16;
    var d := Store16(data, at, w);
    if at == 0 {
      assert d[2..] == data[2..];
    } else {
      assert d[2..] == Store16(data[2..], at - 2, w);
      StoreAdds(data[2..], at - 2, w);
    }
  }

  /**
   * After storing the checksum over the zeroed field the sum is all ones, so recomputing it over everything yields 0.
   * The same holds when all ones are stored in the place of a zero checksum, as UDP does.
   */
  lemma {:induction false} StoredChecksumVerifies(data: seq<byte>, at: nat, w: nat)
    requires |data| <= MAX_SUMMED && at % 2 == 0 && at + 2 <= |data|
    requires data[at] == 0 && data[at + 1] == 0
    requires w == Checksum(data) || (Checksum(data) == 0 && w == ONES)
    ensures Checksum(Store16(data, at, w)) == 0
  {
    hide WordSum, Fold, Store16, Checksum;
    var s := WordSum(data);
    SumNeverOverflows(data);
    SumNeverOverflows(Store16(data, at, w));
    StoreAdds(data, at, w);
    ComplementResidue(s, w);
  }

  lemma {:induction false} ComplementResidue(s: nat, w: nat)
    requires w == ONES - Residue(s) || (Residue(s) == ONES && w == ONES)
    ensures Residue(s + w) == ONES
  {
    var q := if s == 0 then 0 else (s - 1) / ONES;
    assert s == Residue(s) + ONES * q;
    assert s + w == ONES + ONES * q || s + w == ONES + ONES * (q + 1);
  }

  /** A checksum that verifies detects any change of the sum, up to the two representations of zero. */
  lemma {:induction false} VerifiesExactly(data: seq<byte>)
    requires |data| <= MAX_SUMMED
    ensures Checksum(data) == 0 <==> WordSum(data) > 0 && WordSum(data) % ONES == 0
  {
    hide WordSum, Fold, Checksum;
    SumNeverOverflows(data);
    ResidueOnes(WordSum(data));
  }

  lemma {:induction false} ResidueOnes(s: nat)
    ensures Residue(s) == ONES <==> s > 0 && s % ONES == 0
  {
  }
}
