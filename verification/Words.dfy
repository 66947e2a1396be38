/** Bytes, 32-bit unsigned words and bit masks, written out over mathematical integers. */
module Words {

  type byte = x: int | 0 <= x < 0x100

  const TWO32: nat := 0x1_0000_0000

  datatype Option<+T> = None | Some(value: T)

  /** The value an unsigned 32-bit variable holds after being assigned x. */
  function U32(x: int): nat {
    x % TWO32
  }

  function Pow2(k: nat): nat
    ensures Pow2(k) > 0
  {
    if k == 0 then 1 else 2 * Pow2(k - 1)
  }

  /** Bitwise conjunction of two unsigned words of any width. */
  function BitAnd(a: nat, b: nat): nat
    decreases a
  {
    if a == 0 || b == 0 then 0
    else (if a % 2 == 1 && b % 2 == 1 then 1 else 0) + 2 * BitAnd(a / 2, b / 2)
  }

  lemma {:induction false} ModUnique(a: int, m: int, q: int, r: int)
    requires 0 <= r < m
    requires a == m * q + r
    ensures a % m == r && a / m == q
  {
    var d := a / m - q;
    assert a == m * (a / m) + a % m;
    assert m * d == r - a % m;
    assert d >= 1 ==> m * d >= m;
    assert d <= -1 ==> m * d <= -m;
  }

  lemma {:induction false} HalveMod(a: nat, k: nat)
    requires k > 0
    ensures a % Pow2(k) == 2 * ((a / 2) % Pow2(k - 1)) + a % 2
  {
    var p := Pow2(k - 1);
    var q := (a / 2) / p;
    var s := (a / 2) % p;
    assert a / 2 == p * q + s;
    assert a == (2 * p) * q + (2 * s + a % 2);
    ModUnique(a, 2 * p, q, 2 * s + a % 2);
  }

  lemma {:induction false} LowMaskIsMod(a: nat, k: nat)
    ensures BitAnd(a, Pow2(k) - 1) == a % Pow2(k)
    decreases k
  {
    if k > 0 {
      HalveMod(a, k);
      LowMaskIsMod(a / 2, k - 1);
      var p := Pow2(k - 1);
      assert (2 * p - 1) / 2 == p - 1 && (2 * p - 1) % 2 == 1;
      if a != 0 && p == 1 {
        assert BitAnd(a / 2, 0) == 0;
      }
    }
  }

  /** Masking with all bits of a w-bit word but the lowest k rounds down to a multiple of Pow2(k). */
  lemma {:induction false} HighMaskRoundsDown(a: nat, w: nat, k: nat)
    requires k <= w && a < Pow2(w)
    ensures Pow2(k) <= Pow2(w)  // so that the mask is a word
    ensures BitAnd(a, Pow2(w) - Pow2(k)) == a - a % Pow2(k)
  {
    hide BitAnd, Pow2;
    MaskRounds(a, w, k);
  }

  ghost predicate Rounds(a: nat, w: nat, k: nat) {
    Pow2(k) <= Pow2(w) && BitAnd(a, Pow2(w) - Pow2(k)) == a - a % Pow2(k)
  }

  lemma {:induction false} MaskRounds(a: nat, w: nat, k: nat)
    requires k <= w && a < Pow2(w)
    ensures Rounds(a, w, k)
    decreases k
  {
    hide Rounds;
    if k == 0 {
      FullMask(a, w);
    } else {
      MaskRounds(a / 2, w - 1, k - 1);
      HighMaskStep(a, w, k);
    }
  }

  lemma {:induction false} FullMask(a: nat, w: nat)
    requires a < Pow2(w)
    ensures Rounds(a, w, 0)
  {
    hide BitAnd;
    LowMaskIsMod(a, w);
    ModUnique(a, Pow2(w), 0, a);
    ModUnique(a, 1, a, 0);
  }

  lemma {:induction false} HighMaskStep(a: nat, w: nat, k: nat)
    requires 0 < k <= w && Rounds(a / 2, w - 1, k - 1)
    ensures Rounds(a, w, k)
  {
    hide BitAnd;
    var m := Pow2(w - 1) - Pow2(k - 1);
    BitAndEven(a, m);
    HalveMod(a, k);
    assert Pow2(w) - Pow2(k) == 2 * m;
  }

  lemma {:induction false} BitAndEven(a: nat, m: nat)
    ensures BitAnd(a, 2 * m) == 2 * BitAnd(a / 2, m)
  {
    assert (2 * m) / 2 == m && (2 * m) % 2 == 0;
  }

  /** The driver's power-of-two test accepts exactly the powers of two. */
  lemma {:induction false} SingleBitIsPow2(x: nat) returns (k: nat)
    requires x > 0 && BitAnd(x, x - 1) == 0
    ensures x == Pow2(k)
  {
    if x % 2 == 1 {
      if x != 1 {
        assert (x - 1) / 2 == x / 2;
        BitAndSelf(x / 2);
      }
      k := 0;
    } else {
      assert (x - 1) / 2 == x / 2 - 1;
      var j := SingleBitIsPow2(x / 2);
      k := j + 1;
    }
  }

  lemma {:induction false} BitAndSelf(a: nat)
    ensures BitAnd(a, a) == a
  {
    if a > 0 {
      BitAndSelf(a / 2);
    }
  }

  lemma {:induction false} Pow2IsSingleBit(k: nat)
    ensures BitAnd(Pow2(k), Pow2(k) - 1) == 0
  {
    if k > 0 {
      Pow2IsSingleBit(k - 1);
      var p := Pow2(k - 1);
      assert (2 * p - 1) / 2 == p - 1 && (2 * p) / 2 == p && (2 * p) % 2 == 0;
    }
  }

  lemma {:induction false} Pow2Monotone(j: nat, k: nat)
    requires j <= k
    ensures Pow2(j) <= Pow2(k)
    decreases k - j
  {
    if j < k {
      Pow2Monotone(j + 1, k);
    }
  }

  lemma {:induction false} Pow2Split(j: nat, k: nat)
    ensures Pow2(j + k) == Pow2(j) * Pow2(k)
  {
    if k > 0 {
      Pow2Split(j, k - 1);
    }
  }

  lemma {:induction false} Pow2Step(k: nat, v: nat)
    requires Pow2(k) == v
    ensures Pow2(k + 4) == 16 * v
  {
    assert Pow2(k + 1) == 2 * v && Pow2(k + 2) == 4 * v && Pow2(k + 3) == 8 * v;
  }

  /** The powers of two that occur as masks and ring capacities. */
  lemma {:induction false} Pow2Table()
    ensures Pow2(2) == 4 && Pow2(16) == 0x1_0000 && Pow2(32) == TWO32
    ensures Pow2(27) == 0x800_0000
  {
    Pow2Step(0, 1);
    Pow2Step(4, 0x10);
    Pow2Step(8, 0x100);
    Pow2Step(12, 0x1000);
    Pow2Step(16, 0x1_0000);
    Pow2Step(20, 0x10_0000);
    Pow2Step(24, 0x100_0000);
    Pow2Step(28, 0x1000_0000);
  }

  // ---- Little-endian 32-bit words in memory ----

  function Read32(mem: seq<byte>, at: nat): (w: nat)
    requires at + 4 <= |mem|
    ensures w < TWO32
  {
    var b0: int, b1: int, b2: int, b3: int := mem[at], mem[at + 1], mem[at + 2], mem[at + 3];
    b0 + 0x100 * b1 + 0x1_0000 * b2 + 0x100_0000 * b3
  }

  function LittleEndian32(w: nat): (b: seq<byte>)
    requires w < TWO32
    ensures |b| == 4
  {
    [w % 0x100, w / 0x100 % 0x100, w / 0x1_0000 % 0x100, w / 0x100_0000]
  }

  function Splice(mem: seq<byte>, at: nat, bytes: seq<byte>): (m: seq<byte>)
    requires at + |bytes| <= |mem|
    ensures |m| == |mem|
  {
    mem[..at] + bytes + mem[at + |bytes|..]
  }

  function Write32(mem: seq<byte>, at: nat, w: nat): (m: seq<byte>)
    requires at + 4 <= |mem| && w < TWO32
    ensures |m| == |mem|
  {
    Splice(mem, at, LittleEndian32(w))
  }

  lemma {:induction false} ReadBack32(mem: seq<byte>, at: nat, w: nat)
    requires at + 4 <= |mem| && w < TWO32
    ensures Read32(Write32(mem, at, w), at) == w
  {
    var m := Write32(mem, at, w);
    var b := LittleEndian32(w);
    assert m[at] == b[0] && m[at + 1] == b[1] && m[at + 2] == b[2] && m[at + 3] == b[3];
    Digits(w);
  }

  lemma {:induction false} Digits(w: nat)
    ensures w
      == w % 0x100 + 0x100 * (w / 0x100 % 0x100) + 0x1_0000 * (w / 0x1_0000 % 0x100) + 0x100_0000 * (w / 0x100_0000)
  {
    var q1, q2 := w / 0x100, w / 0x1_0000;
    assert q2 == q1 / 0x100 && w / 0x100_0000 == q2 / 0x100;
  }

  /** m and n agree on the addresses lo..hi. */
  ghost predicate Same(m: seq<byte>, n: seq<byte>, lo: nat, hi: nat) {
    |m| == |n| && hi <= |m| && lo <= hi && m[lo..hi] == n[lo..hi]
  }

  lemma {:induction false} SpliceFrame(mem: seq<byte>, at: nat, bytes: seq<byte>, lo: nat, hi: nat)
    requires at + |bytes| <= |mem|
    requires lo <= hi <= |mem|
    requires hi <= at || at + |bytes| <= lo
    ensures Same(mem, Splice(mem, at, bytes), lo, hi)
  {
    var m := Splice(mem, at, bytes);
    assert forall k :: lo <= k < hi ==> m[k] == mem[k];
  }

  lemma {:induction false} SameRead32(m: seq<byte>, n: seq<byte>, at: nat)
    requires at + 4 <= |m|
    requires Same(m, n, at, at + 4)
    ensures Read32(m, at) == Read32(n, at)
  {
    assert m[at..at + 4][0] == m[at] && m[at..at + 4][1] == m[at + 1] && m[at..at + 4][2] == m[at + 2]
        && m[at..at + 4][3] == m[at + 3];
    assert n[at..at + 4][0] == n[at] && n[at..at + 4][1] == n[at + 1] && n[at..at + 4][2] == n[at + 2]
        && n[at..at + 4][3] == n[at + 3];
  }

  lemma {:induction false} SameSub(m: seq<byte>, n: seq<byte>, lo: nat, hi: nat, lo': nat, hi': nat)
    requires Same(m, n, lo, hi) && lo <= lo' <= hi' <= hi
    ensures Same(m, n, lo', hi')
  {
    assert forall k :: lo <= k < hi ==> m[k] == m[lo..hi][k - lo] && n[k] == n[lo..hi][k - lo];
  }
}
