/** Fixed-width integer operators on mathematical integers, and the bit strings they act on. */
module BitOps {
  import opened Powers

  // JavaScript's ToInt32: wrap into [-2^31, 2^31).
  function ToInt32(x: int): int {
    (x + 0x8000_0000) % 0x1_0000_0000 - 0x8000_0000
  }

  function ToUint32(x: int): int {
    x % 0x1_0000_0000
  }

  /** Bitwise or of a two's-complement number with a non-negative one. */
  function Or(x: int, y: nat): int
    decreases y
  {
    if y == 0 then x else 2 * Or(x / 2, y / 2) + (if x % 2 == 1 || y % 2 == 1 then 1 else 0)
  }

  /** Bitwise and of a two's-complement number with a non-negative one. */
  function And(x: int, y: nat): nat
    decreases y
  {
    if y == 0 then 0 else 2 * And(x / 2, y / 2) + (if x % 2 == 1 && y % 2 == 1 then 1 else 0)
  }

  /** Exclusive or of the k lowest bits. */
  function XorLow(x: nat, y: nat, k: nat): (r: nat)
    ensures r < Pow(2, k)
    decreases k
  {
    if k == 0 then 0 else 2 * XorLow(x / 2, y / 2, k - 1) + (x % 2 + y % 2) % 2
  }

  lemma {:induction false} XorCancels(x: nat, y: nat, z: nat, k: nat)
    requires x < Pow(2, k) && y < Pow(2, k) && XorLow(x, z, k) == XorLow(y, z, k)
    ensures x == y
    decreases k
  {
    if k > 0 {
      LastBitCancels(XorLow(x / 2, z / 2, k - 1), XorLow(y / 2, z / 2, k - 1), x % 2, y % 2, z % 2);
      hide XorLow;
      assert Pow(2, k) == 2 * Pow(2, k - 1);
      XorCancels(x / 2, y / 2, z / 2, k - 1);
    }
  }

  lemma LastBitCancels(p: nat, q: nat, i: nat, j: nat, l: nat)
    requires i < 2 && j < 2 && l < 2 && 2 * p + (i + l) % 2 == 2 * q + (j + l) % 2
    ensures p == q && i == j
  {
  }

  // Shifts: left without wrap, right arithmetic (JavaScript's >> on a signed number, Rust's >> on u32).
  function Shl(x: int, k: nat): int {
    x * Pow(2, k)
  }

  function Shr(x: int, k: nat): int {
    PowPositive(2, k);
    x / Pow(2, k)
  }

  /** The k lowest bits of x, most significant first. */
  function LowBits(x: int, k: nat): (s: seq<bool>)
    ensures |s| == k
    decreases k
  {
    if k == 0 then [] else LowBits(x / 2, k - 1) + [x % 2 == 1]
  }

  function BitsValue(s: seq<bool>): nat {
    if s == [] then 0 else 2 * BitsValue(s[..|s| - 1]) + (if s[|s| - 1] then 1 else 0)
  }

  /** The bit string of a sequence of w-bit groups. */
  function BitsOf(s: seq<int>, w: nat): (r: seq<bool>)
    ensures |r| == w * |s|
  {
    if s == [] then [] else BitsOf(s[..|s| - 1], w) + LowBits(s[|s| - 1], w)
  }

  lemma SmallPowers()
    ensures Pow(2, 4) == 16 && Pow(2, 5) == 32 && Pow(2, 7) == 128 && Pow(2, 8) == 256 && Pow(2, 12) == 4096
    ensures Pow(2, 16) == 0x1_0000 && Pow(2, 24) == 0x100_0000 && Pow(2, 32) == 0x1_0000_0000
  {
    var four: nat := 4;
    assert Pow(2, four) == 16;
    PowAdd(2, four, 4);
    PowAdd(2, 8, 4);
    PowAdd(2, 8, 8);
    PowAdd(2, 16, 8);
    PowAdd(2, 16, 16);
  }

  lemma FiveMoreBits(k: nat)
    ensures Pow(2, k + 5) == 32 * Pow(2, k)
  {
    PowAdd(2, k, 5);
    assert Pow(2, 5) == 32 by { SmallPowers(); }
  }

  // Numbers congruent modulo a power of two are congruent modulo every smaller one.
  lemma CongSmallerPower(x: int, y: int, j: nat, k: nat)
    requires j <= k && Pow(2, k) > 0 && Cong(x, y, Pow(2, k))
    ensures Pow(2, j) > 0 && Cong(x, y, Pow(2, j))
  {
    hide Pow;
    PowPositive(2, j);
    PowAdd(2, k - j, j);
    CongDivisor(x, y, Pow(2, k), Pow(2, j), Pow(2, k - j));
  }

  lemma {:induction false} OrDisjoint(x: int, y: nat, k: nat)
    requires Pow(2, k) > 0 && x % Pow(2, k) == 0 && y < Pow(2, k)
    ensures Or(x, y) == x + y
    decreases k
  {
    if y != 0 {
      var p, q := Pow(2, k - 1), x / Pow(2, k);
      PowPositive(2, k - 1);
      assert x == q * Pow(2, k) == 2 * (q * p);
      DivModUnique(x / 2, p, q, 0);
      OrDisjoint(x / 2, y / 2, k - 1);
    }
  }

  /** Masking with 2^k - 1 keeps the residue, for negative numbers too. */
  lemma {:induction false} AndMask(x: int, k: nat)
    ensures Pow(2, k) > 0 && And(x, Pow(2, k) - 1) == x % Pow(2, k)
    decreases k
  {
    PowPositive(2, k);
    if k > 0 {
      AndMask(x / 2, k - 1);
      DigitStep(x, 2, Pow(2, k - 1));
      assert (Pow(2, k) - 1) / 2 == Pow(2, k - 1) - 1;
    }
  }

  lemma SmallMasks(x: int)
    ensures And(x, 0xf) == x % 16 && And(x, 0x7f) == x % 128 && And(x, 0xff) == x % 256
  {
    hide And, Pow;
    SmallPowers();
    AndMask(x, 4);
    AndMask(x, 7);
    AndMask(x, 8);
  }

  lemma {:induction false} LowBitsSplit(x: int, k: nat, j: nat)
    ensures LowBits(x, k + j) == LowBits(Shr(x, j), k) + LowBits(x, j)
    decreases j
  {
    PowPositive(2, j);
    if j > 0 {
      LowBitsSplit(x / 2, k, j - 1);
      PowPositive(2, j - 1);
      DigitStep(x, 2, Pow(2, j - 1));
      assert Shr(x / 2, j - 1) == Shr(x, j);
    }
  }

  /** Only the residue modulo 2^k matters for the k lowest bits. */
  lemma {:induction false} LowBitsCong(x: int, y: int, k: nat)
    requires Pow(2, k) > 0 && Cong(x, y, Pow(2, k))
    ensures LowBits(x, k) == LowBits(y, k)
    decreases k
  {
    if k > 0 {
      PowPositive(2, k - 1);
      DigitStep(x, 2, Pow(2, k - 1));
      DigitStep(y, 2, Pow(2, k - 1));
      LowBitsCong(x / 2, y / 2, k - 1);
    }
  }

  lemma {:induction false} ValueOfLowBits(x: nat, k: nat)
    requires x < Pow(2, k)
    ensures BitsValue(LowBits(x, k)) == x
  {
    if k > 0 {
      ValueOfLowBits(x / 2, k - 1);
      assert LowBits(x, k)[..k - 1] == LowBits(x / 2, k - 1);
    }
  }

  lemma {:induction false} LowBitsOfValue(s: seq<bool>)
    ensures LowBits(BitsValue(s), |s|) == s && BitsValue(s) < Pow(2, |s|)
  {
    if s != [] {
      LowBitsOfValue(s[..|s| - 1]);
    }
  }

  lemma BitsOfAppend(s: seq<int>, x: int, w: nat)
    ensures BitsOf(s + [x], w) == BitsOf(s, w) + LowBits(x, w)
  {
    assert (s + [x])[..|s|] == s;
  }

  // The i-th of n groups of w bits ends before the string does.
  lemma GroupFits(w: nat, i: nat, n: nat)
    requires i < n
    ensures 0 <= w * i <= w * i + w <= w * n
  {
    var k := n - i - 1;
    assert w * n == w * i + w + w * k;
  }

  ghost predicate IsGroup(bits: seq<bool>, w: nat, i: nat, x: int) {
    0 <= w * i <= w * i + w <= |bits| && LowBits(x, w) == bits[w * i..w * i + w]
  }

  lemma {:induction false} BitsOfSlice(s: seq<int>, w: nat, i: nat)
    requires i < |s|
    ensures IsGroup(BitsOf(s, w), w, i, s[i])
  {
    var n := |s| - 1;
    GroupFits(w, i, |s|);
    assert w * (n + 1) == w * n + w;
    if i < n {
      BitsOfSlice(s[..n], w, i);
      assert BitsOf(s, w)[w * i..w * i + w] == BitsOf(s[..n], w)[w * i..w * i + w];
    }
  }

  lemma GroupOfPrefix(bits: seq<bool>, w: nat, i: nat, n: nat, m: nat, x: int)
    requires i < n && IsGroup(bits, w, i, x) && m == w * n <= |bits|
    ensures IsGroup(bits[..m], w, i, x)
  {
    hide LowBits;
    GroupFits(w, i, n);
    assert bits[..m][w * i..w * i + w] == bits[w * i..w * i + w];
  }

  lemma LastGroup(bits: seq<bool>, w: nat, n: nat, m: nat, x: int)
    requires IsGroup(bits, w, n, x) && m == w * n && |bits| == m + w
    ensures bits == bits[..m] + LowBits(x, w)
  {
    hide LowBits;
    assert bits[m..m + w] == LowBits(x, w);
  }

  /** A bit string is determined by its groups. */
  lemma {:induction false} BitsOfGroups(bits: seq<bool>, w: nat, s: seq<int>)
    requires |bits| == w * |s|
    requires forall i :: 0 <= i < |s| ==> IsGroup(bits, w, i, s[i])
    ensures BitsOf(s, w) == bits
  {
    hide LowBits, IsGroup;
    if s != [] {
      var n, m := |s| - 1, |bits| - w;
      assert m == w * n by {
        assert w * |s| == w * n + w;
      }
      assert m >= 0;
      forall i | 0 <= i < n ensures IsGroup(bits[..m], w, i, s[..n][i]) {
        GroupOfPrefix(bits, w, i, n, m, s[i]);
      }
      BitsOfGroups(bits[..m], w, s[..n]);
      LastGroup(bits, w, n, m, s[n]);
    }
  }
}
