// Integers read as bit vectors of unbounded width.
//
// The C++ tools manipulate masks and small integers with `>>`, `&`, `<<`
// and population counts.  Here a value is a `nat`; `Shr(x, i)` is `x >> i`
// and `Bit(x, i)` is `(x >> i) & 1`.  The packing of selected bits done by
// `comb::map` and by the input loops of `eval` is `PackBelow`.

module Bits {

  /** 2 raised to n, that is `1 << n`. */
  function Pow2(n: nat): (r: nat)
    ensures r >= 1
  {
    if n == 0 then 1 else 2 * Pow2(n - 1)
  }

  /** x shifted right by i bits. */
  function Shr(x: nat, i: nat): (r: nat)
    ensures r <= x
  {
    if i == 0 then x else Shr(x / 2, i - 1)
  }

  /** Bit i of x, that is `(x >> i) & 1`. */
  function Bit(x: nat, i: nat): (r: nat)
    ensures r < 2
  {
    if i == 0 then x % 2 else Bit(x / 2, i - 1)
  }

  /** Number of set bits among bits 0..n-1 of x. */
  function PopCount(x: nat, n: nat): (r: nat)
    ensures r <= n
  {
    if n == 0 then 0 else PopCount(x, n - 1) + Bit(x, n - 1)
  }

  /** The set-bit positions of c below n, in ascending order. */
  function PositionsBelow(c: nat, n: nat): (r: seq<nat>)
    ensures |r| == PopCount(c, n)
    ensures forall j :: 0 <= j < |r| ==> r[j] < n && Bit(c, r[j]) == 1
    ensures forall j, k :: 0 <= j < k < |r| ==> r[j] < r[k]
  {
    if n == 0 then []
    else PositionsBelow(c, n - 1) + (if Bit(c, n - 1) == 1 then [n - 1] else [])
  }

  /** Every set position of c below n is listed. */
  lemma {:induction false} PositionsComplete(c: nat, n: nat, v: nat)
    requires v < n && Bit(c, v) == 1
    ensures v in PositionsBelow(c, n)
  {
    if v < n - 1 {
      PositionsComplete(c, n - 1, v);
    }
  }

  /**
   * The bits of v at the set positions of c below n, packed densely:
   * the j-th lowest set position of c supplies bit j of the result.
   */
  function PackBelow(c: nat, v: nat, n: nat): (r: nat)
    ensures r < Pow2(PopCount(c, n))
  {
    if n == 0 then 0
    else
      var low := PackBelow(c, v, n - 1);
      if Bit(c, n - 1) == 1 then
        low + Bit(v, n - 1) * Pow2(PopCount(c, n - 1))
      else low
  }

  // ---------------------------------------------------------------
  // Powers and shifts.

  lemma PowMonotone(m: nat, n: nat)
    requires m <= n
    ensures Pow2(m) <= Pow2(n)
  {
    if m < n {
      PowMonotone(m, n - 1);
    }
  }

  /** Shifting once more halves the value. */
  lemma {:induction false} ShrSucc(x: nat, i: nat)
    ensures Shr(x, i + 1) == Shr(x, i) / 2
  {
    if i > 0 {
      ShrSucc(x / 2, i - 1);
    }
  }

  /** The lowest bit of x >> i is bit i of x. */
  lemma {:induction false} ShrBit(x: nat, i: nat)
    ensures Bit(x, i) == Shr(x, i) % 2
  {
    if i > 0 {
      ShrBit(x / 2, i - 1);
    }
  }

  /** x >> n is zero exactly when x is below 2^n. */
  lemma {:induction false} ShrZero(x: nat, n: nat)
    ensures Shr(x, n) == 0 <==> x < Pow2(n)
  {
    if n > 0 {
      ShrZero(x / 2, n - 1);
    }
  }

  /** A value below 2^n has no bits at or above n. */
  lemma {:induction false} BitAbove(x: nat, n: nat, i: nat)
    requires x < Pow2(n) && n <= i
    ensures Bit(x, i) == 0
  {
    if i > 0 {
      BitAbove(x / 2, if n == 0 then 0 else n - 1, i - 1);
    }
  }

  /** Values below 2^n with the same low n bits are equal. */
  lemma {:induction false} BitsDetermine(x: nat, y: nat, n: nat)
    requires x < Pow2(n) && y < Pow2(n)
    requires forall i :: 0 <= i < n ==> Bit(x, i) == Bit(y, i)
    ensures x == y
  {
    if n > 0 {
      assert Bit(x, 0) == Bit(y, 0);
      forall i | 0 <= i < n - 1
        ensures Bit(x / 2, i) == Bit(y / 2, i)
      {
        assert Bit(x, i + 1) == Bit(y, i + 1);
      }
      BitsDetermine(x / 2, y / 2, n - 1);
    }
  }

  /** Adding bit c at position m to a value below 2^m: the bits of the sum. */
  lemma {:induction false} BitOfSum(a: nat, m: nat, c: nat, j: nat)
    requires a < Pow2(m) && c <= 1
    ensures Bit(a + c * Pow2(m), j) == if j < m then Bit(a, j) else if j == m then c else 0
  {
    if m == 0 {
      if j > 0 {
        BitAbove(c / 2, 0, j - 1);
      }
    } else {
      var y := a + c * Pow2(m);
      assert y / 2 == a / 2 + c * Pow2(m - 1) && y % 2 == a % 2;
      if j > 0 {
        BitOfSum(a / 2, m - 1, c, j - 1);
      }
    }
  }

  /** The bits of 2^k - 1: ones below k, zeros from k on. */
  lemma {:induction false} BitOfOnes(k: nat, j: nat)
    ensures Bit(Pow2(k) - 1, j) == if j < k then 1 else 0
  {
    if k == 0 {
      BitAbove(0, 0, j);
    } else if j > 0 {
      assert (Pow2(k) - 1) / 2 == Pow2(k - 1) - 1;
      BitOfOnes(k - 1, j - 1);
    }
  }

  /** 2^k - 1 has exactly min(k, n) ones among its low n bits. */
  lemma {:induction false} PopCountOnes(k: nat, n: nat)
    ensures PopCount(Pow2(k) - 1, n) == if n <= k then n else k
  {
    if n > 0 {
      PopCountOnes(k, n - 1);
      BitOfOnes(k, n - 1);
    }
  }

  /** Bits at or above n do not change the counts below n. */
  lemma {:induction false} PopCountStable(c: nat, n: nat, m: nat)
    requires c < Pow2(n) && n <= m
    ensures PopCount(c, m) == PopCount(c, n)
    ensures PositionsBelow(c, m) == PositionsBelow(c, n)
  {
    if m > n {
      PopCountStable(c, n, m - 1);
      BitAbove(c, n, m - 1);
    }
  }

  /** The packed value does not depend on bits above the top of c. */
  lemma {:induction false} PackStable(c: nat, v: nat, n: nat, m: nat)
    requires c < Pow2(n) && n <= m
    ensures PackBelow(c, v, m) == PackBelow(c, v, n)
  {
    if m > n {
      PackStable(c, v, n, m - 1);
      BitAbove(c, n, m - 1);
    }
  }

  /** Bit j of the packed value is the bit of v at the j-th set position of c. */
  lemma {:induction false} PackBit(c: nat, v: nat, n: nat, j: nat)
    ensures Bit(PackBelow(c, v, n), j) ==
      if j < PopCount(c, n) then Bit(v, PositionsBelow(c, n)[j]) else 0
  {
    if j >= PopCount(c, n) {
      BitAbove(PackBelow(c, v, n), PopCount(c, n), j);
    } else {
      var low := PackBelow(c, v, n - 1);
      var k := PopCount(c, n - 1);
      var pos := PositionsBelow(c, n);
      var lowPos := PositionsBelow(c, n - 1);
      if Bit(c, n - 1) == 1 {
        assert pos == lowPos + [n - 1];
        BitOfSum(low, k, Bit(v, n - 1), j);
        if j < k {
          PackBit(c, v, n - 1, j);
          assert pos[j] == lowPos[j];
        } else {
          assert pos[j] == n - 1;
        }
      } else {
        assert pos == lowPos;
        PackBit(c, v, n - 1, j);
      }
    }
  }


  /** Setting a clear bit i (`x | (1 << i)` when bit i of x is 0). */
  lemma {:induction false} BitSet(x: nat, i: nat, j: nat)
    requires Bit(x, i) == 0
    ensures Bit(x + Pow2(i), j) == if j == i then 1 else Bit(x, j)
  {
    var y := x + Pow2(i);
    if i == 0 {
      assert y / 2 == x / 2;
    } else {
      assert y / 2 == x / 2 + Pow2(i - 1) && y % 2 == x % 2;
      if j > 0 {
        BitSet(x / 2, i - 1, j - 1);
      }
    }
  }

  /** Setting a clear bit below n keeps the value below 2^n. */
  lemma {:induction false} BitSetBound(x: nat, i: nat, n: nat)
    requires Bit(x, i) == 0 && x < Pow2(n) && i < n
    ensures x + Pow2(i) < Pow2(n)
  {
    assert Pow2(n) == 2 * Pow2(n - 1);
    if i > 0 {
      assert Pow2(i) == 2 * Pow2(i - 1);
      assert x / 2 < Pow2(n - 1);
      BitSetBound(x / 2, i - 1, n - 1);
      assert x == 2 * (x / 2) + x % 2;
    } else {
      assert x % 2 == 0;
    }
  }

  /** Clearing a set bit i (`x - (1 << i)` when bit i of x is 1). */
  lemma {:induction false} BitClear(x: nat, i: nat, j: nat)
    requires Bit(x, i) == 1
    ensures x >= Pow2(i)
    ensures Bit(x - Pow2(i), j) == if j == i then 0 else Bit(x, j)
  {
    if i > 0 {
      BitClear(x / 2, i - 1, i - 1);
      var y := x - Pow2(i);
      assert y / 2 == x / 2 - Pow2(i - 1) && y % 2 == x % 2;
      if j > 0 {
        BitClear(x / 2, i - 1, j - 1);
      }
    } else {
      var y := x - 1;
      assert y / 2 == x / 2;
    }
  }

  /** `x | (1 << i)` when bit i of x is clear: only bit i changes. */
  lemma SetBitFacts(x: nat, i: nat)
    ensures Bit(x, i) == 0 ==> Bit(x + Pow2(i), i) == 1
    ensures Bit(x, i) == 0 ==> forall j :: j != i ==> Bit(x + Pow2(i), j) == Bit(x, j)
  {
    if Bit(x, i) == 0 {
      BitSet(x, i, i);
      forall j | j != i
        ensures Bit(x + Pow2(i), j) == Bit(x, j)
      {
        BitSet(x, i, j);
      }
    }
  }

  /** `x - (1 << i)` when bit i of x is set: only bit i changes. */
  lemma ClearBitFacts(x: nat, i: nat)
    ensures Bit(x, i) == 1 ==> x >= Pow2(i)
    ensures Bit(x, i) == 1 ==> Bit(x - Pow2(i), i) == 0
    ensures Bit(x, i) == 1 ==> forall j :: j != i ==> Bit(x - Pow2(i), j) == Bit(x, j)
  {
    if Bit(x, i) == 1 {
      BitClear(x, i, i);
      forall j | j != i
        ensures Bit(x - Pow2(i), j) == Bit(x, j)
      {
        BitClear(x, i, j);
      }
    }
  }

  // ---------------------------------------------------------------
  // Division facts (Dafny's nonlinear reasoning is weak, so these are
  // proved by hand).

  lemma MulAtLeast(d: int, k: int)
    requires d > 0 && k >= 1
    ensures d * k >= d
  {
    var j := k - 1;
    assert d * k == d * j + d;
    assert d * j >= 0;
  }

  /** Quotient and remainder are determined by the division equation. */
  lemma DivModUnique(x: int, d: int, q: int, r: int)
    requires d > 0 && 0 <= r < d && x == d * q + r
    ensures x / d == q && x % d == r
  {
    var q', r' := x / d, x % d;
    assert d * q' + r' == d * q + r;
    assert d * (q' - q) == r - r';
    if q' - q >= 1 {
      MulAtLeast(d, q' - q);
      assert false;
    } else if q - q' >= 1 {
      assert d * (q - q') == r' - r;
      MulAtLeast(d, q - q');
      assert false;
    }
  }

  /** `(c + 1) & (N - 1)` for N a power of two, read as a remainder. */
  lemma ModSucc(c: nat, d: nat)
    requires d > 0
    ensures (c + 1) % d == if c % d + 1 == d then 0 else c % d + 1
  {
    var q := c / d;
    if c % d + 1 == d {
      DivModUnique(c + 1, d, q + 1, 0);
    } else {
      DivModUnique(c + 1, d, q, c % d + 1);
    }
  }

  /** A value below 2^n is its own remainder. */
  lemma ModSmall(c: nat, d: nat)
    requires c < d
    ensures c % d == c
  {
    DivModUnique(c, d, 0, c);
  }

  /** Zero has no set bits. */
  lemma {:induction false} PopCountZero(n: nat)
    ensures PopCount(0, n) == 0
  {
    if n > 0 {
      PopCountZero(n - 1);
      BitAbove(0, 0, n - 1);
    }
  }

  /** A full count means every bit is set. */
  lemma {:induction false} PopCountFull(x: nat, n: nat)
    requires PopCount(x, n) == n
    ensures forall j :: 0 <= j < n ==> Bit(x, j) == 1
  {
    if n > 0 {
      assert PopCount(x, n - 1) <= n - 1;
      PopCountFull(x, n - 1);
    }
  }

}
