// Combinations "k of n" as bit masks (class `comb` of tools/prdiv_alt.cpp).
//
// A mask is valid when exactly k of its low n bits are set.  The search
// tool uses one combination per LUT to choose which 4 of the b+x register
// bits feed that LUT.

module Combinations {

  import opened Bits

  /** The value of `check()` for mask m: exactly k of the low n bits set. */
  predicate IsValid(m: nat, k: nat, n: nat) {
    m < Pow2(n) && PopCount(m, n) == k
  }

  /** No mask in [a, b) has exactly k of its low n bits set. */
  ghost predicate NoValidIn(a: nat, b: nat, k: nat, n: nat) {
    forall v :: a <= v < b ==> PopCount(v, n) != k
  }

  /** `next()` returning 1 from a mask whose low n bits are lo. */
  ghost predicate Advanced(lo: nat, c: nat, k: nat, n: nat) {
    lo < c && IsValid(c, k, n) && NoValidIn(lo + 1, c, k, n)
  }

  /** `next()` returning 0 from a mask whose low n bits are lo: it rolled over. */
  ghost predicate Wrapped(lo: nat, c: nat, k: nat, n: nat) {
    IsValid(c, k, n) && NoValidIn(lo + 1, Pow2(n), k, n) && NoValidIn(0, c, k, n)
  }

  /** 2^k - 1 is the smallest valid mask. */
  lemma {:induction false} FirstMask(k: nat, n: nat)
    requires k <= n
    ensures IsValid(Pow2(k) - 1, k, n)
    ensures NoValidIn(0, Pow2(k) - 1, k, n)
  {
    PopCountOnes(k, n);
    PowMonotone(k, n);
    forall v | 0 <= v < Pow2(k) - 1
      ensures PopCount(v, n) != k
    {
      PopCountStable(v, k, n);
      if PopCount(v, k) == k {
        PopCountFull(v, k);
        forall j | 0 <= j < k
          ensures Bit(v, j) == Bit(Pow2(k) - 1, j)
        {
          BitOfOnes(k, j);
        }
        BitsDetermine(v, Pow2(k) - 1, k);
      }
    }
  }

  /** A roll-over always lands on the first combination 2^k - 1. */
  lemma WrapIsFirst(lo: nat, c: nat, k: nat, n: nat)
    requires k <= n && Wrapped(lo, c, k, n)
    ensures c == Pow2(k) - 1
  {
    FirstMask(k, n);
  }

  /** The mask reached by a successful `next()` is unique. */
  lemma AdvanceUnique(lo: nat, c1: nat, c2: nat, k: nat, n: nat)
    requires Advanced(lo, c1, k, n) && Advanced(lo, c2, k, n)
    ensures c1 == c2
  {
  }

  /** The text of the low n bits of c, bit n-1 first (`str()`). */
  function MaskText(c: nat, n: nat): (s: string)
    ensures |s| == n
    ensures forall j :: 0 <= j < n ==> s[j] == if Bit(c, n - 1 - j) == 1 then '1' else '0'
  {
    if n == 0 then [] else [if Bit(c, n - 1) == 1 then '1' else '0'] + MaskText(c, n - 1)
  }

  /** Masks below 2^n are told apart by their text. */
  lemma MaskTextInjective(c1: nat, c2: nat, n: nat)
    requires c1 < Pow2(n) && c2 < Pow2(n) && MaskText(c1, n) == MaskText(c2, n)
    ensures c1 == c2
  {
    forall j | 0 <= j < n
      ensures Bit(c1, j) == Bit(c2, j)
    {
      assert MaskText(c1, n)[n - 1 - j] == MaskText(c2, n)[n - 1 - j];
    }
    BitsDetermine(c1, c2, n);
  }

  /**
   * `parseconfig(config)`: the set-bit positions of config below w, in
   * ascending order.
   */
  method ParseConfig(config: nat, w: nat) returns (r: seq<nat>)
    ensures r == PositionsBelow(config, w)
    ensures |r| == PopCount(config, w)
    ensures forall j, l :: 0 <= j < l < |r| ==> r[j] < r[l]
    ensures forall v: nat :: v in r <==> v < w && Bit(config, v) == 1
  {
    r := [];
    var i := 0;
    while i < w
      invariant 0 <= i <= w
      invariant r == PositionsBelow(config, i)
    {
      if Bit(config, i) == 1 {
        r := r + [i];
      }
      i := i + 1;
    }
    forall v: nat | v < w && Bit(config, v) == 1
      ensures v in r
    {
      PositionsComplete(config, w, v);
    }
  }

  /** One `comb` object: the fields k and n never change after construction. */
  class Comb {
    const k: nat
    const n: nat
    var c: nat

    /** `comb(k, n)`: the mask starts at 0, which is not a valid combination. */
    constructor (k: nat, n: nat)
      ensures this.k == k && this.n == n && c == 0
    {
      this.k := k;
      this.n := n;
      c := 0;
    }

    /** `check()`: exactly k of the low n bits of the mask are set. */
    method Check() returns (r: bool)
      ensures r == (PopCount(c, n) == k)
    {
      var o := 0;
      var i := 0;
      while i < n
        invariant 0 <= i <= n
        invariant o == PopCount(c, i)
      {
        o := o + Bit(c, i);
        i := i + 1;
      }
      r := o == k;
    }

    /**
     * `next()`: move to the next valid mask in increasing order.  On
     * running past 2^n - 1 it starts again from 0 and returns false.
     */
    method Next() returns (ok: bool)
      requires 1 <= k <= n
      modifies this
      ensures IsValid(c, k, n)
      ensures ok ==> Advanced(old(c) % Pow2(n), c, k, n)
      ensures !ok ==> Wrapped(old(c) % Pow2(n), c, k, n)
      decreases if c % Pow2(n) == 0 then 0 else 1
    {
      ghost var lo := c % Pow2(n);
      ghost var cur := lo;
      FirstMask(k, n);
      while true
        invariant c % Pow2(n) == cur && lo <= cur < Pow2(n)
        invariant NoValidIn(lo + 1, cur + 1, k, n)
        invariant lo == 0 ==> cur < Pow2(k) - 1
        decreases Pow2(n) - cur
      {
        ModSucc(c, Pow2(n));
        c := (c + 1) % Pow2(n);
        if c == 0 {
          assert lo != 0;
          ModSmall(0, Pow2(n));
          var _ := Next();
          PopCountZero(n);
          return false;
        }
        cur := c;
        ModSmall(c, Pow2(n));
        var valid := Check();
        if valid {
          return true;
        }
      }
    }

    /** `set(i)`: keep i when it is valid, otherwise behave as `next()`. */
    method Set(i: nat) returns (ok: bool)
      requires 1 <= k <= n
      modifies this
      ensures PopCount(i, n) == k ==> ok && c == i
      ensures PopCount(i, n) != k ==> IsValid(c, k, n)
      ensures PopCount(i, n) != k && ok ==> Advanced(i % Pow2(n), c, k, n)
      ensures PopCount(i, n) != k && !ok ==> Wrapped(i % Pow2(n), c, k, n)
    {
      c := i;
      var valid := Check();
      if valid {
        return true;
      }
      ok := Next();
    }

    /**
     * `map(in)`: the bits of v at the set positions of the mask, packed.
     * `ret |= bit << (i - k)` is an addition: that bit of ret is still 0.
     */
    method Map(v: nat) returns (r: nat)
      ensures forall m :: c < Pow2(m) ==> r == PackBelow(c, v, m)
    {
      r := 0;
      var i := 0;
      var skipped := 0;
      var cc := c;
      var input := v;
      while cc != 0
        invariant cc == Shr(c, i) && input == Shr(v, i)
        invariant skipped + PopCount(c, i) == i
        invariant r == PackBelow(c, v, i)
        decreases cc
      {
        ShrBit(c, i);
        ShrBit(v, i);
        if cc % 2 == 1 {
          r := r + (input % 2) * Pow2(i - skipped);
        } else {
          skipped := skipped + 1;
        }
        ShrSucc(c, i);
        ShrSucc(v, i);
        cc := cc / 2;
        input := input / 2;
        i := i + 1;
      }
      ShrZero(c, i);
      forall m | c < Pow2(m)
        ensures r == PackBelow(c, v, m)
      {
        if i <= m {
          PackStable(c, v, i, m);
        } else {
          PackStable(c, v, m, i);
        }
      }
    }

    /** `str()`: the low n bits of the mask, bit n-1 first. */
    method Str() returns (s: string)
      ensures s == MaskText(c, n)
    {
      s := [];
      var i := n - 1;
      while i >= 0
        invariant -1 <= i <= n - 1
        invariant s == MaskText(c, n)[..n - 1 - i]
      {
        s := s + (if Bit(c, i) == 1 then "1" else "0");
        i := i - 1;
      }
    }

    /** `vec()`: the set positions of the mask below n, ascending. */
    method Vec() returns (r: seq<nat>)
      ensures r == PositionsBelow(c, n)
    {
      r := [];
      var i := 0;
      while i < n
        invariant 0 <= i <= n
        invariant r == PositionsBelow(c, i)
      {
        if Bit(c, i) == 1 {
          r := r + [i];
        }
        i := i + 1;
      }
    }
  }

  /**
   * `mass_next(c)`: advance the first combination; whenever one rolls over,
   * carry into the next one, like an odometer.  j is the index of the
   * combination that advanced (|cs| when all rolled over).
   */
  method MassNext(cs: seq<Comb>) returns (ok: bool, ghost j: nat)
    requires forall a, b :: 0 <= a < b < |cs| ==> cs[a] != cs[b]
    requires forall a :: 0 <= a < |cs| ==> 1 <= cs[a].k <= cs[a].n
    modifies set x | x in cs
    ensures j <= |cs| && (ok <==> j < |cs|)
    ensures forall a :: 0 <= a < j ==>
      Wrapped(old(cs[a].c) % Pow2(cs[a].n), cs[a].c, cs[a].k, cs[a].n)
    ensures ok ==> Advanced(old(cs[j].c) % Pow2(cs[j].n), cs[j].c, cs[j].k, cs[j].n)
    ensures forall a :: j < a < |cs| ==> cs[a].c == old(cs[a].c)
  {
    var i := 0;
    while i < |cs|
      invariant 0 <= i <= |cs|
      invariant forall a :: 0 <= a < i ==>
        Wrapped(old(cs[a].c) % Pow2(cs[a].n), cs[a].c, cs[a].k, cs[a].n)
      invariant forall a :: i <= a < |cs| ==> cs[a].c == old(cs[a].c)
    {
      var advanced := cs[i].Next();
      if advanced {
        return true, i;
      }
      i := i + 1;
    }
    return false, |cs|;
  }
}
