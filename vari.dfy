// Variations without repetition (class `vari` of tools/prdiv_alt.cpp).
//
// A variation picks k of the n values of a range, in order, each at most
// once.  The class keeps it as a digit vector s in the factorial number
// system: digit i lies in [0, n-i) and says which of the values not yet
// picked comes next.  `Rank` reads the first t digits as one number (the
// radices are n, n-1, ...), `Decode` turns the digits into the picked
// values.

module Variations {

  import opened Bits

  // ---------------------------------------------------------------
  // Counting.

  /** n * (n-1) * ... * (n-t+1), the number of variations of t out of n. */
  function Falling(n: nat, t: nat): nat
  {
    if t == 0 then 1 else if t > n then 0 else Falling(n, t - 1) * (n - t + 1)
  }

  function Factorial(n: nat): nat
  {
    if n == 0 then 1 else n * Factorial(n - 1)
  }

  /** a * (a+1) * ... * (b-1); 1 when the range is empty. */
  function Product(a: int, b: int): int
    decreases b - a
  {
    if b <= a then 1 else Product(a, b - 1) * (b - 1)
  }

  /** Peeling the lowest factor off a product. */
  lemma {:induction false} ProductLow(a: int, b: int)
    requires a < b
    ensures Product(a, b) == a * Product(a + 1, b)
    decreases b - a
  {
    if a + 1 < b {
      ProductLow(a, b - 1);
      calc {
        Product(a, b);
        Product(a, b - 1) * (b - 1);
        (a * Product(a + 1, b - 1)) * (b - 1);
        a * (Product(a + 1, b - 1) * (b - 1));
        a * Product(a + 1, b);
      }
    }
  }

  /** A product over a range containing 0 is 0. */
  lemma {:induction false} ProductZero(a: int, b: int)
    requires a <= 0 < b
    ensures Product(a, b) == 0
    decreases b - a
  {
    if b - 1 > 0 {
      ProductZero(a, b - 1);
    }
  }

  /** The falling factorial is the product of n-t+1 .. n. */
  lemma {:induction false} FallingIsProduct(n: nat, t: nat)
    ensures Falling(n, t) == Product(n - t + 1, n + 1)
  {
    if t == 0 {
    } else if t > n {
      ProductZero(n - t + 1, n + 1);
    } else {
      FallingIsProduct(n, t - 1);
      ProductLow(n - t + 1, n + 1);
      var f := Falling(n, t - 1);
      var m := n - t + 1;
      assert f == Product(m + 1, n + 1);
      assert Falling(n, t) == f * m;
      assert Product(m, n + 1) == m * f;
    }
  }

  /** Variations of t out of n times arrangements of the rest give n!. */
  lemma {:induction false} FallingTimesFactorial(n: nat, t: nat)
    requires t <= n
    ensures Falling(n, t) * Factorial(n - t) == Factorial(n)
  {
    if t > 0 {
      FallingTimesFactorial(n, t - 1);
      var f := Falling(n, t - 1);
      var m := n - t + 1;
      var g := Factorial(n - t);
      assert Falling(n, t) == f * m;
      assert Factorial(n - (t - 1)) == m * g;
      MulAssociates(f, m, g);
    }
  }

  lemma MulAssociates(a: int, b: int, c: int)
    ensures (a * b) * c == a * (b * c)
  {
  }

  /** All n values in order: n!. */
  lemma FallingFull(n: nat)
    ensures Falling(n, n) == Factorial(n)
  {
    FallingTimesFactorial(n, n);
  }

  /** `fact(in)`: 1 * 2 * ... * in (1 when in < 2). */
  method Fact(x: int) returns (o: int)
    ensures o == Factorial(if x < 0 then 0 else x)
  {
    o := 1;
    var i := 2;
    while i <= x
      invariant 2 <= i <= (if x < 2 then 2 else x + 1)
      invariant o == Factorial(i - 1)
    {
      o := o * i;
      i := i + 1;
    }
    assert Factorial(1) == 1;
  }

  // ---------------------------------------------------------------
  // Digit vectors.

  /** Digit i lies in [0, n-i) for every i < t. */
  ghost predicate DigitsValid(s: seq<nat>, t: nat, n: nat)
    requires t <= |s|
  {
    forall i :: 0 <= i < t ==> s[i] < n - i
  }

  /** The first t digits read as one number, most significant first. */
  function Rank(s: seq<nat>, t: nat, n: nat): (r: int)
    requires t <= |s|
  {
    if t == 0 then 0 else Rank(s, t - 1, n) * (n - (t - 1)) + s[t - 1]
  }

  /** Valid digits give a rank below the number of variations. */
  lemma {:induction false} RankBound(s: seq<nat>, t: nat, n: nat)
    requires t <= |s| && t <= n && DigitsValid(s, t, n)
    ensures 0 <= Rank(s, t, n) < Falling(n, t)
  {
    if t > 0 {
      RankBound(s, t - 1, n);
      var a := Rank(s, t - 1, n);
      var f := Falling(n, t - 1);
      var m := n - (t - 1);
      assert a <= f - 1;
      assert a * m <= (f - 1) * m by {
        MulMonotone(a, f - 1, m);
      }
      assert a * m >= 0 by {
        MulMonotone(0, a, m);
      }
      assert (f - 1) * m == f * m - m;
    }
  }

  lemma MulMonotone(a: int, b: int, m: int)
    requires a <= b && m >= 0
    ensures a * m <= b * m
  {
  }

  /**
   * Valid digit vectors with equal rank are equal: together with
   * `RankBound`, ranks number the variations one-to-one.
   */
  lemma {:induction false} RankInjective(s: seq<nat>, u: seq<nat>, t: nat, n: nat)
    requires t <= |s| && t <= |u| && DigitsValid(s, t, n) && DigitsValid(u, t, n)
    requires Rank(s, t, n) == Rank(u, t, n)
    ensures s[..t] == u[..t]
  {
    if t > 0 {
      var m := n - (t - 1);
      var x := Rank(s, t, n);
      DivModUnique(x, m, Rank(s, t - 1, n), s[t - 1]);
      DivModUnique(x, m, Rank(u, t - 1, n), u[t - 1]);
      RankInjective(s, u, t - 1, n);
      assert s[..t] == s[..t - 1] + [s[t - 1]];
      assert u[..t] == u[..t - 1] + [u[t - 1]];
    }
  }

  /** The rank of an all-zero prefix is 0. */
  lemma {:induction false} RankZeros(s: seq<nat>, t: nat, n: nat)
    requires t <= |s| && forall i :: 0 <= i < t ==> s[i] == 0
    ensures Rank(s, t, n) == 0
  {
    if t > 0 {
      RankZeros(s, t - 1, n);
    }
  }

  /** Digit vectors that agree on [m, t) and have equal rank at m agree at t. */
  lemma {:induction false} RankAgree(s: seq<nat>, u: seq<nat>, m: nat, t: nat, n: nat)
    requires m <= t <= |s| && t <= |u|
    requires forall i :: m <= i < t ==> s[i] == u[i]
    requires Rank(s, m, n) == Rank(u, m, n)
    ensures Rank(s, t, n) == Rank(u, t, n)
  {
    if t > m {
      RankAgree(s, u, m, t - 1, n);
    }
  }

  /** A prefix `n, 0, 0, ...` has overflowed to exactly Falling(n, t). */
  lemma {:induction false} RankOverflow(s: seq<nat>, t: nat, n: nat)
    requires 1 <= t <= |s| && t <= n && s[0] == n
    requires forall i :: 0 < i < t ==> s[i] == 0
    ensures Rank(s, t, n) == Falling(n, t)
  {
    if t > 1 {
      RankOverflow(s, t - 1, n);
    }
  }

  /**
   * Digits of rank R are related by the carry step at position i: digit i
   * that reached its radix becomes 0 and digit i-1 goes up by one.
   */
  lemma CarryKeepsRank(s: seq<nat>, i: nat, t: nat, n: nat)
    requires 1 <= i < t <= |s| && s[i] == n - i
    ensures Rank(s[i := 0][i - 1 := s[i - 1] + 1], t, n) == Rank(s, t, n)
  {
    var u := s[i := 0][i - 1 := s[i - 1] + 1];
    RankAgree(s, u, 0, i - 1, n);
    assert Rank(u, i, n) == Rank(s, i, n) + 1;
    calc {
      Rank(u, i + 1, n);
      Rank(u, i, n) * (n - i) + 0;
      (Rank(s, i, n) + 1) * (n - i);
      Rank(s, i, n) * (n - i) + (n - i);
      Rank(s, i + 1, n);
    }
    RankAgree(s, u, i + 1, t, n);
  }

  // ---------------------------------------------------------------
  // Decoding digits into values.

  /** `r.erase(r.begin() + j)`. */
  function Remove(r: seq<int>, j: nat): (r': seq<int>)
    requires j < |r|
    ensures |r'| == |r| - 1
    ensures forall i :: 0 <= i < j ==> r'[i] == r[i]
    ensures forall i :: j <= i < |r'| ==> r'[i] == r[i + 1]
  {
    r[..j] + r[j + 1..]
  }

  /** Digits fit a range of |r| values. */
  ghost predicate Fits(r: seq<int>, ds: seq<nat>) {
    forall i :: 0 <= i < |ds| ==> ds[i] < |r| - i
  }

  /** What is left after the first pick still fits the remaining digits. */
  lemma FitsTail(r: seq<int>, ds: seq<nat>)
    requires Fits(r, ds) && ds != []
    ensures Fits(Remove(r, ds[0]), ds[1..])
  {
    var rest := Remove(r, ds[0]);
    forall i | 0 <= i < |ds| - 1
      ensures ds[1..][i] < |rest| - i
    {
      assert ds[i + 1] < |r| - (i + 1);
    }
  }

  /** Pick `r[d]` for each digit d, removing each picked value from r. */
  function Decode(r: seq<int>, ds: seq<nat>): (res: seq<int>)
    requires Fits(r, ds)
    ensures |res| == |ds|
  {
    if ds == [] then []
    else
      var rest := Remove(r, ds[0]);
      FitsTail(r, ds);
      [r[ds[0]]] + Decode(rest, ds[1..])
  }

  /** No value occurs twice. */
  predicate Distinct(r: seq<int>) {
    forall i, j :: 0 <= i < j < |r| ==> r[i] != r[j]
  }

  /** Removing from a sequence without repeats keeps it without repeats. */
  lemma RemoveDistinct(r: seq<int>, j: nat)
    requires j < |r| && Distinct(r)
    ensures Distinct(Remove(r, j))
    ensures r[j] !in Remove(r, j)
  {
    var u := Remove(r, j);
    assert u == r[..j] + r[j + 1..];
    forall a, b | 0 <= a < b < |u|
      ensures u[a] != u[b]
    {
      var ia := if a < j then a else a + 1;
      var ib := if b < j then b else b + 1;
      assert u[a] == r[ia] && u[b] == r[ib];
    }
    forall a | 0 <= a < |u|
      ensures u[a] != r[j]
    {
      var ia := if a < j then a else a + 1;
      assert u[a] == r[ia];
    }
  }

  /** Decoding a range without repeats picks distinct values of the range. */
  lemma {:induction false} DecodeDistinct(r: seq<int>, ds: seq<nat>)
    requires Fits(r, ds) && Distinct(r)
    ensures Distinct(Decode(r, ds))
    ensures forall v :: v in Decode(r, ds) ==> v in r
  {
    if ds != [] {
      var rest := Remove(r, ds[0]);
      RemoveDistinct(r, ds[0]);
      FitsTail(r, ds);
      DecodeDistinct(rest, ds[1..]);
      var tail := Decode(rest, ds[1..]);
      assert Decode(r, ds) == [r[ds[0]]] + tail;
      forall v | v in rest
        ensures v in r
      {
        var a :| 0 <= a < |rest| && rest[a] == v;
        assert r[if a < ds[0] then a else a + 1] == v;
      }
    }
  }

  /** All-zero digits pick the first |ds| values in order. */
  lemma {:induction false} DecodeZeros(r: seq<int>, ds: seq<nat>)
    requires |ds| <= |r| && forall i :: 0 <= i < |ds| ==> ds[i] == 0
    ensures Fits(r, ds)
    ensures Decode(r, ds) == r[..|ds|]
  {
    assert Fits(r, ds) by {
      forall i | 0 <= i < |ds|
        ensures ds[i] < |r| - i
      {
      }
    }
    if ds != [] {
      var tail := ds[1..];
      assert Remove(r, 0) == r[1..];
      assert forall i :: 0 <= i < |tail| ==> tail[i] == ds[i + 1];
      DecodeZeros(r[1..], tail);
      FitsTail(r, ds);
      assert Decode(r, ds) == [r[0]] + Decode(r[1..], tail);
      PrefixCons(r, |ds|);
    }
  }

  /** The first n values are the first one, then the first n - 1 of the rest. */
  lemma PrefixCons(r: seq<int>, n: nat)
    requires 1 <= n <= |r|
    ensures r[..n] == [r[0]] + r[1..][..n - 1]
  {
  }

  /** Different digit vectors pick different variations (the code is one-to-one). */
  lemma {:induction false} DecodeInjective(r: seq<int>, ds: seq<nat>, es: seq<nat>)
    requires Fits(r, ds) && Fits(r, es) && |ds| == |es| && Distinct(r)
    requires Decode(r, ds) == Decode(r, es)
    ensures ds == es
  {
    if ds != [] {
      assert Decode(r, ds)[0] == r[ds[0]];
      assert Decode(r, es)[0] == r[es[0]];
      assert ds[0] == es[0];
      var rest := Remove(r, ds[0]);
      RemoveDistinct(r, ds[0]);
      FitsTail(r, ds);
      FitsTail(r, es);
      assert Decode(rest, ds[1..]) == Decode(r, ds)[1..];
      assert Decode(rest, es[1..]) == Decode(r, es)[1..];
      DecodeInjective(rest, ds[1..], es[1..]);
      assert ds == [ds[0]] + ds[1..] && es == [es[0]] + es[1..];
    }
  }

  /** The values l, l+1, ..., h. */
  function Range(l: int, h: int): (r: seq<int>)
    ensures |r| == if h < l then 0 else h - l + 1
    ensures forall i :: 0 <= i < |r| ==> r[i] == l + i
    decreases h - l
  {
    if h < l then [] else Range(l, h - 1) + [h]
  }

  lemma RangeDistinct(l: int, h: int)
    ensures Distinct(Range(l, h))
  {
  }

  // ---------------------------------------------------------------
  // The object.

  /** The first loop of the `vari` constructor: the values l..h in order. */
  method RangeOf(l: int, h: int) returns (rng: seq<int>)
    ensures rng == Range(l, h)
  {
    rng := [];
    var i := l;
    while i <= h
      invariant l <= i <= h + 1 || (h < l && i == l)
      invariant rng == Range(l, i - 1)
    {
      rng := rng + [i];
      i := i + 1;
    }
  }

  /**
   * The second loop of the `vari` constructor: k zero digits, and the
   * values they pick, each taken from the front of what is left.
   */
  method FirstPick(rng: seq<int>, k: nat) returns (digits: seq<nat>, res: seq<int>)
    requires k <= |rng|
    ensures digits == seq(k, _ => 0) && res == rng[..k]
  {
    var r := rng;
    digits := [];
    res := [];
    var j := 0;
    while j < k
      invariant 0 <= j <= k
      invariant digits == seq(j, _ => 0)
      invariant r == rng[j..] && res == rng[..j]
    {
      digits := digits + [0];
      assert rng[..j + 1] == rng[..j] + [r[0]];
      res := res + [r[0]];
      r := Remove(r, 0);
      assert r == rng[j + 1..];
      j := j + 1;
    }
  }

  /** The first k values of l..h are l..l+k-1. */
  lemma RangePrefix(l: int, h: int, k: nat)
    requires k <= h - l + 1
    ensures Range(l, h)[..k] == Range(l, l + k - 1)
  {
  }

  /**
   * One `vari` object over the values l..h, picking k of them.  `get()`
   * is reading the field `result`.
   */
  class Vari {
    const k: nat
    const n: nat
    const range: seq<int>
    var s: seq<nat>
    var result: seq<int>

    /**
     * The state every method keeps: k digits within their radices, and a
     * result of k distinct values of the range.  The result is the decoded
     * digits after every successful step, but a roll-over leaves it as it
     * was (see `Next`).
     */
    ghost predicate Valid()
      reads this
    {
      && k <= n && |range| == n && Distinct(range)
      && |s| == k && DigitsValid(s, k, n)
      && |result| == k && Distinct(result)
      && (forall v :: v in result ==> v in range)
    }

    /** `vari(l, h, k)`: all digits 0, so the result is l, l+1, ..., l+k-1. */
    constructor (l: int, h: int, k: nat)
      requires k <= h - l + 1
      ensures this.k == k && n == h - l + 1 && range == Range(l, h)
      ensures s == seq(k, _ => 0)
      ensures result == Range(l, l + k - 1)
      ensures Valid() && result == Decode(range, s)
    {
      var rng := RangeOf(l, h);
      var digits, res := FirstPick(rng, k);
      RangePrefix(l, h, k);
      this.n := h - l + 1;
      this.k := k;
      range := rng;
      s := digits;
      result := res;
      new;
      RangeDistinct(l, h);
      DecodeZeros(range, s);
      DecodeDistinct(range, s);
    }

    /** The copy made when a `vari` is passed by value. */
    constructor Clone(other: Vari)
      requires other.Valid()
      ensures k == other.k && n == other.n && range == other.range
      ensures s == other.s && result == other.result
      ensures Valid()
    {
      k := other.k;
      n := other.n;
      range := other.range;
      s := other.s;
      result := other.result;
    }

    /** The number of leading digits `next_state(num)` works on. */
    function Prefix(num: nat): (t: nat)
      requires 1 <= k
      ensures 1 <= t <= k
      ensures num < k ==> t == num + 1
    {
      (if num > k - 1 then k - 1 else num) + 1
    }

    /**
     * `next_state(num)`: add one to the first t = min(num, k-1) + 1 digits
     * read as a mixed-radix number and zero the digits after them.  On
     * overflow the first t digits are all 0, the rest are left alone, and
     * the result is false.
     */
    method NextState(num: nat) returns (ok: bool)
      requires Valid() && 1 <= k
      modifies this
      ensures Valid() && result == old(result)
      ensures ok <==> Rank(old(s), Prefix(num), n) + 1 < Falling(n, Prefix(num))
      ensures ok ==> Rank(s, Prefix(num), n) == Rank(old(s), Prefix(num), n) + 1
      ensures ok ==> forall i :: Prefix(num) <= i < k ==> s[i] == 0
      ensures !ok ==> forall i :: 0 <= i < Prefix(num) ==> s[i] == 0
      ensures !ok ==> s[Prefix(num)..] == old(s)[Prefix(num)..]
    {
      var t := Prefix(num);
      var top := t - 1;
      ghost var target := Rank(s, t, n) + 1;
      RankBound(s, t, n);
      var ds: seq<nat> := s[top := s[top] + 1];
      RankAgree(s, ds, 0, top, n);
      var overflow := false;
      var i: int := top;
      while i >= 0
        invariant -1 <= i <= top && |ds| == k && unchanged(this)
        invariant forall j :: 0 <= j < i ==> ds[j] == s[j]
        invariant i >= 0 ==> ds[i] <= n - i
        invariant forall j :: i < j < t ==> ds[j] < n - j
        invariant forall j :: t <= j < k ==> ds[j] == s[j]
        invariant Rank(ds, t, n) == target
        invariant i >= 0 && ds[i] == n - i ==> forall j :: i < j < t ==> ds[j] == 0
      {
        if ds[i] > n - i - 1 {
          if i == 0 {
            RankOverflow(ds, t, n);
            ds := ds[0 := 0];
            overflow := true;
            break;
          }
          CarryKeepsRank(ds, i, t, n);
          ds := ds[i := 0][i - 1 := ds[i - 1] + 1];
        }
        i := i - 1;
      }
      if overflow {
        s := ds;
        return false;
      }
      RankBound(ds, t, n);
      var j := t;
      while j < k
        invariant t <= j <= k && |ds| == k && unchanged(this)
        invariant forall a :: 0 <= a < t ==> ds[a] < n - a
        invariant forall a :: t <= a < j ==> ds[a] == 0
        invariant Rank(ds, t, n) == target
      {
        ghost var before := ds;
        ds := ds[j := 0];
        RankAgree(before, ds, 0, t, n);
        j := j + 1;
      }
      s := ds;
      return true;
    }

    /**
     * `next(num)`: step the digits with `next_state(num)` and, unless that
     * rolled over, decode them into a new result.
     */
    method Next(num: nat) returns (ok: bool)
      requires Valid() && 1 <= k
      modifies this
      ensures Valid()
      ensures ok <==> Rank(old(s), Prefix(num), n) + 1 < Falling(n, Prefix(num))
      ensures ok ==> Rank(s, Prefix(num), n) == Rank(old(s), Prefix(num), n) + 1
      ensures ok ==> forall i :: Prefix(num) <= i < k ==> s[i] == 0
      ensures ok ==> result == Decode(range, s)
      ensures !ok ==> forall i :: 0 <= i < Prefix(num) ==> s[i] == 0
      ensures !ok ==> s[Prefix(num)..] == old(s)[Prefix(num)..]
      ensures !ok ==> result == old(result)
    {
      ok := NextState(num);
      if !ok {
        return;
      }
      var res := DecodeDigits();
      DecodeDistinct(range, s);
      result := res;
    }

    /** The decoding loop of `next`: pick `r[s[i]]` and erase it, for each i. */
    method DecodeDigits() returns (res: seq<int>)
      requires Valid()
      ensures Fits(range, s) && res == Decode(range, s)
    {
      assert Fits(range, s) && s[0..] == s;
      var r := range;
      res := [];
      var i := 0;
      while i < k
        invariant 0 <= i <= k
        invariant Fits(r, s[i..])
        invariant res + Decode(r, s[i..]) == Decode(range, s)
      {
        var rest := s[i..];
        assert rest[1..] == s[i + 1..];
        FitsTail(r, rest);
        assert Decode(r, rest) == [r[s[i]]] + Decode(Remove(r, s[i]), s[i + 1..]);
        res := res + [r[s[i]]];
        r := Remove(r, s[i]);
        i := i + 1;
      }
      assert s[k..] == [];
    }

    /** `cases()`: the number of variations, n * (n-1) * ... * (n-k+1). */
    method Cases() returns (r: int)
      ensures r == Falling(n, k)
    {
      r := 1;
      var i: int := n - k + 1;
      while i <= n
        invariant n - k + 1 <= i <= n + 1
        invariant r == Product(n - k + 1, i)
      {
        r := r * i;
        i := i + 1;
      }
      FallingIsProduct(n, k);
    }
  }
}
