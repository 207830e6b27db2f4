// The brute-force search kernel shared by tools/prcnt.cpp and
// tools/prdiv.cpp (the two files carry the same text for it).
//
// A candidate circuit is a w-bit shift register (w = b + x): each clock the
// register shifts left by one and a new bit 0 comes from one LUT, or from a
// second LUT fed by the first.  `config1` and `config2` choose which
// register bits feed the LUTs, the 32-bit `data` word holds both LUT
// contents (LUT1 in the low 16 bits, LUT2 in the high 16 bits).  The tools
// step through configurations and LUT contents ("reactors") and simulate
// each candidate until the low b bits of the register count with period p.

module Brute {

  import opened Bits
  import opened Combinations

  /** Number of values of a 16-bit LUT content. */
  const Word: nat := 65536

  // ---------------------------------------------------------------
  // `nextconfig` and `nextreactor`: the next value, cyclically, that meets
  // a goal.

  /**
   * What the search loops of `nextconfig` and `nextreactor` look for:
   * a w-bit value with exactly `target` ones, or a 16-bit value with at
   * least `mode` ones and at least `mode` zeros.
   */
  datatype Goal = Ones(w: nat, target: nat) | Balanced(mode: nat)

  /** The values are taken modulo 2^w, or modulo 2^16 for a reactor. */
  function Modulus(g: Goal): (n: nat)
    ensures n >= 1
  {
    match g
    case Ones(w, _) => Pow2(w)
    case Balanced(_) => Word
  }

  predicate Meets(g: Goal, v: nat) {
    match g
    case Ones(w, t) => PopCount(v, w) == t
    case Balanced(m) => PopCount(v, 16) >= m && 16 - PopCount(v, 16) >= m
  }

  /**
   * Some value meets the goal; without one the search loops of the two
   * tools never end.
   */
  predicate Reachable(g: Goal) {
    match g
    case Ones(w, t) => t <= w
    case Balanced(m) => m <= 8
  }

  /** 2^8 written out. */
  lemma ByteIsPow()
    ensures Pow2(8) == 256
  {
    assert Pow2(2) == 4;
    assert Pow2(4) == 16;
    assert Pow2(6) == 64;
  }

  /** A value that meets a reachable goal: 2^t - 1, or eight ones. */
  function Witness(g: Goal): (v: nat)
    requires Reachable(g)
    ensures v < Modulus(g) && Meets(g, v)
  {
    match g
    case Ones(w, t) =>
      PopCountOnes(t, w);
      PowMonotone(t, w);
      Pow2(t) - 1
    case Balanced(m) =>
      PopCountOnes(8, 16);
      ByteIsPow();
      255
  }

  /** The value k steps after i, counting modulo n. */
  function After(i: nat, k: nat, n: nat): nat
    requires n > 0
  {
    (i + k) % n
  }

  /** One more step: i++ and the mask once more. */
  lemma AfterSucc(i: nat, m: nat, cur: nat, n: nat)
    requires n > 0 && cur == if m == 0 then i else After(i, m, n)
    ensures (cur + 1) % n == After(i, m + 1, n)
  {
    if m > 0 {
      ModSucc(cur, n);
      ModSucc(i + m, n);
      ModSmall(cur, n);
    }
  }

  /** The number of steps i + 1, i + 2, ... that lead from i to v modulo n. */
  function OffsetTo(i: nat, v: nat, n: nat): (m: nat)
    requires 0 < n && v < n
    ensures 1 <= m <= n && After(i, m, n) == v
  {
    var a := i % n;
    var q := i / n;
    assert i == n * q + a;
    if v > a then
      DivModUnique(i + (v - a), n, q, v);
      v - a
    else
      DivModUnique(i + (n - a + v), n, q + 1, v);
      n - a + v
  }

  /**
   * The least step count m' in m..n (n the modulus) after which the value
   * (i + m') mod n meets g; n + 1 when there is none.
   */
  function FirstOffset(i: nat, g: Goal, m: nat): (r: nat)
    requires 1 <= m <= Modulus(g) + 1
    ensures m <= r <= Modulus(g) + 1
    ensures r <= Modulus(g) ==> Meets(g, After(i, r, Modulus(g)))
    ensures forall k :: m <= k < r ==> !Meets(g, After(i, k, Modulus(g)))
    decreases Modulus(g) + 1 - m
  {
    if m > Modulus(g) then m
    else if Meets(g, After(i, m, Modulus(g))) then m
    else FirstOffset(i, g, m + 1)
  }

  /** The search from m stops no later than any step count that meets g. */
  lemma {:induction false} FirstOffsetAtMost(i: nat, g: Goal, m: nat, k: nat)
    requires 1 <= m <= k <= Modulus(g) && Meets(g, After(i, k, Modulus(g)))
    ensures FirstOffset(i, g, m) <= k
    decreases k - m
  {
    if m < k && !Meets(g, After(i, m, Modulus(g))) {
      FirstOffsetAtMost(i, g, m + 1, k);
    }
  }

  /**
   * The value `nextconfig` / `nextreactor` returns: the first value after
   * i, counting modulo n, that meets g.
   */
  function Next(i: nat, g: Goal): (r: nat)
    requires Reachable(g)
    ensures r < Modulus(g) && Meets(g, r)
  {
    var n := Modulus(g);
    FirstOffsetAtMost(i, g, 1, OffsetTo(i, Witness(g), n));
    After(i, FirstOffset(i, g, 1), n)
  }

  /** Below the modulus, k steps after i is i + k, less n once it passes n. */
  lemma AfterSmall(i: nat, k: nat, n: nat)
    requires i < n && k <= n
    ensures After(i, k, n) == if i + k < n then i + k else i + k - n
  {
    if i + k < n {
      ModSmall(i + k, n);
    } else {
      DivModUnique(i + k, n, 1, i + k - n);
    }
  }

  /** A value passed on the way from i to the value f steps after it is fewer than f steps away. */
  lemma OffsetBefore(i: nat, f: nat, n: nat, v: nat)
    requires i < n && 1 <= f <= n && v < n
    requires if i + f < n then i < v < i + f else i < v || v < i + f - n
    ensures OffsetTo(i, v, n) < f
  {
    ModSmall(i, n);
  }

  /**
   * `Next(i, g) > i` exactly when it did not wrap: then no value of
   * (i, Next(i, g)) meets g.
   */
  lemma NextAdvances(i: nat, g: Goal, v: nat)
    requires Reachable(g) && i < Modulus(g) && i < Next(i, g)
    requires i < v < Next(i, g)
    ensures !Meets(g, v)
  {
    var n := Modulus(g);
    var f := FirstOffset(i, g, 1);
    FirstOffsetAtMost(i, g, 1, OffsetTo(i, Witness(g), n));
    AfterSmall(i, f, n);
    OffsetBefore(i, f, n, v);
  }

  /**
   * `Next(i, g) <= i` exactly when the search wrapped: then no value above
   * i and none below the result meets g, so the result is the least value
   * that does.
   */
  lemma NextWraps(i: nat, g: Goal, v: nat)
    requires Reachable(g) && i < Modulus(g) && Next(i, g) <= i
    requires i < v < Modulus(g) || v < Next(i, g)
    ensures !Meets(g, v)
  {
    var n := Modulus(g);
    var f := FirstOffset(i, g, 1);
    FirstOffsetAtMost(i, g, 1, OffsetTo(i, Witness(g), n));
    AfterSmall(i, f, n);
    OffsetBefore(i, f, n, v);
  }

  /** Every value has at least 0 ones and 0 zeros: mode 0 steps by one. */
  lemma NextModeZero(i: nat)
    ensures Next(i, Balanced(0)) == (i + 1) % Word
  {
    assert Meets(Balanced(0), After(i, 1, Word));
  }

  /** The loop `for (j = 0; j < n; j++) c += (v >> j) & 1`. */
  method CountOnes(v: nat, n: nat) returns (c: nat)
    ensures c == PopCount(v, n)
  {
    c := 0;
    var j := 0;
    while j < n
      invariant 0 <= j <= n && c == PopCount(v, j)
    {
      c := c + Bit(v, j);
      j := j + 1;
    }
  }

  /**
   * `nextconfig(i, s)`: the next w-bit value after i, going round, with 3
   * ones (s) or 4 ones (not s).  `i++; i &= 2^w - 1` is `(i + 1) mod 2^w`.
   * With fewer than that many bits the source loops forever.
   */
  method NextConfig(i: nat, w: nat, s: bool) returns (r: nat)
    requires (if s then 3 else 4) <= w
    ensures r == Next(i, Ones(w, if s then 3 else 4))
  {
    var target := if s then 3 else 4;
    ghost var g := Ones(w, target);
    ghost var stop := FirstOffset(i, g, 1);
    FirstOffsetAtMost(i, g, 1, OffsetTo(i, Witness(g), Pow2(w)));
    var cur := i;
    ghost var m := 0;
    while true
      invariant m < stop <= Pow2(w) && FirstOffset(i, g, m + 1) == stop
      invariant cur == if m == 0 then i else After(i, m, Pow2(w))
      decreases stop - m
    {
      AfterSucc(i, m, cur, Pow2(w));
      cur := (cur + 1) % Pow2(w);
      m := m + 1;
      var c := CountOnes(cur, w);
      if c == target {
        return cur;
      }
    }
  }

  /**
   * `nextreactor(i, mode)`: mode 0 is `(i + 1) & 0xFFFF`; otherwise the
   * next 16-bit value after i, going round, with at least `mode` ones and
   * at least `mode` zeros.  Above mode 8 the source loops forever.
   */
  method NextReactor(i: nat, mode: nat) returns (r: nat)
    requires mode <= 8
    ensures r == Next(i, Balanced(mode))
    ensures mode == 0 ==> r == (i + 1) % Word
  {
    if mode == 0 {
      NextModeZero(i);
      return (i + 1) % Word;
    }
    ghost var g := Balanced(mode);
    ghost var stop := FirstOffset(i, g, 1);
    FirstOffsetAtMost(i, g, 1, OffsetTo(i, Witness(g), Word));
    var cur := i;
    ghost var m := 0;
    while true
      invariant m < stop <= Word && FirstOffset(i, g, m + 1) == stop
      invariant cur == if m == 0 then i else After(i, m, Word)
      decreases stop - m
    {
      AfterSucc(i, m, cur, Word);
      cur := (cur + 1) % Word;
      m := m + 1;
      var o := CountOnes(cur, 16);
      if o >= mode && 16 - o >= mode {
        return cur;
      }
    }
  }

  // ---------------------------------------------------------------
  // `lut` and `eval`: one clock of the candidate circuit.

  /** `lut(in, data)`: bit `in` of the LUT content data (`data & (1 << in)`). */
  function LutBit(input: nat, data: nat): (r: nat)
    ensures r <= 1
  {
    Bit(data, input)
  }

  /** x mod 2P from x mod 2 and (x / 2) mod P. */
  lemma ModDouble(x: nat, q: nat)
    requires q > 0
    ensures x % (2 * q) == 2 * ((x / 2) % q) + x % 2
  {
    var h := x / 2;
    var a := h / q;
    var r := 2 * (h % q) + x % 2;
    assert h == q * a + h % q;
    assert x == 2 * h + x % 2;
    assert 2 * (q * a) == (2 * q) * a;
    DivModUnique(x, 2 * q, a, r);
  }

  /** The LUT bit is set exactly when data mod 2^(in+1) reaches 2^in. */
  lemma {:induction false} LutIsMaskTest(input: nat, data: nat)
    ensures LutBit(input, data) == if data % Pow2(input + 1) >= Pow2(input) then 1 else 0
  {
    if input > 0 {
      LutIsMaskTest(input - 1, data / 2);
      ModDouble(data, Pow2(input));
      assert Pow2(input + 1) == 2 * Pow2(input);
      assert Pow2(input) == 2 * Pow2(input - 1);
    }
  }

  /** The low n bits of d, gathered one bit at a time (d mod 2^n). */
  function Low(d: nat, n: nat): nat {
    if n == 0 then 0 else d % 2 + 2 * Low(d / 2, n - 1)
  }

  /** Low(d, n) is d mod 2^n. */
  lemma {:induction false} LowIsMod(d: nat, n: nat)
    ensures Low(d, n) == d % Pow2(n)
  {
    if n > 0 {
      LowIsMod(d / 2, n - 1);
      ModDouble(d, Pow2(n - 1));
      assert Pow2(n) == 2 * Pow2(n - 1);
    }
  }

  /** Low(d, n) is below 2^n and keeps the bits of d below n. */
  lemma {:induction false} LowBits(d: nat, n: nat, j: nat)
    ensures Low(d, n) < Pow2(n)
    ensures j < n ==> Bit(Low(d, n), j) == Bit(d, j)
  {
    if n > 0 {
      LowBits(d / 2, n - 1, if j == 0 then 0 else j - 1);
      var l := Low(d, n);
      assert l % 2 == d % 2 && l / 2 == Low(d / 2, n - 1);
    }
  }

  /** What `testloop` keeps fixed while it simulates one candidate. */
  datatype Circuit = Circuit(data: nat, config1: nat, config2: nat, w: nat)

  /** The first LUT's input: the register bits config1 selects, packed. */
  function FirstInput(d: nat, k: Circuit): nat {
    PackBelow(k.config1, d, k.w)
  }

  /** The first LUT's output; its content is the low 16 bits of data. */
  function FirstOutput(d: nat, k: Circuit): (r: nat)
    ensures r <= 1
  {
    LutBit(FirstInput(d, k), k.data % Word)
  }

  /** The second LUT's input: the bits config2 selects, plus 8 times the first LUT's output. */
  function SecondInput(d: nat, k: Circuit): nat {
    PackBelow(k.config2, d, k.w) + FirstOutput(d, k) * 8
  }

  /** The new bit 0: the first LUT alone when config2 is 0, else the second LUT. */
  function Feedback(d: nat, k: Circuit): (r: nat)
    ensures r <= 1
  {
    if k.config2 == 0 then FirstOutput(d, k) else LutBit(SecondInput(d, k), k.data / Word)
  }

  /** One non-reset `eval`: shift left under the w-bit mask, add the feedback. */
  function Step(d: nat, k: Circuit): nat {
    (if k.w == 0 then 0 else 2 * Low(d, k.w - 1)) + Feedback(d, k)
  }

  /** `d << 1` under the mask 2^w - 1, plus the feedback bit. */
  lemma StepIsShift(d: nat, k: Circuit)
    ensures Step(d, k) == (d * 2) % Pow2(k.w) + Feedback(d, k)
  {
    if k.w > 0 {
      LowIsMod(d, k.w - 1);
      ModDouble(d * 2, Pow2(k.w - 1));
      assert Pow2(k.w) == 2 * Pow2(k.w - 1);
      assert (d * 2) / 2 == d && (d * 2) % 2 == 0;
    }
  }

  /** The register state n clocks after state d. */
  function Run(d: nat, k: Circuit, n: nat): nat {
    if n == 0 then d else Step(Run(d, k, n - 1), k)
  }

  /**
   * `eval` is a shift register step: the new state is below 2^w, its bits
   * 1..w-1 are the old bits 0..w-2, and bit 0 is the feedback.
   */
  lemma {:induction false} StepShifts(d: nat, k: Circuit, j: nat)
    requires 1 <= k.w
    ensures Step(d, k) < Pow2(k.w)
    ensures j < k.w ==> Bit(Step(d, k), j) == if j == 0 then Feedback(d, k) else Bit(d, j - 1)
  {
    LowBits(d, k.w - 1, if j == 0 then 0 else j - 1);
    ShiftIn(Low(d, k.w - 1), Feedback(d, k), k.w - 1, j);
  }

  /** Shifting l left and putting f in bit 0. */
  lemma ShiftIn(l: nat, f: nat, n: nat, j: nat)
    requires l < Pow2(n) && f <= 1
    ensures 2 * l + f < Pow2(n + 1)
    ensures Bit(2 * l + f, j) == if j == 0 then f else Bit(l, j - 1)
  {
    var s := 2 * l + f;
    assert s % 2 == f && s / 2 == l;
  }

  /**
   * With config2 holding at most 3 bits, the second LUT sees those bits in
   * its inputs 0..2 and the first LUT's output in input 3.
   */
  lemma SecondInputBits(d: nat, k: Circuit, j: nat)
    requires PopCount(k.config2, k.w) <= 3
    ensures SecondInput(d, k) < 16
    ensures Bit(SecondInput(d, k), j) ==
      if j < 3 then Bit(PackBelow(k.config2, d, k.w), j) else if j == 3 then FirstOutput(d, k) else 0
  {
    var a := PackBelow(k.config2, d, k.w);
    PowMonotone(PopCount(k.config2, k.w), 3);
    assert Pow2(3) == 8;
    BitOfSum(a, 3, FirstOutput(d, k), j);
  }

  /** Running a + b clocks is running a clocks, then b more. */
  lemma {:induction false} RunAdds(d: nat, k: Circuit, a: nat, b: nat)
    ensures Run(d, k, a + b) == Run(Run(d, k, a), k, b)
    decreases b
  {
    if b > 0 {
      RunAdds(d, k, a, b - 1);
    }
  }

  /** After a clock the state is below 2^w. */
  lemma RunBound(d: nat, k: Circuit, n: nat)
    requires 1 <= k.w && (n > 0 || d < Pow2(k.w))
    ensures Run(d, k, n) < Pow2(k.w)
  {
    if n > 0 {
      StepShifts(Run(d, k, n - 1), k, 0);
    }
  }

  /** The loop of `eval` that packs the bits of d that config selects. */
  method Pack(config: nat, d: nat, w: nat) returns (r: nat)
    ensures r == PackBelow(config, d, w)
  {
    r := 0;
    var k := 0;
    var i := 0;
    while i < w
      invariant 0 <= i <= w && k + PopCount(config, i) == i
      invariant r == PackBelow(config, d, i)
    {
      if Bit(config, i) == 1 {
        r := r + Bit(d, i) * Pow2(i - k);
      } else {
        k := k + 1;
      }
      i := i + 1;
    }
  }

  /** The `static int d` of `eval`, kept as a field. */
  class Machine {
    var d: nat

    constructor ()
      ensures d == 0
    {
      d := 0;
    }

    /**
     * `eval(reset, data, config1, config2)` with w = b + x register bits:
     * reset sets the state to 0 and returns 0; otherwise one clock.
     */
    method Eval(reset: bool, data: nat, config1: nat, config2: nat, w: nat) returns (r: nat)
      modifies this
      ensures reset ==> d == 0 && r == 0
      ensures !reset ==> d == Step(old(d), Circuit(data, config1, config2, w)) && r == d
    {
      if reset {
        d := 0;
        return 0;
      }
      StepIsShift(d, Circuit(data, config1, config2, w));
      var in1 := Pack(config1, d, w);
      var in2 := Pack(config2, d, w);
      in2 := in2 + LutBit(in1, data % Word) * 8;
      d := (d * 2) % Pow2(w);
      if config2 == 0 {
        d := d + LutBit(in1, data % Word);
      } else {
        d := d + LutBit(in2, data / Word);
      }
      r := d;
    }
  }

  // ---------------------------------------------------------------
  // `check` and the simulation of `testloop`.

  /**
   * `check(num)` over the recorded outputs: they repeat after num steps
   * and the first num of them are pairwise distinct.
   */
  predicate Checked(s: seq<int>, num: nat)
    requires 2 * num <= |s|
  {
    && (forall i :: 0 <= i < num ==> s[i] == s[i + num])
    && (forall i, j :: 0 <= i < j < num ==> s[i] != s[j])
  }

  /** No recorded output equals the one before it. */
  predicate NoStutter(s: seq<int>) {
    forall j :: 1 <= j < |s| ==> s[j] != s[j - 1]
  }

  /** The low b bits of the state n clocks after reset, as `testloop` records it. */
  function Output(k: Circuit, b: nat, n: nat): nat {
    Run(0, k, n) % Pow2(b)
  }

  /** n outputs, the first one `start` clocks after reset. */
  function Pass(k: Circuit, b: nat, start: nat, n: nat): (s: seq<int>)
    ensures |s| == n
  {
    if n == 0 then [] else Pass(k, b, start, n - 1) + [Output(k, b, start + n - 1)]
  }

  /**
   * A candidate `testloop` accepts: from reset, 2p outputs without a
   * repeat in a row that pass `check(p)`, then 2p more that do as well.
   */
  predicate Accepts(k: Circuit, b: nat, p: nat) {
    && NoStutter(Pass(k, b, 0, 2 * p)) && Checked(Pass(k, b, 0, 2 * p), p)
    && NoStutter(Pass(k, b, 2 * p, 2 * p)) && Checked(Pass(k, b, 2 * p, 2 * p), p)
  }

  /** `check(num)`: the period test, then the pairwise test. */
  method Check(results: array<int>, num: nat) returns (ok: bool)
    requires 2 * num <= results.Length
    ensures ok <==> Checked(results[..2 * num], num)
  {
    ghost var s := results[..2 * num];
    var i := 0;
    while i < num
      invariant 0 <= i <= num
      invariant forall l :: 0 <= l < i ==> s[l] == s[l + num]
    {
      if results[i] != results[i + num] {
        return false;
      }
      i := i + 1;
    }
    i := 0;
    while i < num - 1
      invariant 0 <= i <= num || (num == 0 && i == 0)
      invariant forall l, j :: 0 <= l < i && l < j < num ==> s[l] != s[j]
    {
      var j := i + 1;
      while j < num
        invariant i + 1 <= j <= num
        invariant forall l, m :: 0 <= l < i && l < m < num ==> s[l] != s[m]
        invariant forall m :: i < m < j ==> s[i] != s[m]
      {
        if results[j] == results[i] {
          return false;
        }
        j := j + 1;
      }
      i := i + 1;
    }
    return true;
  }

  /** One more output at the end of a pass. */
  lemma PassSnoc(k: Circuit, b: nat, start: nat, j: nat)
    ensures Pass(k, b, start, j + 1) == Pass(k, b, start, j) + [Output(k, b, start + j)]
  {
  }

  /** Entry j of a pass is the output j clocks after its start. */
  lemma {:induction false} PassAt(k: Circuit, b: nat, start: nat, n: nat, j: nat)
    requires j < n
    ensures Pass(k, b, start, n)[j] == Output(k, b, start + j)
  {
    if j < n - 1 {
      PassAt(k, b, start, n - 1, j);
    }
  }

  /** A pass is a prefix of any longer pass from the same clock. */
  lemma {:induction false} PassPrefix(k: Circuit, b: nat, start: nat, j: nat, n: nat)
    requires j <= n
    ensures Pass(k, b, start, n)[..j] == Pass(k, b, start, j)
  {
    if j < n {
      PassPrefix(k, b, start, j, n - 1);
      assert Pass(k, b, start, n)[..n - 1] == Pass(k, b, start, n - 1);
      assert Pass(k, b, start, n)[..j] == Pass(k, b, start, n)[..n - 1][..j];
    }
  }

  /** A value added at the end keeps the sequence free of repeats in a row unless it repeats the last one. */
  lemma NoStutterSnoc(s: seq<int>, x: int)
    ensures NoStutter(s + [x]) <==> NoStutter(s) && (s != [] ==> x != s[|s| - 1])
  {
    var t := s + [x];
    if NoStutter(t) {
      forall j | 1 <= j < |s|
        ensures s[j] != s[j - 1]
      {
        assert t[j] == s[j] && t[j - 1] == s[j - 1];
      }
      if s != [] {
        assert t[|s|] == x && t[|s| - 1] == s[|s| - 1];
      }
    }
    if NoStutter(s) && (s != [] ==> x != s[|s| - 1]) {
      forall j | 1 <= j < |t|
        ensures t[j] != t[j - 1]
      {
        if j < |s| {
          assert t[j] == s[j] && t[j - 1] == s[j - 1];
        }
      }
    }
  }

  /**
   * One clock of `testloop`'s simulation: `eval` and store the low b bits
   * of the result at index j.
   */
  method Record(m: Machine, results: array<int>, k: Circuit, b: nat, start: nat, j: nat)
    returns (x: int)
    requires 1 <= start + j && j < results.Length && m.d == Run(0, k, start + j - 1)
    requires results[..j] == Pass(k, b, start, j)
    modifies m, results
    ensures m.d == Run(0, k, start + j) && x == results[j]
    ensures results[..j + 1] == Pass(k, b, start, j + 1)
    ensures results[..j + 1] == old(results[..j]) + [x]
  {
    var e := m.Eval(false, k.data, k.config1, k.config2, k.w);
    assert e == Run(0, k, start + j);
    ghost var before := results[..j];
    x := e % Pow2(b);
    results[j] := x;
    assert results[..j + 1] == before + [x];
    PassSnoc(k, b, start, j);
  }

  /**
   * The recording loop of `testloop`'s simulation, from index j0 up to n:
   * store each output, stopping at the first one equal to the one before
   * it (`goto next`).
   */
  method Continue(m: Machine, results: array<int>, k: Circuit, b: nat, start: nat, j0: nat, n: nat)
    returns (smooth: bool)
    requires 1 <= start + j0 && j0 <= n <= results.Length
    requires m.d == Run(0, k, start + j0 - 1)
    requires results[..j0] == Pass(k, b, start, j0) && NoStutter(results[..j0])
    modifies m, results
    ensures smooth <==> NoStutter(Pass(k, b, start, n))
    ensures smooth ==> results[..n] == Pass(k, b, start, n) && m.d == Run(0, k, start + n - 1)
  {
    var j := j0;
    while j < n
      invariant j0 <= j <= n && m.d == Run(0, k, start + j - 1)
      invariant results[..j] == Pass(k, b, start, j) && NoStutter(results[..j])
    {
      ghost var before := results[..j];
      var x := Record(m, results, k, b, start, j);
      ghost var after := results[..j + 1];
      assert after == before + [x];
      NoStutterSnoc(before, x);
      assert NoStutter(after) <==> j == 0 || x != results[j - 1] by {
        if j > 0 {
          assert after[j - 1] == results[j - 1];
        }
      }
      if j > 0 && x == results[j - 1] {
        PassPrefix(k, b, start, j + 1, n);
        assert Pass(k, b, start, n)[j] == after[j] == after[j - 1] == Pass(k, b, start, n)[j - 1];
        return false;
      }
      j := j + 1;
    }
    return true;
  }

  /**
   * The first pass of `testloop`'s simulation: reset (result 0), then
   * n - 1 clocks.
   */
  method FirstPass(m: Machine, results: array<int>, k: Circuit, b: nat, n: nat)
    returns (smooth: bool)
    requires 1 <= n <= results.Length
    modifies m, results
    ensures smooth <==> NoStutter(Pass(k, b, 0, n))
    ensures smooth ==> results[..n] == Pass(k, b, 0, n) && m.d == Run(0, k, n - 1)
  {
    var r := m.Eval(true, 0, 0, 0, k.w);
    results[0] := r;
    ModSmall(0, Pow2(b));
    assert Run(0, k, 0) == 0;
    PassSnoc(k, b, 0, 0);
    assert results[..1] == Pass(k, b, 0, 1);
    smooth := Continue(m, results, k, b, 0, 1, n);
  }

  /**
   * One candidate of `testloop`: reset, 2p outputs and `check(p)`, then
   * 2p more outputs and `check(p)` again.
   */
  method Trial(m: Machine, results: array<int>, k: Circuit, b: nat, p: nat) returns (passed: bool)
    requires 1 <= p && 2 * p <= results.Length
    modifies m, results
    ensures passed <==> Accepts(k, b, p)
  {
    var smooth := FirstPass(m, results, k, b, 2 * p);
    if !smooth {
      return false;
    }
    var ok := Check(results, p);
    if !ok {
      return false;
    }
    smooth := Continue(m, results, k, b, 2 * p, 0, 2 * p);
    if !smooth {
      return false;
    }
    ok := Check(results, p);
    return ok;
  }

  /**
   * With no extra bits (w == b) the recorded outputs are the states, so an
   * accepted candidate is a counter of period exactly p: the states repeat
   * every p clocks and the first p are distinct.
   */
  lemma {:induction false} AcceptedCounts(k: Circuit, p: nat, n: nat, i: nat, j: nat)
    requires 1 <= k.w && 1 <= p && Accepts(k, k.w, p)
    ensures Run(0, k, n + p) == Run(0, k, n)
    ensures 0 <= i < j < p ==> Run(0, k, i) != Run(0, k, j)
  {
    var first := Pass(k, k.w, 0, 2 * p);
    assert first[0] == first[p];
    PassAt(k, k.w, 0, 2 * p, 0);
    PassAt(k, k.w, 0, 2 * p, p);
    RunBound(0, k, p);
    ModSmall(Run(0, k, p), Pow2(k.w));
    ModSmall(0, Pow2(k.w));
    assert Run(0, k, p) == 0;
    RunAdds(0, k, p, n);
    assert n + p == p + n;
    if 0 <= i < j < p {
      assert first[i] != first[j];
      PassAt(k, k.w, 0, 2 * p, i);
      PassAt(k, k.w, 0, 2 * p, j);
      RunBound(0, k, i);
      RunBound(0, k, j);
      ModSmall(Run(0, k, i), Pow2(k.w));
      ModSmall(Run(0, k, j), Pow2(k.w));
    }
  }

  // ---------------------------------------------------------------
  // The reactor loop of `testloop`.

  /**
   * `testloop`'s mode-2 step as written: reactor1 moves whenever reactor2
   * does NOT wrap, so the two move in lock step.
   */
  function AdvanceAsWritten(mode: nat, r1: nat, r2: nat, m1: nat, m2: nat): (r: (nat, nat))
    requires m1 <= 8 && m2 <= 8
    ensures mode == 1 ==> r.0 == r.1
  {
    var n1 := Next(r1, Balanced(m1));
    if mode == 0 then (n1, r2)
    else if mode == 1 then (n1, n1)
    else if mode == 2 then
      var n2 := Next(r2, Balanced(m2));
      (if r2 < n2 then n1 else r1, n2)
    else (r1, r2)
  }

  /**
   * The step the model uses: mode 2 moves reactor1 only when reactor2
   * wraps, so pairs with different reactors are tried.
   */
  function Advance(mode: nat, r1: nat, r2: nat, m1: nat, m2: nat): (r: (nat, nat))
    requires m1 <= 8 && m2 <= 8
    ensures mode == 1 ==> r.0 == r.1
    ensures mode == 2 && r2 < Word ==> r.1 == Next(r2, Balanced(m2)) && (r.1 > r2 ==> r.0 == r1)
    ensures mode == 2 && r2 < Word && Next(r2, Balanced(m2)) <= r2 ==> r.0 == Next(r1, Balanced(m1))
    ensures mode == 0 ==> r == (Next(r1, Balanced(m1)), r2)
  {
    var n1 := Next(r1, Balanced(m1));
    if mode == 0 then (n1, r2)
    else if mode == 1 then (n1, n1)
    else if mode == 2 then
      var n2 := Next(r2, Balanced(m2));
      (if n2 <= r2 then n1 else r1, n2)
    else (r1, r2)
  }

  /** The pair (reactor1, reactor2) read as one number, reactor1 first. */
  function Key(r1: nat, r2: nat): nat {
    r1 * Word + r2
  }

  /**
   * While reactor1 has a successor above it, every step of the model
   * strictly increases the pair: no pair is tried twice and the loop ends.
   */
  lemma AdvanceIncreases(mode: nat, r1: nat, r2: nat, m1: nat, m2: nat)
    requires 1 <= mode <= 2 || mode == 0
    requires m1 <= 8 && m2 <= 8 && r1 < Word && r2 < Word && r1 < Next(r1, Balanced(m1))
    ensures Advance(mode, r1, r2, m1, m2).0 < Word && Advance(mode, r1, r2, m1, m2).1 < Word
    ensures Key(r1, r2) < Key(Advance(mode, r1, r2, m1, m2).0, Advance(mode, r1, r2, m1, m2).1)
  {
  }

  /** Pairs of 16-bit values compare as their keys: reactor1 first, then reactor2. */
  lemma KeyLess(a: nat, b: nat, c: nat, d: nat)
    requires b < Word && d < Word
    ensures Key(a, b) < Key(c, d) <==> a < c || (a == c && b < d)
  {
    if a < c {
      MulAtLeast(Word, c - a);
      assert c * Word == a * Word + (c - a) * Word;
    } else if c < a {
      MulAtLeast(Word, a - c);
      assert a * Word == c * Word + (a - c) * Word;
    }
  }

  /**
   * The corrected mode 2 steps like an odometer: no pair of values that
   * each meet their reactor's goal lies strictly between a pair and the
   * next one.
   */
  lemma AdvanceSkipsNothing(r1: nat, r2: nat, m1: nat, m2: nat, a: nat, b: nat)
    requires m1 <= 8 && m2 <= 8 && r1 < Word && r2 < Word && r1 < Next(r1, Balanced(m1))
    requires a < Word && b < Word
    requires Key(r1, r2) < Key(a, b) < Key(Advance(2, r1, r2, m1, m2).0, Advance(2, r1, r2, m1, m2).1)
    ensures !(Meets(Balanced(m1), a) && Meets(Balanced(m2), b))
  {
    var n1 := Next(r1, Balanced(m1));
    var n2 := Next(r2, Balanced(m2));
    var s := Advance(2, r1, r2, m1, m2);
    KeyLess(r1, r2, a, b);
    KeyLess(a, b, s.0, s.1);
    if r2 < n2 {
      assert s == (r1, n2);
      NextAdvances(r2, Balanced(m2), b);
    } else {
      assert s == (n1, n2);
      if a == r1 {
        NextWraps(r2, Balanced(m2), b);
      } else if a < n1 {
        NextAdvances(r1, Balanced(m1), a);
      } else {
        NextWraps(r2, Balanced(m2), b);
      }
    }
  }

  /**
   * As written, mode 2 with mode1 == mode2 keeps the reactors equal, so
   * from (0, 0) it only tries the pairs mode 1 tries.
   */
  lemma AsWrittenLockStep(r: nat, m: nat)
    requires m <= 8 && r < Next(r, Balanced(m))
    ensures AdvanceAsWritten(2, r, r, m, m).0 == AdvanceAsWritten(2, r, r, m, m).1
    ensures AdvanceAsWritten(2, r, r, m, m) == AdvanceAsWritten(1, r, r, m, m)
  {
  }

  /** From (0, 0) with mode 0 reactors, the corrected step tries (0, 1); as written it tries (1, 1). */
  lemma CorrectedTriesMixedPairs()
    ensures Advance(2, 0, 0, 0, 0) == (0, 1)
    ensures AdvanceAsWritten(2, 0, 0, 0, 0) == (1, 1)
  {
    NextModeZero(0);
  }

  /**
   * The corrected step keeps the loop test on reactor1 alone: with mode 0
   * reactors it reaches (65535, 0), where reactor1 has no larger successor,
   * so the rest of reactor1's last row is never tried.
   */
  lemma CorrectedStopsEarly()
    ensures Advance(2, 65534, 65535, 0, 0) == (65535, 0)
    ensures Next(65535, Balanced(0)) == 0
  {
    NextModeZero(65534);
    NextModeZero(65535);
  }

  /**
   * With mode 6 reactors from (0, 0) the corrected step stays on the row
   * reactor1 = 0, although 0 misses reactor1's goal.
   */
  lemma CorrectedStartsOnZero()
    ensures !Meets(Balanced(6), 0)
    ensures Advance(2, 0, 0, 6, 6).0 == 0
  {
    PopCountZero(16);
  }

  /** The reactor step at the top of `testloop`'s loop, with mode 2 corrected. */
  method StepReactors(mode: nat, r1: nat, r2: nat, mode1: nat, mode2: nat) returns (s1: nat, s2: nat)
    requires mode1 <= 8 && mode2 <= 8
    ensures (s1, s2) == Advance(mode, r1, r2, mode1, mode2)
  {
    s1, s2 := r1, r2;
    if mode == 0 || mode == 1 {
      s1 := NextReactor(s1, mode1);
    }
    if mode == 1 {
      s2 := s1;
    }
    if mode == 2 {
      var n2 := NextReactor(s2, mode2);
      if n2 <= s2 {
        s1 := NextReactor(s1, mode1);
      }
      s2 := NextReactor(s2, mode2);
    }
  }

  /** `reactor1 + (reactor2 << 16)`: the two 16-bit LUT contents in one word. */
  function Contents(r1: nat, r2: nat): (data: nat)
    requires r1 < Word
    ensures data % Word == r1 && data / Word == r2
  {
    r1 + r2 * Word
  }

  /**
   * One round of `testloop`'s loop: advance the reactors, then simulate the
   * circuit whose LUT contents they are.
   */
  method Attempt(m: Machine, results: array<int>, mode: nat, r1: nat, r2: nat, config1: nat, config2: nat,
                 mode1: nat, mode2: nat, w: nat, b: nat, p: nat)
    returns (found: bool, s1: nat, s2: nat)
    requires mode <= 2 && mode1 <= 8 && mode2 <= 8 && 1 <= p && 2 * p <= results.Length
    requires r1 < Word && r2 < Word && r1 < Next(r1, Balanced(mode1))
    modifies m, results
    ensures (s1, s2) == Advance(mode, r1, r2, mode1, mode2)
    ensures s1 < Word && s2 < Word && Key(r1, r2) < Key(s1, s2)
    ensures found <==> Accepts(Circuit(Contents(s1, s2), config1, config2, w), b, p)
  {
    AdvanceIncreases(mode, r1, r2, mode1, mode2);
    s1, s2 := StepReactors(mode, r1, r2, mode1, mode2);
    var data := s1 + s2 * Word;
    assert data == Contents(s1, s2);
    found := Trial(m, results, Circuit(data, config1, config2, w), b, p);
  }

  /**
   * The simulate/check loop of `testloop`: step the reactors, build the
   * data word `reactor1 + (reactor2 << 16)` and try it, until a candidate
   * passes or reactor1 has no successor above it.
   */
  method TestLoop(m: Machine, results: array<int>, mode: nat, config1: nat, config2: nat,
                  mode1: nat, mode2: nat, w: nat, b: nat, p: nat)
    returns (found: bool, r1: nat, r2: nat)
    requires mode <= 2 && mode1 <= 8 && mode2 <= 8 && 1 <= p && 2 * p <= results.Length
    modifies m, results
    ensures r1 < Word && r2 < Word
    ensures found ==> Accepts(Circuit(Contents(r1, r2), config1, config2, w), b, p)
    ensures !found ==> Next(r1, Balanced(mode1)) <= r1
  {
    r1, r2 := 0, 0;
    var n1 := NextReactor(r1, mode1);
    while r1 < n1
      invariant r1 < Word && r2 < Word && n1 == Next(r1, Balanced(mode1))
      decreases Word * Word - Key(r1, r2)
    {
      found, r1, r2 := Attempt(m, results, mode, r1, r2, config1, config2, mode1, mode2, w, b, p);
      if found {
        return;
      }
      n1 := NextReactor(r1, mode1);
    }
    found := false;
  }

  /** What one run of a tool on one configuration ends with. */
  datatype Outcome = Rejected | Exhausted(last: nat) | Found(reactor1: nat, reactor2: nat)

  /**
   * The period guard of `main` followed by `testloop` for one
   * configuration: periods above maxPeriod are refused, otherwise
   * b = Bitness(p), the register has b + x bits and the outputs go to a
   * buffer of resultsSize entries.
   */
  method FindCounter(p: int, maxPeriod: nat, resultsSize: nat, x: nat, mode: nat, config1: nat, config2: nat,
                     mode1: nat, mode2: nat)
    returns (o: Outcome)
    requires 1 <= p && 2 * maxPeriod <= resultsSize
    requires mode <= 2 && mode1 <= 8 && mode2 <= 8
    ensures o.Rejected? <==> p > maxPeriod
    ensures o.Exhausted? ==> o.last < Word && Next(o.last, Balanced(mode1)) <= o.last
    ensures o.Found? ==> o.reactor1 < Word && o.reactor2 < Word
    ensures o.Found? ==> Accepts(Circuit(Contents(o.reactor1, o.reactor2), config1, config2, Bitness(p) + x), Bitness(p), p)
  {
    if p > maxPeriod {
      return Rejected;
    }
    var b := Bitness(p);
    var results := new int[resultsSize];
    var m := new Machine();
    var found, r1, r2 := TestLoop(m, results, mode, config1, config2, mode1, mode2, b + x, b, p);
    if found {
      o := Found(r1, r2);
    } else {
      o := Exhausted(r1);
    }
  }

  // ---------------------------------------------------------------
  // `parseconfig_s` and the period-dependent width.

  function DigitChar(d: nat): (c: char)
    requires d < 10
  {
    "0123456789"[d]
  }

  /** The value of a decimal digit character; 0 for any other character. */
  function DigitValue(c: char): (d: nat)
    ensures d < 10
  {
    if '0' <= c <= '9' then (c as int - '0' as int) as nat else 0
  }

  /** `std::to_string(n)`: decimal, no leading zeros. */
  function Decimal(n: nat): (s: string)
    ensures 1 <= |s|
    decreases n
  {
    if n < 10 then [DigitChar(n)] else Decimal(n / 10) + [DigitChar(n % 10)]
  }

  /** Reading decimal digits back. */
  function DecimalValue(s: string): nat
    decreases |s|
  {
    if s == [] then 0 else DecimalValue(s[..|s| - 1]) * 10 + DigitValue(s[|s| - 1])
  }

  /** Reading back the decimal text of n gives n. */
  lemma {:induction false} DecimalRoundTrip(n: nat)
    ensures DecimalValue(Decimal(n)) == n
    decreases n
  {
    if n >= 10 {
      DecimalRoundTrip(n / 10);
      var s := Decimal(n);
      assert s[..|s| - 1] == Decimal(n / 10);
      assert DigitValue(DigitChar(n % 10)) == n % 10;
    } else {
      assert DigitValue(DigitChar(n)) == n;
    }
  }

  /** The Verilog name of register bit i: `out[i]` below b, else `msb[i-b]`. */
  function PortName(i: nat, b: nat): string {
    if i < b then "out[" + Decimal(i) + "]" else "msb[" + Decimal(i - b) + "]"
  }

  /** Reading a register bit back from its Verilog name. */
  function PortIndex(s: string, b: nat): (r: Option<nat>) {
    if |s| < 6 || s[|s| - 1] != ']' then None
    else if s[..4] == "out[" then Some(DecimalValue(s[4..|s| - 1]))
    else if s[..4] == "msb[" then Some(b + DecimalValue(s[4..|s| - 1]))
    else None
  }

  datatype Option<T> = None | Some(value: T)

  /** Names are read back to the bit they name, so no two bits share a name. */
  lemma PortNameRoundTrip(i: nat, b: nat)
    ensures PortIndex(PortName(i, b), b) == Some(i)
  {
    var n := if i < b then i else i - b;
    var s := PortName(i, b);
    DecimalRoundTrip(n);
    assert s[4..|s| - 1] == Decimal(n);
    assert s[..4] == if i < b then "out[" else "msb[";
  }

  /** One more port name at the end of the list. */
  lemma NamesSnoc(names: seq<string>, confv: seq<nat>, name: string, b: nat, i: nat)
    requires i < |confv| && |names| == i && name == PortName(confv[i], b)
    requires forall j :: 0 <= j < i ==> names[j] == PortName(confv[j], b)
    ensures forall j :: 0 <= j < i + 1 ==> (names + [name])[j] == PortName(confv[j], b)
  {
    forall j | 0 <= j < i + 1
      ensures (names + [name])[j] == PortName(confv[j], b)
    {
      if j < i {
        assert (names + [name])[j] == names[j];
      }
    }
  }

  /**
   * `parseconfig_s(config)`: the names of the register bits config selects,
   * lowest bit first.
   */
  method ParseConfigS(config: nat, w: nat, b: nat) returns (names: seq<string>)
    ensures |names| == PopCount(config, w)
    ensures forall j :: 0 <= j < |names| ==> names[j] == PortName(PositionsBelow(config, w)[j], b)
  {
    var confv := ParseConfig(config, w);
    names := [];
    var i := 0;
    while i < |confv|
      invariant 0 <= i <= |confv| && |names| == i
      invariant forall j :: 0 <= j < i ==> names[j] == PortName(confv[j], b)
    {
      var name;
      if confv[i] < b {
        name := "out[" + Decimal(confv[i]) + "]";
      } else {
        name := "msb[" + Decimal(confv[i] - b) + "]";
      }
      assert name == PortName(confv[i], b);
      NamesSnoc(names, confv, name, b, i);
      names := names + [name];
      i := i + 1;
    }
  }

  /**
   * `b = ceil(log2(p)); if (b < 4) b = 4;` in integers: the least r >= 4
   * with p <= 2^r.
   */
  function Bitness(p: nat): (r: nat)
    requires 1 <= p
    ensures 4 <= r && p <= Pow2(r)
    ensures r > 4 ==> Pow2(r - 1) < p
  {
    BitnessFrom(p, 4)
  }

  function BitnessFrom(p: nat, r: nat): (s: nat)
    requires 1 <= p && (r > 4 ==> Pow2(r - 1) < p)
    ensures r <= s && p <= Pow2(s) && (s > 4 ==> Pow2(s - 1) < p)
    decreases p - Pow2(r) + 1
  {
    if p <= Pow2(r) then r else BitnessFrom(p, r + 1)
  }
}
