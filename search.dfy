// The LUT search of tools/prdiv_alt.cpp: the state sequence a variation
// stands for (`genstates`), the config-state map (`csmap`, built in
// `main`), the check made at each depth of `fill_luts`, and `fill_luts`
// itself.
//
// The divider is a w-bit register (w = b + x) whose bit i is the output of
// LUT i.  LUT i sees the 4 register bits its mask selects, packed by
// `comb::map`.  A candidate cycle of period p is the state sequence S:
// S[0] = 0, S[h] = 2^(w-1) with h = (p+1)/2, and S[j+h] = S[j] + 2^(w-1),
// so the top bit is a divide-by-p square wave.  The states in between are
// the values picked by a `vari`.

module Search {

  import opened Bits
  import opened Luts
  import opened Combinations
  import opened Variations

  /** `p2 = (p+1)/2`: the index of the state 2^(w-1) in the sequence. */
  function Half(p: nat): (h: nat)
    ensures h <= p && (p >= 2 ==> h < p)
  {
    (p + 1) / 2
  }

  // ---------------------------------------------------------------
  // State sequences (`genstates`).

  /** Each picked value lifted by m (the second half of the sequence). */
  function Lifted(res: seq<int>, m: int): (r: seq<int>)
    ensures |r| == |res|
    ensures forall j :: 0 <= j < |res| ==> r[j] == res[j] + m
  {
    seq(|res|, j requires 0 <= j < |res| => res[j] + m)
  }

  /**
   * What `genstates` returns for the picked values res: 0, res, 2^(w-1),
   * res lifted by 2^(w-1), without the last element when p is odd.
   */
  function StateSequence(res: seq<int>, p: nat, w: nat): (s: seq<int>)
    requires 1 <= w
  {
    var full := [0] + res + [Pow2(w - 1)] + Lifted(res, Pow2(w - 1));
    if p % 2 == 1 then full[..|full| - 1] else full
  }

  /** `genstates(stv)`. */
  method GenStates(stv: Vari, p: nat, w: nat) returns (states: seq<int>)
    requires 1 <= w
    ensures states == StateSequence(stv.result, p, w)
  {
    var res := stv.result;
    var m := Pow2(w - 1);
    states := [0];
    var i := 0;
    while i < |res|
      invariant 0 <= i <= |res|
      invariant states == [0] + res[..i]
    {
      assert res[..i + 1] == res[..i] + [res[i]];
      states := states + [res[i]];
      i := i + 1;
    }
    assert res[..|res|] == res;
    states := states + [m];
    i := 0;
    while i < |res|
      invariant 0 <= i <= |res|
      invariant states == [0] + res + [m] + Lifted(res[..i], m)
    {
      assert Lifted(res[..i + 1], m) == Lifted(res[..i], m) + [res[i] + m];
      states := states + [res[i] + m];
      i := i + 1;
    }
    assert res[..|res|] == res;
    if p % 2 == 1 {
      states := states[..|states| - 1];
    }
  }

  /** The shape of a candidate cycle: p distinct w-bit states starting at 0. */
  ghost predicate IsStates(s: seq<int>, p: nat, w: nat) {
    && |s| == p
    && (forall j :: 0 <= j < p ==> 0 <= s[j] < Pow2(w))
    && (forall i, j :: 0 <= i < j < p ==> s[i] != s[j])
  }

  /** The j-th element of the state sequence, by position. */
  function StateElem(res: seq<int>, w: nat, j: nat): int
    requires 1 <= w && j < 2 * |res| + 2
  {
    if j == 0 then 0
    else if j <= |res| then res[j - 1]
    else if j == |res| + 1 then Pow2(w - 1)
    else res[j - |res| - 2] + Pow2(w - 1)
  }

  /** The state sequence is p long and its j-th element is `StateElem`. */
  lemma StateAt(res: seq<int>, p: nat, w: nat, j: nat)
    requires 1 <= w && 2 * |res| + 2 - p % 2 == p && j < p
    ensures |StateSequence(res, p, w)| == p
    ensures StateSequence(res, p, w)[j] == StateElem(res, w, j)
  {
    var m := Pow2(w - 1);
    var a := [0] + res;
    var b := a + [m];
    var full := b + Lifted(res, m);
    assert |full| == 2 * |res| + 2;
    if j < |b| {
      assert full[j] == b[j];
      if j < |a| {
        assert b[j] == a[j];
      }
    } else {
      assert full[j] == Lifted(res, m)[j - |b|];
    }
    if p % 2 == 1 {
      assert StateSequence(res, p, w)[j] == full[j];
    }
  }

  /** The conditions `StatesFacts` needs of the picked values. */
  ghost predicate Picks(res: seq<int>, p: nat, w: nat) {
    && 2 <= p && 1 <= w && |res| == Half(p) - 1 && Distinct(res)
    && forall v :: v in res ==> 1 <= v < Pow2(w - 1)
  }

  /** States up to position |res| lie below 2^(w-1), the others at or above it. */
  lemma StatesHalves(res: seq<int>, p: nat, w: nat, j: nat)
    requires Picks(res, p, w) && j < p
    ensures 2 * |res| + 2 - p % 2 == p
    ensures 0 <= StateElem(res, w, j) < Pow2(w)
    ensures j <= |res| ==> StateElem(res, w, j) < Pow2(w - 1)
    ensures |res| < j ==> Pow2(w - 1) <= StateElem(res, w, j)
  {
    var k := |res|;
    assert Pow2(w) == 2 * Pow2(w - 1);
    if 1 <= j <= k {
      assert res[j - 1] in res;
    } else if j > k + 1 {
      assert res[j - k - 2] in res;
    }
  }

  lemma StatesDistinct(res: seq<int>, p: nat, w: nat, i: nat, j: nat)
    requires Picks(res, p, w) && i < j < p
    ensures StateElem(res, w, i) != StateElem(res, w, j)
  {
    var k := |res|;
    StatesHalves(res, p, w, i);
    StatesHalves(res, p, w, j);
    if 1 <= i && j <= k {
      assert res[i - 1] != res[j - 1];
    } else if i > k + 1 {
      assert res[i - k - 2] != res[j - k - 2];
    } else if i == 0 && 1 <= j <= k {
      assert res[j - 1] in res;
    } else if i == k + 1 {
      assert res[j - k - 2] in res;
    }
  }

  /**
   * A variation of Half(p) - 1 values of 1 .. 2^(w-1) - 1 gives a sequence
   * of p distinct states, 0 first and 2^(w-1) at Half(p), whose second
   * half is the first half lifted by 2^(w-1).
   */
  lemma StatesFacts(res: seq<int>, p: nat, w: nat)
    requires Picks(res, p, w)
    ensures IsStates(StateSequence(res, p, w), p, w)
    ensures StateSequence(res, p, w)[0] == 0
    ensures StateSequence(res, p, w)[Half(p)] == Pow2(w - 1)
    ensures forall j :: 0 <= j && j + Half(p) < p ==>
      StateSequence(res, p, w)[j + Half(p)] == StateSequence(res, p, w)[j] + Pow2(w - 1)
  {
    var s := StateSequence(res, p, w);
    StatesHalves(res, p, w, 0);
    StateAt(res, p, w, 0);
    forall j | 0 <= j < p
      ensures 0 <= s[j] < Pow2(w)
    {
      StatesHalves(res, p, w, j);
      StateAt(res, p, w, j);
    }
    forall i, j | 0 <= i < j < p
      ensures s[i] != s[j]
    {
      StatesDistinct(res, p, w, i, j);
      StateAt(res, p, w, i);
      StateAt(res, p, w, j);
    }
    StateAt(res, p, w, Half(p));
    forall j | 0 <= j && j + Half(p) < p
      ensures s[j + Half(p)] == s[j] + Pow2(w - 1)
    {
      StateAt(res, p, w, j);
      StateAt(res, p, w, j + Half(p));
    }
  }

  // ---------------------------------------------------------------
  // The config-state map built in `main`.

  /** Position of entry (mask m, state v) in `csmap`: `(m << w) + v`. */
  function CsIndex(m: nat, v: nat, w: nat): nat {
    m * Pow2(w) + v
  }

  /** Distinct (mask, state) pairs use distinct entries, all in range. */
  lemma CsIndexFacts(m: nat, v: nat, w: nat)
    requires m < Pow2(w) && v < Pow2(w)
    ensures CsIndex(m, v, w) < Pow2(w) * Pow2(w)
    ensures CsIndex(m, v, w) / Pow2(w) == m && CsIndex(m, v, w) % Pow2(w) == v
  {
    CsIndexBound(m, v, Pow2(w));
    DivModUnique(CsIndex(m, v, w), Pow2(w), m, v);
  }

  lemma CsIndexBound(m: nat, v: nat, q: nat)
    requires m < q && v < q
    ensures q * m + v < q * q
  {
    MulMonotone(m, q - 1, q);
    assert (q - 1) * q == q * q - q;
  }

  /** The masks whose rows `main` fills: 0 (the initial `comb`) and every valid mask. */
  predicate Filled(m: nat, w: nat) {
    m == 0 || IsValid(m, 4, w)
  }

  /** Every filled row below mask c holds `comb::map` of each state. */
  ghost predicate RowsBelow(csmap: array<nat>, c: nat, w: nat)
    reads csmap
  {
    forall m: nat, v: nat :: Filled(m, w) && m < c && v < Pow2(w) ==>
      CsIndex(m, v, w) < csmap.Length && csmap[CsIndex(m, v, w)] == PackBelow(m, v, w)
  }

  /** Row c holds `comb::map` of each state. */
  ghost predicate RowFilled(csmap: array<nat>, c: nat, w: nat)
    reads csmap
  {
    forall v :: 0 <= v < Pow2(w) ==>
      CsIndex(c, v, w) < csmap.Length && csmap[CsIndex(c, v, w)] == PackBelow(c, v, w)
  }

  /** With row c filled, and no valid mask strictly between c and c', the rows below c' are filled. */
  lemma RowsExtend(csmap: array<nat>, c: nat, c': nat, w: nat)
    requires RowsBelow(csmap, c, w) && RowFilled(csmap, c, w)
    requires NoValidIn(c + 1, c', 4, w)
    ensures RowsBelow(csmap, c', w)
  {
    forall m: nat, v: nat | Filled(m, w) && m < c' && v < Pow2(w)
      ensures CsIndex(m, v, w) < csmap.Length && csmap[CsIndex(m, v, w)] == PackBelow(m, v, w)
    {
      assert m <= c;
    }
  }

  /** Rows are laid out one after the other. */
  lemma RowBefore(m: nat, v: nat, c: nat, q: nat)
    requires m < c && v < q
    ensures m * q + v < c * q
  {
    MulMonotone(m + 1, c, q);
  }

  /**
   * The inner loop of the `csmap` build in `main`: row `gmc.intg()` gets
   * `gmc.map(j)` for every state j; the other rows do not change.
   */
  method FillRow(csmap: array<nat>, gmc: Comb, w: nat)
    requires gmc.n == w && gmc.c < Pow2(w) && csmap.Length == Pow2(w) * Pow2(w)
    modifies csmap
    ensures old(RowsBelow(csmap, gmc.c, w)) ==> RowsBelow(csmap, gmc.c, w)
    ensures RowFilled(csmap, gmc.c, w)
  {
    var q := Pow2(w);
    var c := gmc.c;
    var base := c * q;
    var j := 0;
    while j < q
      invariant 0 <= j <= q
      invariant forall t :: 0 <= t < j ==> CsIndex(c, t, w) < csmap.Length && csmap[CsIndex(c, t, w)] == PackBelow(c, t, w)
      invariant forall idx :: 0 <= idx < csmap.Length && !(base <= idx < base + j) ==> csmap[idx] == old(csmap[idx])
    {
      CsIndexFacts(c, j, w);
      var e := gmc.Map(j);
      csmap[base + j] := e;
      j := j + 1;
    }
    forall m: nat, v: nat | Filled(m, w) && m < c && v < q
      ensures CsIndex(m, v, w) < base
    {
      RowBefore(m, v, c, q);
    }
  }

  /**
   * The `csmap` build in `main`: starting from the initial mask 0, fill
   * the row of the current mask of `gmc`, then step it with `next()`
   * until it rolls over.  The entry at (m, v) is `comb::map` of v for
   * every mask m it reaches.
   */
  method BuildCsmap(w: nat) returns (csmap: array<nat>)
    requires 4 <= w
    ensures csmap.Length == Pow2(w) * Pow2(w)
    ensures forall m: nat, v: nat :: Filled(m, w) && v < Pow2(w) ==>
      CsIndex(m, v, w) < csmap.Length && csmap[CsIndex(m, v, w)] == PackBelow(m, v, w)
  {
    var q := Pow2(w);
    csmap := new nat[q * q](_ => 0);
    var gmc := new Comb(4, w);
    while true
      invariant gmc.k == 4 && gmc.n == w && gmc.c < q && Filled(gmc.c, w)
      invariant csmap.Length == q * q
      invariant RowsBelow(csmap, gmc.c, w)
      decreases q - gmc.c
    {
      FillRow(csmap, gmc, w);
      ghost var before := gmc.c;
      ModSmall(gmc.c, q);
      var more := gmc.Next();
      if !more {
        RowsExtend(csmap, before, q, w);
        forall m: nat, v: nat | Filled(m, w) && v < q
          ensures CsIndex(m, v, w) < csmap.Length && csmap[CsIndex(m, v, w)] == PackBelow(m, v, w)
        {
          PowMonotone(4, w);
        }
        return;
      }
      RowsExtend(csmap, before, gmc.c, w);
    }
  }

  /** The rows of `csmap` that the masks of the current configs use are filled. */
  ghost predicate CsmapRows(csmap: array<nat>, masks: seq<nat>, w: nat)
    reads csmap
  {
    forall i, v :: 0 <= i < |masks| && 0 <= v < Pow2(w) ==>
      CsIndex(masks[i], v, w) < csmap.Length &&
      csmap[CsIndex(masks[i], v, w)] == PackBelow(masks[i], v, w)
  }

  /** One mask per register bit, each 0 or a valid 4-of-w mask. */
  predicate MasksOk(masks: seq<nat>, w: nat) {
    |masks| == w && forall i :: 0 <= i < w ==> Filled(masks[i], w)
  }

  /** The LUT cell a mask selects in a state is one of the 16 cells. */
  lemma CellInRange(m: nat, v: nat, w: nat)
    requires Filled(m, w)
    ensures PackBelow(m, v, w) < Cells
  {
    if m == 0 {
      PopCountZero(w);
    }
    assert Pow2(4) == 16;
  }

  /** The LUT cell `csmap` gives for mask m in state v. */
  function Cell(m: nat, v: nat, w: nat): (c: nat)
    requires Filled(m, w)
    ensures c < Cells && c == PackBelow(m, v, w)
  {
    CellInRange(m, v, w);
    PackBelow(m, v, w)
  }

  // ---------------------------------------------------------------
  // What a set of LUTs does to the register.

  /** LUT i, in register state a, produces bit i of state b. */
  ghost predicate Transition(r: seq<Table>, masks: seq<nat>, a: nat, b: nat, w: nat)
    requires |r| == w && |masks| == w
  {
    forall i :: 0 <= i < w ==> Holds(r[i], PackBelow(masks[i], a, w), Bit(b, i) == 1)
  }

  /**
   * The state pairs (as positions in the sequence) that depth e checks:
   * e-1 to e, and either e-1+h to e+h or, once e+h runs past the end,
   * the loop back p-1 to 0.
   */
  function DepthEdges(e: nat, p: nat): (r: seq<(nat, nat)>)
    requires 1 <= e && 2 <= p && e <= Half(p)
    ensures |r| == 2 && forall q :: 0 <= q < 2 ==> r[q].0 < p && r[q].1 < p
  {
    var h := Half(p);
    [(e - 1, e)] + (if e + h < p then [(e - 1 + h, e + h)] else [(p - 1, 0)])
  }

  /** Every pair depth e checks holds in the LUTs, for the states s. */
  ghost predicate DepthHolds(r: seq<Table>, masks: seq<nat>, s: seq<int>, e: nat, p: nat, w: nat)
    requires |r| == w && |masks| == w && IsStates(s, p, w) && 1 <= e && 2 <= p && e <= Half(p)
  {
    && Transition(r, masks, s[DepthEdges(e, p)[0].0], s[DepthEdges(e, p)[0].1], w)
    && Transition(r, masks, s[DepthEdges(e, p)[1].0], s[DepthEdges(e, p)[1].1], w)
  }

  /** Refinement never loses a fixed cell, so transitions survive it. */
  lemma TransitionRefined(t: seq<Table>, u: seq<Table>, masks: seq<nat>, a: nat, b: nat, w: nat)
    requires |t| == w && |u| == w && |masks| == w && MasksOk(masks, w)
    requires forall i :: 0 <= i < w ==> Refines(t[i], u[i])
    requires Transition(t, masks, a, b, w)
    ensures Transition(u, masks, a, b, w)
  {
    forall i | 0 <= i < w
      ensures Holds(u[i], PackBelow(masks[i], a, w), Bit(b, i) == 1)
    {
      CellInRange(masks[i], a, w);
    }
  }

  lemma RefinesTransitive(t: Table, u: Table, v: Table)
    requires Refines(t, u) && Refines(u, v)
    ensures Refines(t, v)
  {
  }

  // ---------------------------------------------------------------
  // The check made at one depth of `fill_luts`.

  /**
   * Fix cell c1 to v1, then, when that succeeded, cell c2 to v2.  When
   * both succeed, both cells hold their values; either way the table
   * stays well formed and keeps every cell it had fixed.
   */
  function SetPair(t: Table, c1: nat, v1: bool, c2: nat, v2: bool): (r: (Table, bool))
    requires c1 < Cells && c2 < Cells
    ensures WellFormed(t) ==> WellFormed(r.0) && Refines(t, r.0)
    ensures WellFormed(t) && r.1 ==> Holds(r.0, c1, v1) && Holds(r.0, c2, v2)
  {
    var first := SetCell(t, c1, v1);
    var r := if !first.1 then first else SetCell(first.0, c2, v2);
    if WellFormed(t) then SetTwice(t, c1, v1, c2, v2); r else r
  }

  lemma {:induction false} SetTwice(t: Table, c1: nat, v1: bool, c2: nat, v2: bool)
    requires WellFormed(t) && c1 < Cells && c2 < Cells
    ensures var first := SetCell(t, c1, v1);
      var r := if !first.1 then first else SetCell(first.0, c2, v2);
      WellFormed(r.0) && Refines(t, r.0) && (r.1 ==> Holds(r.0, c1, v1) && Holds(r.0, c2, v2))
  {
    var first := SetCell(t, c1, v1);
    SetCellWellFormed(t, c1, v1);
    SetCellRefines(t, c1, v1);
    if first.1 {
      var second := SetCell(first.0, c2, v2);
      SetCellWellFormed(first.0, c2, v2);
      SetCellRefines(first.0, c2, v2);
      RefinesTransitive(t, first.0, second.0);
      if second.1 {
        assert Holds(first.0, c1, v1);
      }
    }
  }

  /**
   * LUT i after fixing its cells for both pairs of depth e: the output for
   * the first state of a pair must be bit i of the second.  The second
   * component is false when a cell was already fixed the other way.
   */
  function Constrain(t: Table, m: nat, s: seq<int>, e: nat, p: nat, w: nat, i: nat): (r: (Table, bool))
    requires IsStates(s, p, w) && 1 <= e && 2 <= p && e <= Half(p) && Filled(m, w)
  {
    var h := Half(p);
    var a2 := if e + h < p then s[e - 1 + h] else s[p - 1];
    var b2 := if e + h < p then s[e + h] else s[0];
    SetPair(t, Cell(m, s[e - 1], w), Bit(s[e], i) == 1, Cell(m, a2, w), Bit(b2, i) == 1)
  }

  /** The two pairs of depth e, as positions: e-1 to e, and the second one. */
  lemma EdgesAre(e: nat, p: nat)
    requires 1 <= e && 2 <= p && e <= Half(p)
    ensures var h := Half(p);
      && DepthEdges(e, p)[0] == (e - 1, e)
      && DepthEdges(e, p)[1] == if e + h < p then (e - 1 + h, e + h) else (p - 1, 0)
  {
  }

  /** A successful `Constrain` keeps the table well formed and fixes both cells. */
  lemma {:induction false} ConstrainFacts(t: Table, m: nat, s: seq<int>, e: nat, p: nat, w: nat, i: nat)
    requires IsStates(s, p, w) && 1 <= e && 2 <= p && e <= Half(p) && Filled(m, w)
    requires WellFormed(t)
    ensures var r := Constrain(t, m, s, e, p, w, i);
      var h := Half(p);
      var a2 := if e + h < p then s[e - 1 + h] else s[p - 1];
      var b2 := if e + h < p then s[e + h] else s[0];
      && WellFormed(r.0) && Refines(t, r.0)
      && (r.1 ==> Holds(r.0, PackBelow(m, s[e - 1], w), Bit(s[e], i) == 1))
      && (r.1 ==> Holds(r.0, PackBelow(m, a2, w), Bit(b2, i) == 1))
  {
  }

  /**
   * The body of step 1 of `fill_luts` for LUT i: look both cells up in
   * `csmap` and fix them, the first pair first.
   */
  method ConstrainLut(t: Table, m: nat, states: seq<int>, csmap: array<nat>,
                      e: nat, p: nat, w: nat, i: nat) returns (r: (Table, bool))
    requires IsStates(states, p, w) && 1 <= e && 2 <= p && e <= Half(p) && Filled(m, w)
    requires forall v :: 0 <= v < Pow2(w) ==>
      CsIndex(m, v, w) < csmap.Length && csmap[CsIndex(m, v, w)] == PackBelow(m, v, w)
    ensures r == Constrain(t, m, states, e, p, w, i)
  {
    var h := Half(p);
    var a2, b2 := if e + h < p then states[e - 1 + h] else states[p - 1],
                  if e + h < p then states[e + h] else states[0];
    ghost var spec := SetPair(t, Cell(m, states[e - 1], w), Bit(states[e], i) == 1, Cell(m, a2, w), Bit(b2, i) == 1);
    assert spec == Constrain(t, m, states, e, p, w, i);
    var c1 := csmap[CsIndex(m, states[e - 1], w)];
    assert c1 == Cell(m, states[e - 1], w);
    var first := SetCell(t, c1, Bit(states[e], i) == 1);
    if !first.1 {
      return first;
    }
    var c2 := csmap[CsIndex(m, a2, w)];
    assert c2 == Cell(m, a2, w);
    r := SetCell(first.0, c2, Bit(b2, i) == 1);
  }

  /** One more LUT of `CheckDepth` constrained successfully. */
  lemma CheckedOneMore(luts: seq<Table>, out: seq<Table>, masks: seq<nat>, s: seq<int>,
                       e: nat, p: nat, w: nat, i: nat, r: (Table, bool))
    requires IsStates(s, p, w) && 1 <= e && 2 <= p && e <= Half(p)
    requires |luts| == w && |out| == w && MasksOk(masks, w) && i < w
    requires forall j :: 0 <= j < i ==> Constrain(luts[j], masks[j], s, e, p, w, j).1
    requires forall j :: 0 <= j < i ==> out[j] == Constrain(luts[j], masks[j], s, e, p, w, j).0
    requires forall j :: i <= j < w ==> out[j] == luts[j]
    requires r == Constrain(out[i], masks[i], s, e, p, w, i) && r.1
    ensures forall j :: 0 <= j < i + 1 ==> Constrain(luts[j], masks[j], s, e, p, w, j).1
    ensures forall j :: 0 <= j < i + 1 ==> out[i := r.0][j] == Constrain(luts[j], masks[j], s, e, p, w, j).0
    ensures forall j :: i + 1 <= j < w ==> out[i := r.0][j] == luts[j]
  {
    assert out[i] == luts[i];
  }

  /**
   * Step 1 of `fill_luts` at depth e: for each LUT in turn, fix the cells
   * of both pairs, looking the cells up in `csmap`.  Fails as soon as one
   * cell conflicts.
   */
  method CheckDepth(luts: seq<Table>, states: seq<int>, masks: seq<nat>, csmap: array<nat>,
                    e: nat, p: nat, w: nat) returns (ok: bool, out: seq<Table>)
    requires IsStates(states, p, w) && 1 <= e && 2 <= p && e <= Half(p)
    requires |luts| == w && MasksOk(masks, w) && CsmapRows(csmap, masks, w)
    ensures ok <==> forall i :: 0 <= i < w ==> Constrain(luts[i], masks[i], states, e, p, w, i).1
    ensures ok ==> |out| == w && forall i :: 0 <= i < w ==> out[i] == Constrain(luts[i], masks[i], states, e, p, w, i).0
  {
    out := luts;
    var i := 0;
    while i < w
      invariant 0 <= i <= w && |out| == w
      invariant forall j :: 0 <= j < i ==> Constrain(luts[j], masks[j], states, e, p, w, j).1
      invariant forall j :: 0 <= j < i ==> out[j] == Constrain(luts[j], masks[j], states, e, p, w, j).0
      invariant forall j :: i <= j < w ==> out[j] == luts[j]
    {
      var r := ConstrainLut(out[i], masks[i], states, csmap, e, p, w, i);
      if !r.1 {
        return false, out;
      }
      CheckedOneMore(luts, out, masks, states, e, p, w, i, r);
      out := out[i := r.0];
      i := i + 1;
    }
    return true, out;
  }

  // ---------------------------------------------------------------
  // Where the recursion stops.

  /** The stop test of `fill_luts` as written: `d + p2 >= states.size()`. */
  predicate StopAsWritten(d: nat, p: nat) {
    d + Half(p) >= p
  }

  /** The stop test the model uses: the last depth is p2. */
  predicate Stop(d: nat, p: nat) {
    d >= Half(p)
  }

  /**
   * For odd p the stop test as written ends the recursion at depth
   * p - p2 = p2 - 1, and no depth up to there checks the pair from state
   * p2 - 1 to state p2 (for p = 5: from state 2 to state 3).
   */
  lemma AsWrittenSkipsMidpoint(p: nat)
    requires 3 <= p && p % 2 == 1
    ensures StopAsWritten(Half(p) - 1, p)
    ensures forall d :: 1 <= d < Half(p) - 1 ==> !StopAsWritten(d, p)
    ensures forall e, q :: 1 <= e <= Half(p) - 1 && 0 <= q < 2 ==>
      DepthEdges(e, p)[q] != (Half(p) - 1, Half(p))
  {
  }

  /** For even p both tests stop at the same depth. */
  lemma StopsAgreeForEven(p: nat, d: nat)
    requires p % 2 == 0
    ensures Stop(d, p) <==> StopAsWritten(d, p)
  {
  }

  /** The concrete case p = 5. */
  lemma AsWrittenSkipsMidpointFive()
    ensures StopAsWritten(2, 5) && !StopAsWritten(1, 5)
    ensures forall e, q :: 1 <= e <= 2 && 0 <= q < 2 ==> DepthEdges(e, 5)[q] != (2, 3)
  {
    AsWrittenSkipsMidpoint(5);
  }

  /** The position after j in a cycle of length p. */
  function Succ(j: nat, p: nat): nat {
    if j + 1 == p then 0 else j + 1
  }

  /** With the last depth p2, every step j -> j+1 (mod p) of the cycle is checked. */
  lemma {:induction false} DepthsCoverCycle(p: nat, j: nat)
    requires 2 <= p && j < p
    ensures exists e, q :: 1 <= e <= Half(p) && 0 <= q < 2 && DepthEdges(e, p)[q] == (j, Succ(j, p))
  {
    var h := Half(p);
    if j < h {
      assert DepthEdges(j + 1, p)[0] == (j, Succ(j, p));
    } else if j < p - 1 {
      var e := j - h + 1;
      assert DepthEdges(e, p)[1] == (j, Succ(j, p));
    } else {
      assert DepthEdges(h, p)[1] == (j, Succ(j, p));
    }
  }

  // ---------------------------------------------------------------
  // `fill_luts`.

  /**
   * The variation and state sequence `fill_luts` is given: a variation of
   * p2 - 1 values of 1 .. 2^(w-1) - 1 and the states it stands for.
   */
  ghost predicate VariArgs(stv: Vari, states: seq<int>, p: nat, w: nat)
    reads stv
  {
    && 3 <= p && 1 <= w
    && stv.Valid() && stv.k == Half(p) - 1 && stv.range == Range(1, Pow2(w - 1) - 1)
    && states == StateSequence(stv.result, p, w)
  }

  /** The LUTs, masks and `csmap` `fill_luts` is given: one of each per register bit. */
  ghost predicate TableArgs(luts: seq<Table>, masks: seq<nat>, csmap: array<nat>, w: nat)
    reads csmap
  {
    && |luts| == w && (forall i :: 0 <= i < w ==> WellFormed(luts[i]))
    && MasksOk(masks, w) && CsmapRows(csmap, masks, w)
  }

  /** The current variation gives a well-shaped state sequence. */
  lemma ArgsStates(stv: Vari, p: nat, w: nat)
    requires 3 <= p && 1 <= w && stv.Valid() && stv.k == Half(p) - 1
    requires stv.range == Range(1, Pow2(w - 1) - 1)
    ensures IsStates(StateSequence(stv.result, p, w), p, w)
  {
    forall v | v in stv.result
      ensures 1 <= v < Pow2(w - 1)
    {
      var r := Range(1, Pow2(w - 1) - 1);
      var j :| 0 <= j < |r| && r[j] == v;
    }
    StatesFacts(stv.result, p, w);
  }

  /** What a successful `CheckDepth` gives: refined, well-formed LUTs where depth d holds. */
  lemma CheckedHolds(luts: seq<Table>, cur: seq<Table>, masks: seq<nat>, s: seq<int>, d: nat, p: nat, w: nat)
    requires IsStates(s, p, w) && 1 <= d && 2 <= p && d <= Half(p)
    requires |luts| == w && |cur| == w && MasksOk(masks, w)
    requires forall i :: 0 <= i < w ==> WellFormed(luts[i])
    requires forall i :: 0 <= i < w ==> Constrain(luts[i], masks[i], s, d, p, w, i).1
    requires forall i :: 0 <= i < w ==> cur[i] == Constrain(luts[i], masks[i], s, d, p, w, i).0
    ensures RefinedFrom(luts, cur, w)
    ensures DepthHolds(cur, masks, s, d, p, w)
  {
    var h := Half(p);
    EdgesAre(d, p);
    var edges := DepthEdges(d, p);
    var a1, b1 := s[edges[0].0], s[edges[0].1];
    var a2, b2 := s[edges[1].0], s[edges[1].1];
    assert a1 == s[d - 1] && b1 == s[d];
    assert a2 == (if d + h < p then s[d - 1 + h] else s[p - 1]);
    assert b2 == (if d + h < p then s[d + h] else s[0]);
    forall i | 0 <= i < w
      ensures WellFormed(cur[i]) && Refines(luts[i], cur[i])
      ensures Holds(cur[i], PackBelow(masks[i], a1, w), Bit(b1, i) == 1)
      ensures Holds(cur[i], PackBelow(masks[i], a2, w), Bit(b2, i) == 1)
    {
      ConstrainFacts(luts[i], masks[i], s, d, p, w, i);
    }
    assert Transition(cur, masks, a1, b1, w);
    assert Transition(cur, masks, a2, b2, w);
  }

  /** The pairs of a depth survive refinement of every LUT. */
  lemma DepthRefined(t: seq<Table>, u: seq<Table>, masks: seq<nat>, s: seq<int>, e: nat, p: nat, w: nat)
    requires IsStates(s, p, w) && 1 <= e && 2 <= p && e <= Half(p)
    requires |t| == w && |u| == w && MasksOk(masks, w)
    requires forall i :: 0 <= i < w ==> Refines(t[i], u[i])
    requires DepthHolds(t, masks, s, e, p, w)
    ensures DepthHolds(u, masks, s, e, p, w)
  {
    var edges := DepthEdges(e, p);
    TransitionRefined(t, u, masks, s[edges[0].0], s[edges[0].1], w);
    TransitionRefined(t, u, masks, s[edges[1].0], s[edges[1].1], w);
  }

  /** Every LUT of r is well formed and keeps what the LUTs t fixed. */
  ghost predicate RefinedFrom(t: seq<Table>, r: seq<Table>, w: nat) {
    |t| == w && |r| == w && forall i :: 0 <= i < w ==> WellFormed(r[i]) && Refines(t[i], r[i])
  }

  /**
   * The trail of state sequences of the depths d .. p2: its head is a
   * candidate cycle whose pairs for depth d hold in r (depth 0 checks
   * nothing), and its tail covers the depths from d + 1 on.
   */
  ghost predicate Covered(r: seq<Table>, masks: seq<nat>, trail: seq<seq<int>>, d: nat, p: nat, w: nat)
    requires 2 <= p && |r| == w && MasksOk(masks, w)
    decreases |trail|
  {
    if trail == [] then d == Half(p) + 1
    else
      && IsStates(trail[0], p, w)
      && (1 <= d <= Half(p) ==> DepthHolds(r, masks, trail[0], d, p, w))
      && Covered(r, masks, trail[1..], d + 1, p, w)
  }

  /** Element j of a covering trail is the sequence depth d + j checked. */
  lemma {:induction false} CoveredAt(r: seq<Table>, masks: seq<nat>, trail: seq<seq<int>>, d: nat, p: nat, w: nat, j: nat)
    requires 2 <= p && |r| == w && MasksOk(masks, w) && Covered(r, masks, trail, d, p, w)
    ensures |trail| == Half(p) + 1 - d && d <= Half(p) + 1
    ensures j < |trail| ==> IsStates(trail[j], p, w)
    ensures j < |trail| && 1 <= d + j <= Half(p) ==> DepthHolds(r, masks, trail[j], d + j, p, w)
    decreases |trail|
  {
    if trail != [] {
      var tail := trail[1..];
      assert Covered(r, masks, tail, d + 1, p, w);
      CoveredAt(r, masks, tail, d + 1, p, w, if j == 0 then 0 else j - 1);
      if j > 0 && j < |trail| {
        assert trail[j] == tail[j - 1];
      }
    }
  }

  /** Depth d in front of the depths d+1 .. p2 the recursion covered. */
  lemma TrailExtends(r: seq<Table>, masks: seq<nat>, states: seq<int>, sub: seq<seq<int>>, d: nat, p: nat, w: nat)
    requires 2 <= p && |r| == w && MasksOk(masks, w) && IsStates(states, p, w) && d < Half(p)
    requires Covered(r, masks, sub, d + 1, p, w)
    requires d > 0 ==> DepthHolds(r, masks, states, d, p, w)
    ensures Covered(r, masks, [states] + sub, d, p, w)
  {
    assert ([states] + sub)[1..] == sub;
  }

  /** Putting depth d in front of what the recursion returned. */
  lemma DepthDone(luts: seq<Table>, cur: seq<Table>, r: seq<Table>, masks: seq<nat>, states: seq<int>,
                  sub: seq<seq<int>>, d: nat, p: nat, w: nat)
    requires 2 <= p && MasksOk(masks, w) && IsStates(states, p, w) && d < Half(p)
    requires RefinedFrom(luts, cur, w) && RefinedFrom(cur, r, w)
    requires Covered(r, masks, sub, d + 1, p, w)
    requires d > 0 ==> DepthHolds(cur, masks, states, d, p, w)
    ensures RefinedFrom(luts, r, w) && Covered(r, masks, [states] + sub, d, p, w)
  {
    RefinedFromTransitive(luts, cur, r, w);
    if d > 0 {
      DepthRefined(cur, r, masks, states, d, p, w);
    }
    TrailExtends(r, masks, states, sub, d, p, w);
  }

  /** Refinement is transitive for whole LUT sets. */
  lemma RefinedFromTransitive(t: seq<Table>, u: seq<Table>, r: seq<Table>, w: nat)
    requires RefinedFrom(t, u, w) && RefinedFrom(u, r, w)
    ensures RefinedFrom(t, r, w)
  {
    forall i | 0 <= i < w
      ensures Refines(t[i], r[i])
    {
      RefinesTransitive(t[i], u[i], r[i]);
    }
  }

  /**
   * `fill_luts(luts, stv, states, configs, csmap, d)` with the stop test
   * `d >= p2`.  At depth d > 0 it first checks the pairs of depth d, then
   * goes deeper (`Retry`).  A non-empty result refines the LUTs it was
   * given, and each depth d + j up to p2 has its pairs fixed for the state
   * sequence trail[j] that depth was given.
   */
  method FillLuts(luts: seq<Table>, stv: Vari, states: seq<int>, masks: seq<nat>, csmap: array<nat>,
                  d: nat, p: nat, w: nat) returns (r: seq<Table>, ghost trail: seq<seq<int>>)
    requires VariArgs(stv, states, p, w) && TableArgs(luts, masks, csmap, w) && d <= Half(p)
    ensures r == [] || |r| == w
    ensures r != [] ==> RefinedFrom(luts, r, w)
    ensures r != [] ==> Covered(r, masks, trail, d, p, w) && trail[0] == states
    decreases Half(p) - d, 2
  {
    ArgsStates(stv, p, w);
    var cur := luts;
    if d > 0 {
      var ok;
      ok, cur := CheckAt(luts, states, masks, csmap, d, p, w);
      if !ok {
        return [], [];
      }
      if Stop(d, p) {
        r, trail := cur, [states];
        CoveredLast(r, masks, states, d, p, w);
        return;
      }
    } else {
      RefinedFromSelf(luts, w);
    }
    ghost var sub;
    r, sub := Retry(cur, stv, states, masks, csmap, d, p, w);
    if r == [] {
      return [], [];
    }
    trail := [states] + sub;
    DepthDone(luts, cur, r, masks, states, sub, d, p, w);
  }

  /**
   * The check of depth d in `fill_luts` (and its early return on a
   * conflict): on success the LUTs refine the given ones and both pairs of
   * depth d hold in them.
   */
  method CheckAt(luts: seq<Table>, states: seq<int>, masks: seq<nat>, csmap: array<nat>,
                 d: nat, p: nat, w: nat) returns (ok: bool, cur: seq<Table>)
    requires IsStates(states, p, w) && 1 <= d && 2 <= p && d <= Half(p)
    requires TableArgs(luts, masks, csmap, w)
    ensures ok <==> forall i :: 0 <= i < w ==> Constrain(luts[i], masks[i], states, d, p, w, i).1
    ensures ok ==> TableArgs(cur, masks, csmap, w) && RefinedFrom(luts, cur, w)
    ensures ok ==> DepthHolds(cur, masks, states, d, p, w)
  {
    ok, cur := CheckDepth(luts, states, masks, csmap, d, p, w);
    if ok {
      CheckedHolds(luts, cur, masks, states, d, p, w);
    }
  }

  /** Every LUT refines itself. */
  lemma RefinedFromSelf(t: seq<Table>, w: nat)
    requires |t| == w && forall i :: 0 <= i < w ==> WellFormed(t[i])
    ensures RefinedFrom(t, t, w)
  {
  }

  /** The last depth p2, once checked, is covered by a trail of one. */
  lemma CoveredLast(r: seq<Table>, masks: seq<nat>, states: seq<int>, d: nat, p: nat, w: nat)
    requires 2 <= p && |r| == w && MasksOk(masks, w) && IsStates(states, p, w)
    requires 1 <= d == Half(p) && DepthHolds(r, masks, states, d, p, w)
    ensures Covered(r, masks, [states], d, p, w)
  {
    assert [states][1..] == [];
  }

  /** Another variation of the same range gives arguments that fit as well. */
  lemma ArgsCopy(stv: Vari, v: Vari, states: seq<int>, sts: seq<int>, p: nat, w: nat)
    requires VariArgs(stv, states, p, w)
    requires v.Valid() && v.k == stv.k && v.range == stv.range && sts == StateSequence(v.result, p, w)
    ensures VariArgs(v, sts, p, w)
  {
  }

  /**
   * One turn of the loop of `fill_luts` after the recursive call: step the
   * digits 0..d of the variation (`stv.next(d)`) and recompute the states
   * (`genstates`).  On success the rank of those digits went up by one.
   */
  method Advance(v: Vari, d: nat, p: nat, w: nat) returns (advanced: bool, sts: seq<int>)
    requires 1 <= w && VariArgs(v, StateSequence(v.result, p, w), p, w) && d < Half(p)
    modifies v
    ensures VariArgs(v, sts, p, w)
    ensures advanced ==> Rank(v.s, v.Prefix(d), v.n) == old(Rank(v.s, v.Prefix(d), v.n)) + 1
    ensures advanced ==> Rank(v.s, v.Prefix(d), v.n) < Falling(v.n, v.Prefix(d))
  {
    advanced := v.Next(d);
    sts := GenStates(v, p, w);
  }

  /**
   * The loop of `fill_luts` at depth d: go one depth deeper; meanwhile
   * step the digits 0..d of its own copy of stv (the argument is passed by
   * value) and recompute the states; stop on a non-empty result, or with
   * an empty one once the digits have rolled over.
   */
  method Retry(cur: seq<Table>, stv: Vari, states: seq<int>, masks: seq<nat>, csmap: array<nat>,
               d: nat, p: nat, w: nat) returns (r: seq<Table>, ghost sub: seq<seq<int>>)
    requires VariArgs(stv, states, p, w) && TableArgs(cur, masks, csmap, w) && d < Half(p)
    ensures r == [] || |r| == w
    ensures r != [] ==> RefinedFrom(cur, r, w) && Covered(r, masks, sub, d + 1, p, w)
    decreases Half(p) - d, 1
  {
    var v := new Vari.Clone(stv);
    var sts := states;
    ArgsCopy(stv, v, states, sts, p, w);
    RankBound(v.s, v.Prefix(d), v.n);
    while true
      invariant VariArgs(v, sts, p, w)
      invariant Rank(v.s, v.Prefix(d), v.n) < Falling(v.n, v.Prefix(d))
      decreases Falling(v.n, v.Prefix(d)) - Rank(v.s, v.Prefix(d), v.n)
    {
      var ret, advanced;
      ghost var deeper;
      ret, deeper, advanced, sts := Turn(cur, v, sts, masks, csmap, d, p, w);
      if ret != [] {
        return ret, deeper;
      }
      if !advanced {
        return [], [];
      }
    }
  }

  /** One turn of that loop: the call one depth deeper, then `Advance`. */
  method Turn(cur: seq<Table>, v: Vari, sts: seq<int>, masks: seq<nat>, csmap: array<nat>,
              d: nat, p: nat, w: nat)
    returns (ret: seq<Table>, ghost deeper: seq<seq<int>>, advanced: bool, sts': seq<int>)
    requires VariArgs(v, sts, p, w) && TableArgs(cur, masks, csmap, w) && d < Half(p)
    modifies v
    ensures VariArgs(v, sts', p, w)
    ensures ret == [] || |ret| == w
    ensures ret != [] ==> RefinedFrom(cur, ret, w) && Covered(ret, masks, deeper, d + 1, p, w)
    ensures advanced ==> Rank(v.s, v.Prefix(d), v.n) == old(Rank(v.s, v.Prefix(d), v.n)) + 1
    ensures advanced ==> Rank(v.s, v.Prefix(d), v.n) < Falling(v.n, v.Prefix(d))
    decreases Half(p) - d, 0
  {
    ret, deeper := FillLuts(cur, v, sts, masks, csmap, d + 1, p, w);
    advanced, sts' := Advance(v, d, p, w);
  }

  // ---------------------------------------------------------------
  // What the LUTs found do.

  /** The register's next value: bit i is the output of LUT i. */
  function NextWord(r: seq<Table>, masks: seq<nat>, a: nat, w: nat, i: nat): (y: nat)
    requires i <= |r| && i <= |masks|
    ensures y < Pow2(i)
  {
    if i == 0 then 0
    else
      var low := NextWord(r, masks, a, w, i - 1);
      low + (if Value(r[i - 1], PackBelow(masks[i - 1], a, w)) then 1 else 0) * Pow2(i - 1)
  }

  /** Bit j of the next value is the output of LUT j. */
  lemma {:induction false} NextWordBit(r: seq<Table>, masks: seq<nat>, a: nat, w: nat, i: nat, j: nat)
    requires i <= |r| && i <= |masks| && j < i
    ensures Bit(NextWord(r, masks, a, w, i), j) == if Value(r[j], PackBelow(masks[j], a, w)) then 1 else 0
  {
    var low := NextWord(r, masks, a, w, i - 1);
    var c := if Value(r[i - 1], PackBelow(masks[i - 1], a, w)) then 1 else 0;
    BitOfSum(low, i - 1, c, j);
    if j < i - 1 {
      NextWordBit(r, masks, a, w, i - 1, j);
    }
  }

  /** A transition a -> b that holds in the LUTs is what the register does. */
  lemma TransitionStep(r: seq<Table>, masks: seq<nat>, a: nat, b: nat, w: nat)
    requires |r| == w && |masks| == w && b < Pow2(w) && Transition(r, masks, a, b, w)
    ensures NextWord(r, masks, a, w, w) == b
  {
    forall j | 0 <= j < w
      ensures Bit(NextWord(r, masks, a, w, w), j) == Bit(b, j)
    {
      NextWordBit(r, masks, a, w, w, j);
    }
    BitsDetermine(NextWord(r, masks, a, w, w), b, w);
  }

  /** The register after j clock edges from a. */
  function Run(r: seq<Table>, masks: seq<nat>, a: nat, w: nat, j: nat): nat
    requires |r| == w && |masks| == w
  {
    if j == 0 then a else NextWord(r, masks, Run(r, masks, a, w, j - 1), w, w)
  }

  /**
   * LUTs that fix every pair of every depth 1..p2 for one state sequence
   * make the register walk that sequence: it is back at 0 after p clock
   * edges and not before, so the top bit divides the clock by p.
   */
  lemma {:induction false} CycleRealised(r: seq<Table>, masks: seq<nat>, s: seq<int>, p: nat, w: nat)
    requires 2 <= p && |r| == w && MasksOk(masks, w) && IsStates(s, p, w) && s[0] == 0
    requires forall e :: 1 <= e <= Half(p) ==> DepthHolds(r, masks, s, e, p, w)
    ensures forall j :: 0 <= j < p ==> Run(r, masks, 0, w, j) == s[j]
    ensures Run(r, masks, 0, w, p) == 0
    ensures forall j :: 0 < j < p ==> Run(r, masks, 0, w, j) != 0
  {
    forall j | 0 <= j < p
      ensures Run(r, masks, 0, w, j) == s[j]
    {
      RunWalks(r, masks, s, p, w, j);
    }
    RunWalks(r, masks, s, p, w, p - 1);
    CycleStep(r, masks, s, p, w, p - 1);
    TransitionStep(r, masks, s[p - 1], s[0], w);
    forall j | 0 < j < p
      ensures Run(r, masks, 0, w, j) != 0
    {
      assert s[0] != s[j];
    }
  }

  /** s and t hold the same states at the positions depth e checks. */
  ghost predicate AgreeAt(s: seq<int>, t: seq<int>, e: nat, p: nat) {
    && 2 <= p && 1 <= e <= Half(p) && |s| == p && |t| == p
    && s[DepthEdges(e, p)[0].0] == t[DepthEdges(e, p)[0].0]
    && s[DepthEdges(e, p)[0].1] == t[DepthEdges(e, p)[0].1]
    && s[DepthEdges(e, p)[1].0] == t[DepthEdges(e, p)[1].0]
    && s[DepthEdges(e, p)[1].1] == t[DepthEdges(e, p)[1].1]
  }

  /** Whether depth e holds depends only on the states at its positions. */
  lemma {:induction false} DepthHoldsAgree(r: seq<Table>, masks: seq<nat>, s: seq<int>, t: seq<int>, e: nat, p: nat, w: nat)
    requires |r| == w && |masks| == w && IsStates(s, p, w) && IsStates(t, p, w)
    requires AgreeAt(s, t, e, p) && DepthHolds(r, masks, s, e, p, w)
    ensures DepthHolds(r, masks, t, e, p, w)
  {
  }

  /**
   * Depth e of a depth-0 trail holds for the deepest sequence when the
   * sequence depth e checked agrees with it on the positions of its pairs.
   */
  lemma {:induction false} DeepestHoldsAt(r: seq<Table>, masks: seq<nat>, trail: seq<seq<int>>, p: nat, w: nat, e: nat)
    requires 2 <= p && |r| == w && MasksOk(masks, w) && Covered(r, masks, trail, 0, p, w)
    requires |trail| == Half(p) + 1 && 1 <= e <= Half(p)
    requires e < Half(p) ==> AgreeAt(trail[e], trail[Half(p)], e, p)
    ensures IsStates(trail[Half(p)], p, w) && DepthHolds(r, masks, trail[Half(p)], e, p, w)
  {
    CoveredAt(r, masks, trail, 0, p, w, Half(p));
    CoveredAt(r, masks, trail, 0, p, w, e);
    if e < Half(p) {
      DepthHoldsAgree(r, masks, trail[e], trail[Half(p)], e, p, w);
    }
  }

  /**
   * A `fill_luts` result from depth 0 makes the register walk the sequence
   * its deepest depth checked, back at 0 after p clock edges and not before,
   * when every shallower depth checked a sequence that agrees with that one
   * on the positions of its own pairs.
   */
  lemma {:induction false} AgreeingTrailRealised(r: seq<Table>, masks: seq<nat>, trail: seq<seq<int>>, p: nat, w: nat)
    requires 2 <= p && |r| == w && MasksOk(masks, w) && Covered(r, masks, trail, 0, p, w)
    requires |trail| == Half(p) + 1 && |trail[Half(p)]| == p && trail[Half(p)][0] == 0
    requires forall e :: 1 <= e < Half(p) ==> AgreeAt(trail[e], trail[Half(p)], e, p)
    ensures forall j :: 0 <= j < p ==> Run(r, masks, 0, w, j) == trail[Half(p)][j]
    ensures Run(r, masks, 0, w, p) == 0
    ensures forall j :: 0 < j < p ==> Run(r, masks, 0, w, j) != 0
  {
    var s := trail[Half(p)];
    DeepestHoldsAt(r, masks, trail, p, w, Half(p));
    forall e | 1 <= e <= Half(p)
      ensures DepthHolds(r, masks, s, e, p, w)
    {
      DeepestHoldsAt(r, masks, trail, p, w, e);
    }
    CycleRealised(r, masks, s, p, w);
  }

  /** After j clock edges from 0 the register holds s[j]. */
  lemma {:induction false} RunWalks(r: seq<Table>, masks: seq<nat>, s: seq<int>, p: nat, w: nat, j: nat)
    requires 2 <= p && |r| == w && |masks| == w && IsStates(s, p, w) && s[0] == 0 && j < p
    requires forall e :: 1 <= e <= Half(p) ==> DepthHolds(r, masks, s, e, p, w)
    ensures Run(r, masks, 0, w, j) == s[j]
  {
    if j > 0 {
      RunWalks(r, masks, s, p, w, j - 1);
      CycleStep(r, masks, s, p, w, j - 1);
      TransitionStep(r, masks, s[j - 1], s[j], w);
    }
  }

  /** The step out of position j is one of the pairs some depth checks. */
  lemma CycleStep(r: seq<Table>, masks: seq<nat>, s: seq<int>, p: nat, w: nat, j: nat)
    requires 2 <= p && |r| == w && |masks| == w && IsStates(s, p, w) && j < p
    requires forall e :: 1 <= e <= Half(p) ==> DepthHolds(r, masks, s, e, p, w)
    ensures Transition(r, masks, s[j], s[Succ(j, p)], w)
  {
    DepthsCoverCycle(p, j);
    var e, q :| 1 <= e <= Half(p) && 0 <= q < 2 && DepthEdges(e, p)[q] == (j, Succ(j, p));
    assert DepthHolds(r, masks, s, e, p, w);
    assert q == 0 || q == 1;
  }
}
