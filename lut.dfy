// The 4-input lookup table of the search tool (class `lut` of
// tools/prdiv_alt.cpp).
//
// A table has 16 cells.  Each cell is either unknown ("don't care") or
// fixed to 0 or 1.  The C++ class keeps two 16-bit masks: `lut_d` holds
// the values and `lut_x` marks the unknown cells.  `Table` is the value of
// those two fields and `Lut` the object whose methods update them.

module Luts {

  import opened Bits

  /** Number of cells of a 4-input table. */
  const Cells: nat := 16

  /** `lut_d` and `lut_x` of one table. */
  datatype Table = Table(data: nat, dontCare: nat)

  /**
   * The representation invariant: both masks are 16-bit and an unknown
   * cell holds no value bit (`lut_d & lut_x == 0`).
   */
  predicate WellFormed(t: Table) {
    && t.data < Pow2(Cells) && t.dontCare < Pow2(Cells)
    && forall i :: 0 <= i < Cells ==> !(Bit(t.data, i) == 1 && Bit(t.dontCare, i) == 1)
  }

  /** Cell i is fixed (its `lut_x` bit is clear). */
  predicate Known(t: Table, i: nat) {
    Bit(t.dontCare, i) == 0
  }

  /** The value bit of cell i, `(lut_d >> i) & 1`. */
  predicate Value(t: Table, i: nat) {
    Bit(t.data, i) == 1
  }

  /** Cell i is fixed to v. */
  predicate Holds(t: Table, i: nat, v: bool) {
    Known(t, i) && Value(t, i) == v
  }

  /** Every cell fixed in t is fixed to the same value in u. */
  predicate Refines(t: Table, u: Table) {
    forall i :: 0 <= i < Cells && Known(t, i) ==> Holds(u, i, Value(t, i))
  }

  /** The table built by the constructor and by `clear`: every cell unknown. */
  function Empty(): (t: Table)
    ensures WellFormed(t)
    ensures forall i :: 0 <= i < Cells ==> !Known(t, i) && !Value(t, i)
  {
    var ones := Pow2(Cells) - 1;
    forall i | 0 <= i < Cells
      ensures Bit(ones, i) == 1 && Bit(0, i) == 0
    {
      BitOfOnes(Cells, i);
      BitAbove(0, 0, i);
    }
    Table(0, ones)
  }

  /** The empty table is refined by every table. */
  lemma EmptyRefinedByAll(u: Table)
    ensures Refines(Empty(), u)
  {
  }

  /**
   * `set(i, val)`: fix cell i to v.  Fails (second component false) when
   * the cell is already fixed to the opposite value.  `lut_d |= p` is an
   * addition because it is only reached when the bit is clear.
   */
  function SetCell(t: Table, i: nat, v: bool): (r: (Table, bool))
    requires i < Cells
    ensures r.1 <==> !Known(t, i) || Value(t, i) == v
    ensures !r.1 ==> r.0 == t
    ensures r.1 ==> Known(r.0, i)
    ensures WellFormed(t) && r.1 ==> Value(r.0, i) == v
    ensures forall j :: j != i ==>
      Known(r.0, j) == Known(t, j) && Value(r.0, j) == Value(t, j)
  {
    var p := Pow2(i);
    if (Bit(t.data, i) == 1) != v && Bit(t.dontCare, i) == 0 then (t, false)
    else
      var d := if (Bit(t.data, i) == 1) != v && v then t.data + p else t.data;
      var x := if Bit(t.dontCare, i) == 1 then t.dontCare - p else t.dontCare;
      SetBitFacts(t.data, i);
      ClearBitFacts(t.dontCare, i);
      (Table(d, x), true)
  }

  /** `set` and `clear` keep `lut_d & lut_x == 0` and both masks 16-bit. */
  lemma {:induction false} SetCellWellFormed(t: Table, i: nat, v: bool)
    requires i < Cells && WellFormed(t)
    ensures WellFormed(SetCell(t, i, v).0)
  {
    var r := SetCell(t, i, v);
    if r.1 {
      if (Bit(t.data, i) == 1) != v && v {
        BitSetBound(t.data, i, Cells);
      }
      if Bit(t.dontCare, i) == 1 {
        ClearBitFacts(t.dontCare, i);
      }
      assert r.0.data < Pow2(Cells);
      assert r.0.dontCare <= t.dontCare;
      forall j | 0 <= j < Cells
        ensures !(Bit(r.0.data, j) == 1 && Bit(r.0.dontCare, j) == 1)
      {
        if j != i {
          assert Known(r.0, j) == Known(t, j) && Value(r.0, j) == Value(t, j);
          assert !(Bit(t.data, j) == 1 && Bit(t.dontCare, j) == 1);
        } else {
          assert Known(r.0, i);
        }
      }
    }
  }

  /** A successful or failed `set` never loses a fixed cell. */
  lemma {:induction false} SetCellRefines(t: Table, i: nat, v: bool)
    requires i < Cells && WellFormed(t)
    ensures Refines(t, SetCell(t, i, v).0)
  {
    var r := SetCell(t, i, v);
    forall j | 0 <= j < Cells && Known(t, j)
      ensures Holds(r.0, j, Value(t, j))
    {
      if j == i && r.1 {
        assert Value(t, i) == v;
      }
    }
  }

  /** The character `str` prints for cell i. */
  function CellChar(t: Table, i: nat): (c: char)
    ensures c == 'x' <==> !Known(t, i)
    ensures c == '1' <==> Holds(t, i, true)
    ensures c == '0' <==> Holds(t, i, false)
  {
    if !Known(t, i) then 'x' else if Value(t, i) then '1' else '0'
  }

  /** The characters of cells n-1 down to 0. */
  function CellsFrom(t: Table, n: nat): (s: string)
    ensures |s| == n
    ensures forall j :: 0 <= j < n ==> s[j] == CellChar(t, n - 1 - j)
  {
    if n == 0 then [] else [CellChar(t, n - 1)] + CellsFrom(t, n - 1)
  }

  /** The text of a table: cell 15 first, cell 0 last. */
  function Text(t: Table): (s: string)
    ensures |s| == Cells
  {
    CellsFrom(t, Cells)
  }

  /** A well-formed table is determined by its text: `str` loses nothing. */
  lemma {:induction false} TextDetermines(t: Table, u: Table)
    requires WellFormed(t) && WellFormed(u) && Text(t) == Text(u)
    ensures t == u
  {
    forall i | 0 <= i < Cells
      ensures Bit(t.dontCare, i) == Bit(u.dontCare, i)
      ensures Bit(t.data, i) == Bit(u.data, i)
    {
      assert Text(t)[15 - i] == CellChar(t, i);
      assert Text(u)[15 - i] == CellChar(u, i);
    }
    BitsDetermine(t.dontCare, u.dontCare, Cells);
    BitsDetermine(t.data, u.data, Cells);
  }

  /** In a well-formed table an unknown cell reads as 0. */
  lemma UnknownReadsZero(t: Table, i: nat)
    requires WellFormed(t) && i < Cells && !Known(t, i)
    ensures !Value(t, i)
  {
  }

  /**
   * One object of class `lut`.  Its methods change `data` and `dontCare`
   * as the functions on `Table` say.
   */
  class Lut {
    var data: nat
    var dontCare: nat

    function Contents(): Table
      reads this
    {
      Table(data, dontCare)
    }

    predicate Valid()
      reads this
    {
      WellFormed(Contents())
    }

    /** `lut()`: every cell unknown. */
    constructor ()
      ensures Contents() == Empty() && Valid()
    {
      data := 0;
      dontCare := Pow2(Cells) - 1;
    }

    /** `operator[]`: the value bit of cell i; unknown cells read as 0. */
    method Get(i: nat) returns (r: bool)
      ensures r == Value(Contents(), i)
      ensures Valid() && i < Cells && !Known(Contents(), i) ==> !r
    {
      r := Bit(data, i) == 1;
    }

    /** `set(i, val)`. */
    method Set(i: nat, v: bool) returns (ok: bool)
      requires i < Cells
      modifies this
      ensures (Contents(), ok) == SetCell(old(Contents()), i, v)
      ensures old(Valid()) ==> Valid()
    {
      var p := Pow2(i);
      ghost var d0, x0 := data, dontCare;
      ClearBitFacts(dontCare, i);
      if (Bit(data, i) == 1) != v {
        if Bit(dontCare, i) == 0 {
          return false;
        }
        if v {
          data := data + p;
        }
      }
      if Bit(dontCare, i) == 1 {
        dontCare := dontCare - p;
      }
      assert data == if (Bit(d0, i) == 1) != v && v then d0 + p else d0;
      assert dontCare == if Bit(x0, i) == 1 then x0 - p else x0;
      if WellFormed(Table(d0, x0)) {
        SetCellWellFormed(Table(d0, x0), i, v);
      }
      return true;
    }

    /** `clear()`: every cell unknown again. */
    method Clear()
      modifies this
      ensures Contents() == Empty()
    {
      data := 0;
      dontCare := Pow2(Cells) - 1;
    }

    /** `str()`: one character per cell, cell 15 first. */
    method Str() returns (s: string)
      ensures s == Text(Contents())
    {
      s := [];
      var i := 15;
      while i >= 0
        invariant -1 <= i <= 15
        invariant s == CellsFrom(Contents(), 16)[..15 - i]
      {
        if Bit(dontCare, i) == 1 {
          s := s + "x";
        } else {
          s := s + (if Bit(data, i) == 1 then "1" else "0");
        }
        i := i - 1;
      }
    }

    /** `eval(d)`: the output of the table for input d; unknown cells give 0. */
    method Eval(d: nat) returns (r: bool)
      ensures r == Value(Contents(), d)
      ensures Valid() && d < Cells && !Known(Contents(), d) ==> !r
    {
      r := Bit(data, d) == 1;
    }
  }
}
