// tools/prdiv.cpp: the divider finder.  Its search kernel is the one in
// brute.dfy; this file holds what is particular to it, the sizes.

module PrDiv {

  import opened Bits
  import opened Brute

  /** `std::vector<int> results(2048)`. */
  const ResultsSize: nat := 2048

  /** `main` refuses periods above 1024. */
  const MaxPeriod: nat := 1024

  /**
   * Every accepted period fits the buffer (testloop writes 2p outputs) and
   * needs at most 10 counter bits.
   */
  lemma {:induction false} PeriodBounds(p: nat)
    requires 1 <= p <= MaxPeriod
    ensures 2 * p <= ResultsSize
    ensures Bitness(p) <= 10
  {
    var r := Bitness(p);
    if r > 10 {
      PowMonotone(10, r - 1);
    }
  }

  /** `main`'s period guard and `testloop` for one configuration. */
  method TestPeriod(p: int, x: nat, mode: nat, config1: nat, config2: nat, mode1: nat, mode2: nat)
    returns (o: Outcome)
    requires 1 <= p && mode <= 2 && mode1 <= 8 && mode2 <= 8
    ensures o.Rejected? <==> p > MaxPeriod
    ensures !o.Rejected? ==> Bitness(p) <= 10
    ensures o.Found? ==> o.reactor1 < Word && o.reactor2 < Word
    ensures o.Found? ==> Accepts(Circuit(Contents(o.reactor1, o.reactor2), config1, config2, Bitness(p) + x), Bitness(p), p)
  {
    o := FindCounter(p, MaxPeriod, ResultsSize, x, mode, config1, config2, mode1, mode2);
    if !o.Rejected? {
      PeriodBounds(p);
    }
  }
}
