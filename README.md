# iCE40 LUT divider and counter search, modelled in Dafny

The tools in `tools/` of ice40_lib search for tiny pseudo-random dividers and
counters. Each circuit is made of 4-input iCE40 LUTs driving a shift register
of w = b + x bits, where b is the counter width and x the extra bits.

This project models the search kernels of three tools and proves what they
compute.

**`tools/prdiv_alt.cpp` (backtracking search).** The model covers:
- the ternary LUT table `lut` (`lut.dfy`);
- the k-of-n mask enumerator `comb` and `mass_next` (`comb.dfy`);
- the variation enumerator `vari` and `fact` (`vari.dfy`);
- `genstates`, the `csmap` table built in `main`, and the recursive `fill_luts` (`search.dfy`).

It also proves that LUTs fixing the pairs of every depth 1..p2, where
p2 = (p+1)/2, for one state sequence make the register walk that sequence
and return to 0 after exactly p clocks (`CycleRealised`). The condition is
sufficient, not necessary: an unfixed cell reads 0 and can happen to give
the right bit. A `fill_luts` result from depth 0 meets the condition for the
sequence of its deepest depth when every shallower depth's sequence agrees
with that one on the positions its own pairs use (`AgreeingTrailRealised`).
A re-roll at depth d changes the sequence, and when the variation carries
below digit d it changes states that shallower depths already checked. The
model claims nothing about the walk in that case.

**`tools/prcnt.cpp` and `tools/prdiv.cpp` (brute-force search).** The two files
share one kernel, modelled once in `brute.dfy`:
- `nextconfig`, `nextreactor`, `lut` and `eval` (one clock of a one- or two-LUT shift register);
- `check` and the simulate/check loop of `testloop`;
- `parseconfig` and `parseconfig_s`, which only tools/prcnt.cpp has.

The modelled `testloop`, `eval` and `check` kernels of the two files differ
only in their sizes, which are in `prcnt.dfy` and `prdiv.dfy`. The `main`s
differ in the reactor modes they pass to `testloop`. tools/prcnt.cpp runs
mode 1 with modes 8,8 and 0,0 and mode 2 with modes 0,0 (lines 320, 340 and
360). tools/prdiv.cpp runs mode 1 with modes 0,0 and mode 2 with modes 6,6
(lines 265 and 285). The model takes the modes as parameters.

Lines 26-134 of tools/prdiv.cpp are the same text as lines 98-199 of
tools/prcnt.cpp, apart from the printing helper `bincout`. Lines 159-185 of
tools/prdiv.cpp are the same text as lines 214-240 of tools/prcnt.cpp. The
table below therefore cites the kernel in tools/prcnt.cpp only.

**Modelling choices:**
- The globals `p`, `b` and `x` become parameters; w = b + x.
- Masks and register states are unbounded naturals. Bit i of v is `Bit(v, i)`, that is `(v >> i) & 1`.
- Packing the bits that a mask selects is `PackBelow`.
- The `static int d` of `eval` is the field `Machine.d`.
- The `results` vector is an array.
- `fill_luts` takes its arguments by value. So it works on a `seq<Table>` of LUT contents and on its own `Vari` copy (`Vari.Clone`).

`fill_luts` in `tools/prdiv_alt.cpp` does not retry LUT input combinations
after a conflict. It only re-rolls the state sequence and returns an empty
vector on failure; `main` steps the combinations with `mass_next`.

## Model

| member | source | states |
|---|---|---|
| Bits.PackBelow | tools/prdiv_alt.cpp:163-181 | the bits of v at the set positions of c, packed, are below 2^popcount(c) |
| Bits.PackBit | tools/prdiv_alt.cpp:163-181 | bit j of the packed value is the bit of v at the j-th lowest set position of c, and 0 for j at or above popcount(c) |
| Bits.PositionsBelow | tools/prdiv_alt.cpp:194-203 | the set positions of c below n, strictly ascending, popcount(c) of them, each set in c |
| Bits.PositionsComplete | tools/prdiv_alt.cpp:194-203 | every set position below n is listed |
| Luts.Empty | tools/prdiv_alt.cpp:48-52 | the fresh table is well formed; every cell is unknown and reads 0 |
| Luts.SetCell | tools/prdiv_alt.cpp:60-70 | `set` succeeds iff the cell is unknown or already holds v; a failure changes nothing; a success fixes cell i, and to v on a well-formed table; no other cell changes |
| Luts.SetCellWellFormed | tools/prdiv_alt.cpp:60-70 | `set` keeps both masks 16-bit and `lut_d & lut_x == 0` |
| Luts.SetCellRefines | tools/prdiv_alt.cpp:60-70 | `set`, successful or not, never loses or flips a fixed cell |
| Luts.CellChar | tools/prdiv_alt.cpp:89-90 | the printed character is 'x' iff the cell is unknown, '1'/'0' iff it is fixed to 1/0 |
| Luts.CellsFrom | tools/prdiv_alt.cpp:87-91 | n characters, cell n-1 first |
| Luts.TextDetermines | tools/prdiv_alt.cpp:83-93 | two well-formed tables with the same `str` text are equal |
| Luts.UnknownReadsZero | tools/prdiv_alt.cpp:54-57 | in a well-formed table an unknown cell reads 0 |
| Luts.Lut.constructor | tools/prdiv_alt.cpp:48-52 | the new object holds the empty table |
| Luts.Lut.Get | tools/prdiv_alt.cpp:54-57 | `operator[]` is the value bit, false on an unknown cell of a well-formed table |
| Luts.Lut.Set | tools/prdiv_alt.cpp:60-70 | the new fields and the result are those `SetCell` gives for the old fields; a well-formed table stays well formed |
| Luts.Lut.Clear | tools/prdiv_alt.cpp:77-81 | the fields become the empty table |
| Luts.Lut.Str | tools/prdiv_alt.cpp:83-93 | the text is one character per cell, cell 15 first |
| Luts.Lut.Eval | tools/prdiv_alt.cpp:96-99 | the output is the value bit of cell d; an unknown cell of a well-formed table reads 0 |
| Combinations.FirstMask | tools/prdiv_alt.cpp:126-140 | 2^k - 1 is valid and no smaller mask is |
| Combinations.WrapIsFirst | tools/prdiv_alt.cpp:133-137 | a roll-over of `next` lands on 2^k - 1 |
| Combinations.MaskText | tools/prdiv_alt.cpp:183-192 | n characters, character j is bit n-1-j |
| Combinations.MaskTextInjective | tools/prdiv_alt.cpp:183-192 | masks below 2^n with equal text are equal |
| Combinations.ParseConfig | tools/prdiv_alt.cpp:405-418 | the set positions below w in ascending order, popcount of them, exactly the set ones |
| Combinations.Comb.constructor | tools/prdiv_alt.cpp:117-123 | k and n as given and the mask 0 |
| Combinations.Comb.Check | tools/prdiv_alt.cpp:152-161 | true iff exactly k of the low n bits are set |
| Combinations.Comb.Next | tools/prdiv_alt.cpp:126-140 | the new mask is valid; on true it is the least valid mask above the old one; on false nothing valid lies above the old one and it is the least valid mask |
| Combinations.Comb.Set | tools/prdiv_alt.cpp:144-149 | a valid i is kept and true returned; otherwise as `next` from i |
| Combinations.Comb.Map | tools/prdiv_alt.cpp:163-181 | the result is `PackBelow(c, in, m)` for every m with c < 2^m |
| Combinations.Comb.Str | tools/prdiv_alt.cpp:183-192 | the text is `MaskText(c, n)` |
| Combinations.Comb.Vec | tools/prdiv_alt.cpp:194-203 | the list is `PositionsBelow(c, n)` |
| Combinations.MassNext | tools/prdiv_alt.cpp:432-439 | the combs before index j wrapped, comb j advanced (true) or all wrapped (false), the combs after j are untouched |
| Variations.Fact | tools/prdiv_alt.cpp:28-37 | the result is in! (1 for in < 2) |
| Variations.FallingIsProduct | tools/prdiv_alt.cpp:307-316 | the falling factorial is the product (n-t+1)...n that `cases` computes |
| Variations.FallingTimesFactorial | tools/prdiv_alt.cpp:307-316 | variations of t out of n times (n-t)! is n! |
| Variations.RankBound | tools/prdiv_alt.cpp:224-243 | valid digits read in mixed radix n, n-1, ... lie below the number of variations |
| Variations.RankInjective | tools/prdiv_alt.cpp:224-243 | valid digit vectors of equal rank are equal |
| Variations.RankOverflow | tools/prdiv_alt.cpp:229-236 | a prefix n, 0, ..., 0 has rank exactly Falling(n, t) |
| Variations.CarryKeepsRank | tools/prdiv_alt.cpp:231-236 | the carry step (digit to 0, the one before +1) keeps the rank |
| Variations.Remove | tools/prdiv_alt.cpp:282 | `erase` shifts the later elements down by one |
| Variations.DecodeDistinct | tools/prdiv_alt.cpp:279-283 | the decoded values are distinct values of the range |
| Variations.DecodeZeros | tools/prdiv_alt.cpp:260-265 | all-zero digits pick the first values in order |
| Variations.DecodeInjective | tools/prdiv_alt.cpp:276-283 | different digit vectors pick different variations |
| Variations.Range | tools/prdiv_alt.cpp:252-255 | element i of l..h is l + i, h - l + 1 of them |
| Variations.RangeOf | tools/prdiv_alt.cpp:252-255 | the constructor's first loop builds `Range(l, h)` |
| Variations.FirstPick | tools/prdiv_alt.cpp:260-265 | the constructor's second loop gives k zero digits and the first k values |
| Variations.Vari.constructor | tools/prdiv_alt.cpp:247-267 | zero digits, result l..l+k-1, which is their decoding, invariant established |
| Variations.Vari.Clone | tools/prdiv_alt.cpp:334 | the by-value copy has the same digits and result |
| Variations.Vari.Prefix | tools/prdiv_alt.cpp:227 | `num` clamped to k-1, plus one digit |
| Variations.Vari.NextState | tools/prdiv_alt.cpp:224-243 | true iff the prefix rank + 1 fits; then the prefix rank went up by one and the digits after it are 0; on false the prefix is all 0 and the rest unchanged; digits stay within radix |
| Variations.Vari.Next | tools/prdiv_alt.cpp:272-285 | as `next_state`, and on true the result is the decoding of the new digits; on false the result is unchanged |
| Variations.Vari.DecodeDigits | tools/prdiv_alt.cpp:276-283 | the loop computes `Decode(range, s)` |
| Variations.Vari.Cases | tools/prdiv_alt.cpp:307-316 | `cases()` is n(n-1)...(n-k+1) |
| Search.Half | tools/prdiv_alt.cpp:346 | (p+1)/2 is at most p and below p for p >= 2 |
| Search.GenStates | tools/prdiv_alt.cpp:320-329 | the result is `StateSequence` of the current variation |
| Search.StateAt | tools/prdiv_alt.cpp:320-329 | the sequence holds p states, each fixed by position |
| Search.StatesFacts | tools/prdiv_alt.cpp:320-329 | from Half(p)-1 distinct picks in 1..2^(w-1)-1: p distinct w-bit states, state 0 is 0, state p2 is 2^(w-1), state j+p2 is state j + 2^(w-1) |
| Search.CsIndexFacts | tools/prdiv_alt.cpp:511 | entry (m << w) + v is in range and gives back m and v |
| Search.FillRow | tools/prdiv_alt.cpp:509-512 | the row of the current mask holds `map` of every state; rows filled earlier stay filled |
| Search.BuildCsmap | tools/prdiv_alt.cpp:505-514 | entry (m, v) is `map_m(v)` for mask 0 and every valid mask m, v < 2^w |
| Search.CellInRange | tools/prdiv_alt.cpp:359 | the cell a mask selects is one of the 16 |
| Search.Cell | tools/prdiv_alt.cpp:359 | the `csmap` entry is the packed state, below 16 |
| Search.DepthEdges | tools/prdiv_alt.cpp:359-367 | depth e checks two state pairs, both within the sequence |
| Search.SetPair | tools/prdiv_alt.cpp:359-363 | two `set`s keep the table well formed and refined; on success both cells hold their values |
| Search.ConstrainFacts | tools/prdiv_alt.cpp:356-368 | on success LUT i maps the first state of each pair to bit i of the second |
| Search.ConstrainLut | tools/prdiv_alt.cpp:358-367 | the body of step 1 for one LUT computes `Constrain` |
| Search.CheckDepth | tools/prdiv_alt.cpp:353-368 | true iff every LUT's constraint succeeds; then the LUTs are the constrained ones |
| Search.CheckAt | tools/prdiv_alt.cpp:353-370 | true iff no conflict; then the LUTs refine the given ones and both pairs of depth d hold |
| Search.DepthRefined | tools/prdiv_alt.cpp:359-367 | pairs fixed at a depth survive later `set`s |
| Search.AsWrittenSkipsMidpoint | tools/prdiv_alt.cpp:370 | for odd p the test as written stops at depth p2-1 and no depth checks the pair p2-1 to p2 |
| Search.StopsAgreeForEven | tools/prdiv_alt.cpp:370 | for even p the stop test as written is the corrected one |
| Search.AsWrittenSkipsMidpointFive | tools/prdiv_alt.cpp:370 | p = 5: the test as written stops at depth 2, and the pair 2 to 3 is never checked |
| Search.DepthsCoverCycle | tools/prdiv_alt.cpp:359-367 | with the last depth p2, every step j to j+1 mod p is the pair of some depth |
| Search.FillLuts | tools/prdiv_alt.cpp:334-396 | empty or w LUTs; a non-empty result is well formed, keeps every fixed cell of the input, and fixes the pairs of each depth d..p2 for the state sequence that depth was given; corrected stop rule `d >= p2` (see Findings) |
| Search.Retry | tools/prdiv_alt.cpp:373-395 | the retry loop returns the deeper call's LUTs, or empty once the variation rolled over; corrected stop rule (see Findings) |
| Search.Turn | tools/prdiv_alt.cpp:377-381 | one turn: the deeper call, then `stv.next(d)` and `genstates` |
| Search.Advance | tools/prdiv_alt.cpp:380-381 | on success the rank of digits 0..d goes up by one and stays below the number of variations |
| Search.CoveredAt | tools/prdiv_alt.cpp:334-396 | element j of the trail is a candidate cycle whose pairs of depth d+j hold |
| Search.NextWordBit | tools/prdiv_alt.cpp:358-359 | bit j of the next register value is the output of LUT j on its packed inputs |
| Search.TransitionStep | tools/prdiv_alt.cpp:358-359 | a pair that holds in every LUT is the register's step |
| Search.CycleRealised | tools/prdiv_alt.cpp:353-370 | LUTs that fix all pairs of depths 1..p2 make the register walk the state sequence, back at 0 after p clocks and not before |
| Search.AgreeingTrailRealised | tools/prdiv_alt.cpp:353-396 | a result from depth 0 whose shallower depths agree with the deepest sequence on the positions they check walks that sequence, back at 0 after p clocks and not before |
| Search.RunWalks | tools/prdiv_alt.cpp:353-370 | after j < p clocks from 0 the register holds state j |
| Brute.Witness | tools/prcnt.cpp:125-135 | a reachable goal has a value that meets it, so the search loops end |
| Brute.FirstOffset | tools/prcnt.cpp:125-135 | the least step count at which the value meets the goal, with no earlier one |
| Brute.FirstOffsetAtMost | tools/prcnt.cpp:125-135 | the search stops no later than any step that meets the goal |
| Brute.Next | tools/prcnt.cpp:103-113 | the result is below the modulus and meets the goal |
| Brute.NextAdvances | tools/prcnt.cpp:116-137 | a result above i skips only values that miss the goal |
| Brute.NextWraps | tools/prcnt.cpp:103-113 | a result at or below i means no value above i and none below the result meets the goal |
| Brute.NextModeZero | tools/prcnt.cpp:118 | mode 0 is (i + 1) mod 2^16 |
| Brute.CountOnes | tools/prcnt.cpp:108-111 | the counting loop gives the popcount of the low n bits |
| Brute.NextConfig | tools/prcnt.cpp:98-114 | the first value after i mod 2^w with popcount 3 (s) or 4 |
| Brute.NextReactor | tools/prcnt.cpp:116-137 | the first 16-bit value after i with at least `mode` ones and zeros; (i+1) mod 2^16 for mode 0 |
| Brute.LutIsMaskTest | tools/prcnt.cpp:139-142 | `data & (1 << in)` is set iff data mod 2^(in+1) reaches 2^in, and that is bit `in` of data |
| Brute.LowIsMod | tools/prcnt.cpp:174-175 | gathering the low n bits is d mod 2^n |
| Brute.StepIsShift | tools/prcnt.cpp:174-178 | one clock is (d << 1) under the mask 2^w - 1 plus the feedback bit |
| Brute.StepShifts | tools/prcnt.cpp:144-180 | the new state is below 2^w, its bits 1..w-1 are the old bits 0..w-2 and bit 0 is the feedback |
| Brute.SecondInputBits | tools/prcnt.cpp:164-173 | with config2 of at most 3 bits, LUT2 sees them in inputs 0..2 and LUT1's output in input 3 |
| Brute.Pack | tools/prcnt.cpp:156-163 | the packing loop of `eval` is `PackBelow` |
| Brute.Machine.constructor | tools/prcnt.cpp:146 | the static state starts at 0 |
| Brute.Machine.Eval | tools/prcnt.cpp:144-180 | reset sets the state to 0 and returns 0; otherwise the state becomes `Step` of the old one and is returned |
| Brute.Check | tools/prcnt.cpp:182-199 | true iff the first 2num results repeat after num and the first num are pairwise distinct |
| Brute.PassAt | tools/prcnt.cpp:228-239 | entry j of a recorded pass is the low b bits of the state start + j clocks after reset |
| Brute.NoStutterSnoc | tools/prcnt.cpp:232 | one more result keeps "no repeat in a row" iff it differs from the last |
| Brute.Record | tools/prcnt.cpp:231 | one clock stores the next output of the pass |
| Brute.Continue | tools/prcnt.cpp:235-239 | true iff the whole pass has no repeat in a row; then `results` holds the pass |
| Brute.FirstPass | tools/prcnt.cpp:228-233 | the same for the first pass, which starts with the reset value |
| Brute.Trial | tools/prcnt.cpp:228-240 | a candidate passes iff both passes are free of repeats in a row and pass `check(p)` |
| Brute.AcceptedCounts | tools/prcnt.cpp:228-240 | with x = 0 an accepted circuit's state repeats every p clocks and its first p states are distinct |
| Brute.AdvanceAsWritten | tools/prcnt.cpp:217-224 | mode 1 gives equal reactors |
| Brute.Advance | tools/prcnt.cpp:217-224 | mode 0 steps reactor1 only; mode 1 gives equal reactors; corrected mode 2 (see Findings) steps reactor2, and steps reactor1 exactly when reactor2 wrapped |
| Brute.AdvanceIncreases | tools/prcnt.cpp:214-224 | while reactor1 has a larger successor each step keeps both below 2^16 and strictly increases the pair |
| Brute.KeyLess | tools/prcnt.cpp:217-224 | pairs compare by reactor1 first, then reactor2 |
| Brute.AdvanceSkipsNothing | tools/prcnt.cpp:217-224 | corrected mode 2 skips no pair of values that both meet their goals between one pair and the next |
| Brute.AsWrittenLockStep | tools/prcnt.cpp:219-223 | as written, mode 2 from equal reactors with equal modes acts as mode 1 |
| Brute.CorrectedTriesMixedPairs | tools/prcnt.cpp:219-223 | from (0, 0), mode 0 reactors: corrected (0, 1), as written (1, 1) |
| Brute.CorrectedStopsEarly | tools/prcnt.cpp:214-224 | with mode 0 reactors the corrected step reaches (65535, 0), where the loop test on reactor1 fails |
| Brute.CorrectedStartsOnZero | tools/prcnt.cpp:214-224 | with mode 6 reactors from (0, 0) the corrected step stays on reactor1 = 0, which misses the goal |
| Brute.StepReactors | tools/prcnt.cpp:217-224 | the reactor step at the top of the loop computes `Advance`, with the corrected mode 2 (see Findings) |
| Brute.Contents | tools/prcnt.cpp:225 | `reactor1 + (reactor2 << 16)` gives back reactor1 in the low 16 bits and reactor2 above |
| Brute.Attempt | tools/prcnt.cpp:217-240 | the pair advances and grows; found iff the circuit with that data passes; corrected mode 2 (see Findings) |
| Brute.TestLoop | tools/prcnt.cpp:214-240 | a found pair passes both simulations and `check`; otherwise reactor1 has no larger successor; corrected mode 2 (see Findings) |
| Brute.FindCounter | tools/prcnt.cpp:271-278 | refused iff p is above the limit; a found circuit passes with b = ceil(log2 p) but at least 4; corrected mode 2 (see Findings) |
| Brute.DecimalRoundTrip | tools/prcnt.cpp:55-56 | reading back `to_string(n)` gives n |
| Brute.PortNameRoundTrip | tools/prcnt.cpp:55-56 | the name of bit i reads back to i, so no two bits share a name |
| Brute.ParseConfigS | tools/prcnt.cpp:48-59 | one name per selected bit, lowest first: `out[i]` below b, `msb[i-b]` above |
| Brute.Bitness | tools/prcnt.cpp:276-277 | the least r >= 4 with p <= 2^r |
| PrCnt.PeriodBounds | tools/prcnt.cpp:23 | every p up to 10240 fits 2p outputs in the 20480 entries and needs at most 14 bits |
| PrCnt.TestPeriod | tools/prcnt.cpp:272-275 | p above 10240 is refused; otherwise b <= 14 and a found circuit passes |
| PrDiv.PeriodBounds | tools/prdiv.cpp:23 | every p up to 1024 fits 2p outputs in the 2048 entries and needs at most 10 bits |
| PrDiv.TestPeriod | tools/prdiv.cpp:218-221 | p above 1024 is refused; otherwise b <= 10 and a found circuit passes |

## Left out

- Text output is not modelled: `printmodule`, `bincout`, `showconfig` and the stream diagnostics. The emitter's inputs are modelled instead (`Lut.Str`, `Comb.Str`, `Comb.Vec`, `ParseConfigS`).
- `parseconfig_s` of tools/prdiv_alt.cpp (`s[i]` names) is not part of this model; only the tools/prcnt.cpp version is.
- Argument parsing with `atof` is not modelled; the period and extra bits are parameters.
- Floating point is replaced by integers: `pow(2, n)` is `Pow2(n)`, and `ceil(log2(p))` clamped to 4 is `Bitness(p)`.
- A period p below 1 is excluded by a precondition; there `log2` is undefined.
- `vari::random`, `srand` and `rand` are not modelled: they are nondeterministic.
- The commented-out `std::async` lines are not modelled.
- `lut::unset` is not modelled: nothing calls it. Its text, `1 < i` and `&= !p`, does not undo a `set`.
- Fixed-width storage is not modelled. `comb` keeps `c`, `k` and `n` in `char`, and `fact` and `cases` return C integers, all of which can overflow. The model uses unbounded integers and requires 1 <= k <= n.
- The `csmap` table is not modelled as a stack array. In the source it is a variable-length array of 2^(2w) entries, and the rows it never writes hold whatever was there. Here it is a fresh array whose unvisited rows are 0, and only the filled rows are relied on.
- The outer loops of `main` are not modelled. These are the loops over x and the configurations, the three search strategies of prcnt/prdiv, and the reporting. Only the pieces above are modelled.
- The `goto next` of `testloop` is an early return from `Continue`.
- Each tool's `results` array is allocated fresh for one `testloop` (`Brute.FindCounter`), not kept as one global vector. Every trial writes the entries it reads first.
- `Machine` is fresh in `FindCounter`, although the source's `static int d` persists between `testloop` calls. Every trial resets it first, so this changes no result.
- Brute.StepReactors, Brute.Attempt, Brute.TestLoop, Brute.FindCounter, PrCnt.TestPeriod and PrDiv.TestPeriod: mode 2 is the corrected step of the second finding (reactor1 advances only when reactor2 wraps), not the lock step as written.
- Search.FillLuts and Search.Retry: they stop at depth p2 (the corrected rule of the first finding), not at `d + p2 >= states.size()` as written.
- Brute.TestLoop: the `!found` outcome only says that reactor1 has no larger successor. It does not claim that every pair was tried, and even the corrected mode 2 does not try every pair.
- Brute.Advance: the corrected mode 2 keeps the loop test on reactor1 (tools/prcnt.cpp:214). So it tries every pair of meeting values between its first and last pair (`AdvanceSkipsNothing`), but not all of them. It stops at (last reactor1, first reactor2 value) and never tries the rest of that row (`CorrectedStopsEarly`). From reactor1 = 0 it first walks the row reactor1 = 0, even when 0 misses reactor1's goal (`CorrectedStartsOnZero`). A full odometer would also start reactor1 at its first meeting value and stop when the pair wraps; the model does not make these changes.
- Search.FillLuts: the result is stated per depth, for the state sequence each depth was given (the ghost trail), not for one common sequence. After a re-roll at depth d, the sequence checked by the depths below d can differ from the one the deeper depths saw.
- Search.FillLuts: requires p >= 3. For p of 1 or 2 the `vari` picks no values and `next_state` indexes `s[-1]`.
- Brute.NextConfig, Brute.NextReactor and Brute.TestLoop: inputs for which the source loops forever are excluded by preconditions. These are fewer than 3 or 4 register bits, a mode above 8, and a `testloop` mode above 2.

## Findings

| source | as written | input that shows it | evidently intended | confidence | as-written member | corrected member |
|---|---|---|---|---|---|---|
| tools/prdiv_alt.cpp:370 | `fill_luts` stops when `d + p2 >= states.size()`; for odd p that is depth p2-1 | p = 5: depth 1 checks 0 to 1 and 3 to 4, depth 2 checks 1 to 2 and 4 to 0, then it returns; 2 to 3 is never fixed | stop at depth p2, so every step of the cycle is fixed (`DepthsCoverCycle`); LUTs fixing all depths for one sequence walk it (`CycleRealised`, `AgreeingTrailRealised`) | not executed | Search.AsWrittenSkipsMidpoint | Search.FillLuts |
| tools/prcnt.cpp:221-222 | mode 2 advances reactor1 when reactor2 does not wrap, so both move together | mode 2 with modes 0 from (0, 0): the first pair tried is (1, 1), the same as mode 1; the same lock step holds for any equal modes, such as 6,6 in tools/prdiv.cpp:166-167 called from line 285 | advance reactor1 only when reactor2 wraps, so that pairs with different reactors are tried; between the first and the last pair tried no meeting pair is skipped (`AdvanceSkipsNothing`) | not executed | Brute.AsWrittenLockStep | Brute.Advance |
