# Advent of Code 2021, days 1 to 3, in Dafny

This project models the computational cores of three small Rust programs and
proves properties about them:

- **Binary diagnostic engine** (`day3`, module `Diagnostic`, built on `Bits`).
  It counts bits at one position with `countNthBit`. The two selection rules
  `O2Filter` and `CO2Filter` keep either the majority bit or the minority bit,
  each with its own tie rule. The elimination loop `gasRating` runs from the
  most significant position downwards. It keeps only the candidates whose bit
  equals the selected bit, and returns the first lone survivor or `-1`.
  `getNthBit` gives the majority bit at a position, `gamma` ORs these bits
  together, and `epsilon` XORs gamma with a `digits`-wide mask.
- **Submarine command replay** (`day2`, module `Dive`). `Direction::from_str`
  parses direction words without regard to letter case. `parseCommand` splits
  a line at its first space. `processCommand` and `processCommandPart2` are
  two left folds over the commands.
- **Depth-increase counter** (`day1`, module `SonarSweep`). `countIncreases`
  counts the strict increases between neighbouring readings.
  `sumAdjacentSamples` gives the sums of every window of three readings.

Candidates, readings and movements are unbounded integers. `Bit(v, d)` is
bit `d` of `v`, and `Bits.BitIsShiftedParity` proves it equals
`(v / 2^d) % 2`. For non-negative values this matches the source's
`(value & (1 << digit)) >> digit`. The source hands the elimination loop its
filter as a plain `fn` value. Here that is the datatype `Rating`, whose
two constructors dispatch to `O2Filter` and `CO2Filter`. A panic is either a
precondition or a `Result`: `countIncreases` panics on an empty slice, which
becomes a precondition. `parseCommand` panics through an `unwrap`, which
becomes a `ParseError` result.

Two behaviours of the elimination loop are worth stating plainly:

- On a tie, the minority rule keeps the candidates whose bit is **0**
  (`ones < zeros` is false, so `bit == 0`; day3/src/main.rs:27-34).
  `Diagnostic.TieBreaks` states this.
- A single-candidate input is not returned at once. When `digits >= 1` the
  loop runs at least one pass before it checks the size (day3/src/main.rs:55-64).
  Under the O2 rule that pass keeps the candidate
  (`Diagnostic.OxygenSingleton`). Under the CO2 rule the pass removes it, so
  the result is `-1` (`Diagnostic.CO2Singleton`). When `digits <= 0` no pass
  runs at all and the result is `-1`.

## Model

| member | source | states |
|---|---|---|
| Bits.BitIsShiftedParity | day3/src/main.rs:25 | bit d of v, defined by repeated halving, is the shift-and-mask value (v / 2^d) % 2 |
| Bits.BitXorBit | day3/src/main.rs:88 | each bit of the modelled `^` is the sum of the operands' bits modulo 2 |
| Bits.XorMask | day3/src/main.rs:84-89 | below 2^d, XOR with the d-bit mask `(1 << d) - 1` is subtraction from the mask |
| Bits.OrDisjoint | day3/src/main.rs:81 | OR-ing one bit at position k into a multiple of 2^(k+1) adds it |
| Bits.BitOfTop | day3/src/main.rs:79-81 | adding bit c at position k to a value below 2^k sets bit k to c and leaves the lower bits alone |
| Diagnostic.WithBitIsSubsequence | day3/src/main.rs:59 | selecting candidates by their bit keeps them in their original order |
| Diagnostic.WithBitPartition | day3/src/main.rs:16-20 | every candidate lands in exactly one of the two bit classes: the class multisets sum to the input |
| Diagnostic.CountNthBit | day3/src/main.rs:7-21 | the tallies never shrink and together grow by exactly the number of values |
| Diagnostic.CountNthBitCounts | day3/src/main.rs:7-21 | the tallies are zeros plus the number of values with a 0 at `digit`, and ones plus the number with a 1 |
| Diagnostic.O2Filter | day3/src/main.rs:37-49 | a value survives exactly when its own bit is at least as common as the other, ties keeping 1 |
| Diagnostic.CO2Filter | day3/src/main.rs:23-35 | a value survives exactly when its own bit is strictly rarer than the other, ties keeping 0 |
| Diagnostic.SelectedBit | day3/src/main.rs:23-49 | each rule keeps exactly the values whose bit equals one selected bit value |
| Diagnostic.FiltersAreComplementary | day3/src/main.rs:27-48 | the two rules select opposite bits, so the CO2 filter keeps exactly what the O2 filter drops |
| Diagnostic.TieBreaks | day3/src/main.rs:27-48 | on a tie the O2 rule keeps 1 and the CO2 rule keeps 0 |
| Diagnostic.Retain | day3/src/main.rs:59 | `retain` with the rule's filter is the in-order selection of the candidates carrying the selected bit |
| Diagnostic.Step | day3/src/main.rs:57-59 | a pass keeps exactly the working candidates whose bit equals the bit the rule selects for the pass's own tally |
| Diagnostic.StepIsSubsequence | day3/src/main.rs:59 | a pass yields an order-preserving subsequence of the working set |
| Diagnostic.OxygenStepKeepsMajority | day3/src/main.rs:41-48 | an O2 pass keeps at least half the working set, so a non-empty set stays non-empty |
| Diagnostic.CO2StepKeepsMinority | day3/src/main.rs:27-34 | a CO2 pass keeps at most half the working set |
| Diagnostic.CO2StepEmpties | day3/src/main.rs:27-34 | a CO2 pass empties a non-empty working set exactly when all candidates share their bit at that position |
| Diagnostic.WorkingWithin | day3/src/main.rs:53-59 | every working set holds only candidates from the input |
| Diagnostic.GasRatingFrom | day3/src/main.rs:55-67 | the `gasRating` loop itself, one pass per position from digits-1 down, stopping at the first lone survivor; it answers -1 or a value, never anything below -1 (the full contract is in the lemmas below and in `GasRating`) |
| Diagnostic.GasRatingFromNone | day3/src/main.rs:55-67 | the loop answers -1 exactly when there are no positions or no pass leaves a single candidate |
| Diagnostic.GasRatingFromSurvivor | day3/src/main.rs:61-64 | an answer other than -1 is the lone survivor of the first pass that leaves one candidate |
| Diagnostic.GasRatingFromMember | day3/src/main.rs:53-67 | the loop answers -1 or one of its candidates |
| Diagnostic.GasRating | day3/src/main.rs:51-68 | -1 exactly when digits <= 0 or no pass leaves one candidate; otherwise the survivor of the first such pass, an element of the input |
| Diagnostic.EmptyInputNoRating | day3/src/main.rs:51-68 | an empty input never yields a rating |
| Diagnostic.EmptyStaysEmpty | day3/src/main.rs:57-59 | passes over an empty working set leave it empty |
| Diagnostic.OxygenSingleton | day3/src/main.rs:55-64 | a single candidate is the O2 rating whenever there is at least one position |
| Diagnostic.CO2Singleton | day3/src/main.rs:55-67 | a single candidate is removed by the first CO2 pass, so the CO2 rating is -1 |
| Diagnostic.SurvivorHasSelectedBit | day3/src/main.rs:55-64 | a rating's top bit is the bit its rule selected in the first pass |
| Diagnostic.RatingsDiffer | day3/src/main.rs:51-68 | when both ratings exist, they are different values |
| Diagnostic.GetNthBit | day3/src/main.rs:70-75 | `getNthBit` tallies the values at position n and answers a single bit; `GetNthBitIsMajority` says which one |
| Diagnostic.GetNthBitIsMajority | day3/src/main.rs:70-75 | the bit is 1 exactly when at least as many values have a 1 at n as have a 0 |
| Diagnostic.GammaFoldStep | day3/src/main.rs:79-81 | one OR step of the fold adds the majority bit below an accumulator that is a multiple of 2^n |
| Diagnostic.GammaFoldAdds | day3/src/main.rs:79-81 | the OR fold `GammaFold` (positions digits-1 down to 0, each majority bit shifted into place and OR-ed into the accumulator) equals the sum of the weighted majority bits |
| Diagnostic.MajorityValueBits | day3/src/main.rs:77-82 | the weighted sum of majority bits is below 2^n and has the majority bits as its bits |
| Diagnostic.Gamma | day3/src/main.rs:77-82 | gamma is below 2^digits, and each of its bits below digits is the majority bit at that position |
| Diagnostic.Epsilon | day3/src/main.rs:84-89 | epsilon flips exactly the low digits bits of gamma, and gamma + epsilon == 2^digits - 1 when gamma fits |
| Diagnostic.EpsilonBits | day3/src/main.rs:86-88 | XOR with the mask flips the bits below digits and keeps the others |
| Diagnostic.GammaEpsilonComplement | day3/src/main.rs:77-89 | gamma and epsilon add up to the mask, and each epsilon bit is the minority bit |
| Dive.ParseDirection | day2/src/main.rs:15-27 | succeeds exactly on "forward", "down" and "up" in any letter case, giving the matching direction; any other word gives the error text |
| Dive.ParseName | day2/src/main.rs:21-23 | each direction's own word parses back to it |
| Dive.ParseIgnoresCase | day2/src/main.rs:19 | words that differ only in letter case parse alike |
| Dive.SplitOnce | day2/src/main.rs:44 | no pair without a space; otherwise a space-free first part that rejoins with the rest into the line |
| Dive.SplitAtFirstSpace | day2/src/main.rs:44 | the split is at the first space, and later spaces stay in the amount |
| Dive.SplitJoin | day2/src/main.rs:44 | splitting a word, a space and any text gives back that word and that text |
| Dive.ParseCommand | day2/src/main.rs:42-51 | `ParseSplit` is the body (split, then direction, then amount); a line without a space fails, otherwise the line parses exactly when its direction word and amount do, giving both |
| Dive.ParseCommandRoundTrip | day2/src/main.rs:42-51 | a direction word, a space and a readable amount parse back to the command |
| Dive.ProcessCommand | day2/src/main.rs:53-85 | the fold of the step `Move` (the match arms): horizontal gains the Forward total and depth gains Down minus Up; aim is 0 after any non-empty list and unchanged after an empty one |
| Dive.EmptyReplay | day2/src/main.rs:53-92 | both replays return the start position unchanged for an empty command list |
| Dive.ProcessCommandAppend | day2/src/main.rs:53-85 | replaying a ++ b is replaying b after a |
| Dive.ProcessCommandPart2 | day2/src/main.rs:87-119 | the fold of the step `Steer` (the match arms): horizontal gains the Forward total and aim gains Down minus Up; depth is in `ProcessCommandPart2Depth` |
| Dive.ProcessCommandPart2Append | day2/src/main.rs:87-119 | replaying a ++ b is replaying b after a |
| Dive.ProcessCommandPart2Depth | day2/src/main.rs:110-115 | depth gains each Forward movement times the aim in force when it is read |
| Dive.PartsAgree | day2/src/main.rs:53-119 | from the origin, part two's final aim is part one's final depth, and their horizontals are equal |
| Dive.Part2DepthFromPart1 | day2/src/main.rs:87-119 | from the origin, a final Forward adds its movement times part one's depth after the commands before it |
| SonarSweep.CountIncreases | day1/src/main.rs:5-17 | the result lies between count and count + len - 1 |
| SonarSweep.CountIncreasesCounts | day1/src/main.rs:5-17 | the result is count plus the number of neighbouring pairs that strictly increase |
| SonarSweep.NonIncreasingCountsNothing | day1/src/main.rs:14 | readings that never strictly increase add nothing, so equal neighbours do not count |
| SonarSweep.StrictlyIncreasingCountsAll | day1/src/main.rs:14 | strictly rising readings reach the upper bound |
| SonarSweep.SumAdjacentSamples | day1/src/main.rs:19-33 | empty below three readings; otherwise len - 2 sums, the i-th being readings i, i+1 and i+2 |
| SonarSweep.WindowIncreases | day1/src/main.rs:26-30 | a window sum grows exactly when the reading it gains exceeds the one it drops |
| SonarSweep.SlidingWindowCount | day1/src/main.rs:19-33 | counting increases over the window sums counts readings smaller than the reading three places later |

## Left out

- The `main` functions are I/O glue and are not modelled: argument and path
  checks, opening and reading files, and printing. The same goes for
  `getInputLength` in day3/src/main.rs:92-99. It reads the first line and
  seeks back; the model takes `digits` as a parameter instead.
- Number parsing is a library call and is not modelled. This covers
  `isize::from_str_radix(.., 2)` in day3 and `parse::<isize>()` in day1. The
  model takes already-decoded sequences.
- `Dive.ParseCommand`: the amount is read by `str::parse::<isize>`. The model
  receives that reader as the parameter `parseAmount` and does not define it.
- `Dive.ParseDirection`: `to_lowercase` folds Unicode letter case, but the
  model folds ASCII letters only.
- `isize` is not modelled; all arithmetic uses unbounded integers. This omits
  overflow of tallies, sums and positions, and the shift-width limits of
  `1 << digit` (64 or more). It also omits negative candidates, whose `&`
  and `>>` behave as two's complement.
- `Diagnostic.Epsilon`: `digits` is a natural number. The source takes an
  `isize`, and a negative shift there panics.
- The recursion of the originals is mirrored directly, so stack depth is not
  modelled.
- `SonarSweep.CountIncreases`: the `usize` counter cannot overflow in the
  model.
- `main` in day1 calls `countIncreases` on the window sums. That
  slice is empty for fewer than three readings, so the call panics. The model
  records this only as the precondition of `SonarSweep.CountIncreases`.
