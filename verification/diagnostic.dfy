/** The binary diagnostic engine: a per-position bit tally, the two
    tie-breaking selection rules, the elimination loop that yields the
    oxygen generator and CO2 scrubber ratings, and the gamma and epsilon
    rates built from majority bits. Candidates are already-decoded naturals. */
module Diagnostic {
  import opened Bits

  /** The selection rule handed to the elimination loop: `O2Filter` keeps
      the majority bit, `CO2Filter` the minority bit. */
  datatype Rating = OxygenGenerator | CO2Scrubber

  /** xs is obtained from ys by deleting elements, keeping the order. */
  predicate IsSubsequence(xs: seq<nat>, ys: seq<nat>)
    decreases |ys|
  {
    |xs| == 0 ||
    (|ys| > 0 &&
      ((xs[0] == ys[0] && IsSubsequence(xs[1..], ys[1..])) || IsSubsequence(xs, ys[1..])))
  }

  /** The candidates of vs whose bit d equals b, in their original order. */
  function WithBit(vs: seq<nat>, d: nat, b: nat): (r: seq<nat>)
    ensures forall v :: v in r <==> v in vs && Bit(v, d) == b
    ensures |r| <= |vs|
  {
    if |vs| == 0 then []
    else
      var rest := WithBit(vs[1..], d, b);
      if Bit(vs[0], d) == b then [vs[0]] + rest else rest
  }

  /** Selecting by a bit keeps the candidates in their original order. */
  lemma {:induction false} WithBitIsSubsequence(vs: seq<nat>, d: nat, b: nat)
    ensures IsSubsequence(WithBit(vs, d, b), vs)
  {
    if |vs| > 0 {
      WithBitIsSubsequence(vs[1..], d, b);
      var rest := WithBit(vs[1..], d, b);
      if Bit(vs[0], d) == b {
        assert ([vs[0]] + rest)[1..] == rest;
      }
    }
  }

  /** No candidate is selected by a bit value none of them has. */
  lemma NoneWithBit(vs: seq<nat>, d: nat, b: nat)
    requires forall v :: v in vs ==> Bit(v, d) != b
    ensures WithBit(vs, d, b) == []
  {
  }

  /** Every candidate lands in exactly one of the two bit classes. */
  lemma {:induction false} WithBitPartition(vs: seq<nat>, d: nat)
    ensures multiset(WithBit(vs, d, 0)) + multiset(WithBit(vs, d, 1)) == multiset(vs)
    ensures |WithBit(vs, d, 0)| + |WithBit(vs, d, 1)| == |vs|
  {
    if |vs| > 0 {
      WithBitPartition(vs[1..], d);
      assert vs == [vs[0]] + vs[1..];
    }
  }

  /** `countNthBit`: adds to the running tallies the number of candidates
      with a 0 and with a 1 at position `digit`. */
  function CountNthBit(digit: nat, zeros: int, ones: int, values: seq<nat>): (r: (int, int))
    ensures r.0 >= zeros && r.1 >= ones
    ensures r.0 + r.1 == zeros + ones + |values|
    decreases |values|
  {
    if |values| == 0 then (zeros, ones)
    else if Bit(values[0], digit) == 0 then CountNthBit(digit, zeros + 1, ones, values[1..])
    else CountNthBit(digit, zeros, ones + 1, values[1..])
  }

  /** The tallies count exactly the candidates with a 0 and with a 1 at
      position `digit`. */
  lemma {:induction false} CountNthBitCounts(digit: nat, zeros: int, ones: int, values: seq<nat>)
    ensures CountNthBit(digit, zeros, ones, values) ==
      (zeros + |WithBit(values, digit, 0)|, ones + |WithBit(values, digit, 1)|)
    decreases |values|
  {
    if |values| > 0 {
      if Bit(values[0], digit) == 0 {
        CountNthBitCounts(digit, zeros + 1, ones, values[1..]);
      } else {
        CountNthBitCounts(digit, zeros, ones + 1, values[1..]);
      }
    }
  }

  /** The tally of a whole candidate set at one position. */
  function Tally(digit: nat, values: seq<nat>): (int, int)
  {
    CountNthBit(digit, 0, 0, values)
  }

  /** `O2Filter`: a value survives when its own bit at `digit` is at least
      as common as the other bit, ties going to 1. */
  function O2Filter(digit: nat, zeros: int, ones: int, value: nat): (keep: bool)
    ensures keep <==> if Bit(value, digit) == 1 then ones >= zeros else zeros > ones
  {
    var bit := Bit(value, digit);
    if zeros > ones then bit == 0 else bit == 1
  }

  /** `CO2Filter`: a value survives when its own bit at `digit` is strictly
      less common than the other bit, ties going to 0. */
  function CO2Filter(digit: nat, zeros: int, ones: int, value: nat): (keep: bool)
    ensures keep <==> if Bit(value, digit) == 1 then ones < zeros else zeros <= ones
  {
    var bit := Bit(value, digit);
    if ones < zeros then bit == 1 else bit == 0
  }

  /** The filter function the elimination loop was handed. */
  function Keeps(rating: Rating, digit: nat, zeros: int, ones: int, value: nat): bool
  {
    match rating
    case OxygenGenerator => O2Filter(digit, zeros, ones, value)
    case CO2Scrubber => CO2Filter(digit, zeros, ones, value)
  }

  /** The single bit value a rule keeps for a given tally. */
  function SelectedBit(rating: Rating, zeros: int, ones: int): (b: nat)
    ensures b <= 1
    ensures forall v: nat, d: nat {:trigger Keeps(rating, d, zeros, ones, v)} ::
      Keeps(rating, d, zeros, ones, v) <==> Bit(v, d) == b
  {
    match rating
    case OxygenGenerator => if zeros > ones then 0 else 1
    case CO2Scrubber => if ones < zeros then 1 else 0
  }

  /** The two rules keep opposite bits for every tally, so the CO2 filter
      keeps exactly the values the O2 filter drops. */
  lemma FiltersAreComplementary(digit: nat, zeros: int, ones: int, value: nat)
    ensures SelectedBit(OxygenGenerator, zeros, ones) + SelectedBit(CO2Scrubber, zeros, ones) == 1
    ensures CO2Filter(digit, zeros, ones, value) <==> !O2Filter(digit, zeros, ones, value)
  {
  }

  /** On a tie the O2 filter keeps 1-bits and the CO2 filter keeps 0-bits. */
  lemma TieBreaks(n: int)
    ensures SelectedBit(OxygenGenerator, n, n) == 1
    ensures SelectedBit(CO2Scrubber, n, n) == 0
  {
  }

  /** `Vec::retain` with the rule's filter: keeps the values the filter
      accepts, in order. */
  function Retain(rating: Rating, digit: nat, zeros: int, ones: int, vs: seq<nat>): (r: seq<nat>)
    ensures r == WithBit(vs, digit, SelectedBit(rating, zeros, ones))
  {
    if |vs| == 0 then []
    else if Keeps(rating, digit, zeros, ones, vs[0]) then [vs[0]] + Retain(rating, digit, zeros, ones, vs[1..])
    else Retain(rating, digit, zeros, ones, vs[1..])
  }

  /** One pass of the elimination loop: tally the working set at `digit`,
      then retain the candidates the rule accepts. */
  function Step(rating: Rating, digit: nat, working: seq<nat>): (r: seq<nat>)
    ensures forall v :: v in r <==>
      v in working && Bit(v, digit) == SelectedBit(rating, Tally(digit, working).0, Tally(digit, working).1)
  {
    var (zeros, ones) := Tally(digit, working);
    Retain(rating, digit, zeros, ones, working)
  }

  /** One pass yields an order-preserving subsequence of the working set. */
  lemma StepIsSubsequence(rating: Rating, digit: nat, working: seq<nat>)
    ensures IsSubsequence(Step(rating, digit, working), working)
  {
    var (zeros, ones) := Tally(digit, working);
    WithBitIsSubsequence(working, digit, SelectedBit(rating, zeros, ones));
  }

  /** The O2 rule keeps at least half of the working set, so a non-empty
      set stays non-empty. */
  lemma OxygenStepKeepsMajority(digit: nat, working: seq<nat>)
    ensures 2 * |Step(OxygenGenerator, digit, working)| >= |working|
    ensures |working| > 0 ==> |Step(OxygenGenerator, digit, working)| > 0
  {
    CountNthBitCounts(digit, 0, 0, working);
    WithBitPartition(working, digit);
  }

  /** The CO2 rule keeps at most half of the working set. */
  lemma CO2StepKeepsMinority(digit: nat, working: seq<nat>)
    ensures 2 * |Step(CO2Scrubber, digit, working)| <= |working|
  {
    CountNthBitCounts(digit, 0, 0, working);
    WithBitPartition(working, digit);
  }

  /** The CO2 rule empties a non-empty working set exactly when every
      candidate has the same bit at `digit`. */
  lemma CO2StepEmpties(digit: nat, working: seq<nat>)
    requires |working| > 0
    ensures |Step(CO2Scrubber, digit, working)| == 0 <==>
      forall v :: v in working ==> Bit(v, digit) == Bit(working[0], digit)
  {
    CountNthBitCounts(digit, 0, 0, working);
    WithBitPartition(working, digit);
    var b := Bit(working[0], digit);
    var same := WithBit(working, digit, b);
    var other := WithBit(working, digit, 1 - b);
    assert working[0] in same;
    if forall v :: v in working ==> Bit(v, digit) == b {
      NoneWithBit(working, digit, 1 - b);
      var (zeros, ones) := Tally(digit, working);
      assert SelectedBit(CO2Scrubber, zeros, ones) == 1 - b;
    } else {
      var w :| w in working && Bit(w, digit) != b;
      assert w in other;
      var r := Step(CO2Scrubber, digit, working);
      assert r == same || r == other;
      assert w in r || working[0] in r;
    }
  }

  /** The working set after the first k passes of the loop over `digits`
      positions: the first pass looks at position digits-1, the next at
      digits-2, and so on. */
  function Working(rating: Rating, digits: int, values: seq<nat>, k: nat): seq<nat>
    requires k == 0 || k <= digits
    decreases k
  {
    if k == 0 then values
    else Working(rating, digits - 1, Step(rating, digits - 1, values), k - 1)
  }

  /** Every working set is contained in the one it started from. */
  lemma {:induction false} WorkingWithin(rating: Rating, digits: int, values: seq<nat>, k: nat)
    requires k == 0 || k <= digits
    ensures forall v :: v in Working(rating, digits, values, k) ==> v in values
    decreases k
  {
    if k > 0 {
      WorkingWithin(rating, digits - 1, Step(rating, digits - 1, values), k - 1);
    }
  }

  /** The loop of `gasRating` over positions digits-1 down to 0, stopping
      at the first pass that leaves a single candidate. */
  function GasRatingFrom(rating: Rating, digits: int, working: seq<nat>): (r: int)
    ensures r >= -1
    decreases digits
  {
    if digits <= 0 then -1
    else
      var next := Step(rating, digits - 1, working);
      if |next| == 1 then next[0] else GasRatingFrom(rating, digits - 1, next)
  }

  /** No pass among the first `upto` leaves exactly one candidate. */
  predicate NoSingletonUpTo(rating: Rating, digits: int, values: seq<nat>, upto: nat)
    requires upto == 0 || upto <= digits
  {
    forall j: nat :: 1 <= j <= upto ==> |Working(rating, digits, values, j)| != 1
  }

  /** The loop answers -1 exactly when no pass leaves a single candidate. */
  lemma {:induction false} GasRatingFromNone(rating: Rating, digits: int, working: seq<nat>)
    ensures GasRatingFrom(rating, digits, working) == -1 <==>
      digits <= 0 || NoSingletonUpTo(rating, digits, working, digits)
    decreases digits
  {
    if digits > 0 {
      var next := Step(rating, digits - 1, working);
      assert Working(rating, digits, working, 1) == next;
      if |next| != 1 {
        GasRatingFromNone(rating, digits - 1, next);
        if GasRatingFrom(rating, digits - 1, next) == -1 {
          NoSingletonShift(rating, digits, working, digits);
        } else {
          var j: nat :| 1 <= j <= digits - 1 && |Working(rating, digits - 1, next, j)| == 1;
          assert Working(rating, digits, working, j + 1) == Working(rating, digits - 1, next, j);
        }
      }
    }
  }

  /** Otherwise the loop answers the survivor of the first pass that
      leaves a single candidate. */
  lemma {:induction false} GasRatingFromSurvivor(rating: Rating, digits: int, working: seq<nat>)
    requires GasRatingFrom(rating, digits, working) != -1
    ensures exists k: nat ::
      1 <= k <= digits && Working(rating, digits, working, k) == [GasRatingFrom(rating, digits, working)] &&
      NoSingletonUpTo(rating, digits, working, k - 1)
    decreases digits
  {
    var next := Step(rating, digits - 1, working);
    assert Working(rating, digits, working, 1) == next;
    if |next| == 1 {
      assert next == [next[0]];
    } else {
      var r := GasRatingFrom(rating, digits - 1, next);
      GasRatingFromSurvivor(rating, digits - 1, next);
      var k: nat :| 1 <= k <= digits - 1 && Working(rating, digits - 1, next, k) == [r] &&
        NoSingletonUpTo(rating, digits - 1, next, k - 1);
      NoSingletonShift(rating, digits, working, k);
      assert Working(rating, digits, working, k + 1) == [r];
    }
  }

  /** The loop only ever answers -1 or one of its candidates. */
  lemma {:induction false} GasRatingFromMember(rating: Rating, digits: int, working: seq<nat>)
    ensures GasRatingFrom(rating, digits, working) == -1 || GasRatingFrom(rating, digits, working) in working
    decreases digits
  {
    if digits > 0 {
      var next := Step(rating, digits - 1, working);
      if |next| == 1 {
        assert next[0] in next;
      } else {
        GasRatingFromMember(rating, digits - 1, next);
      }
    }
  }

  /** If the first pass does not leave one candidate and none of the next
      k-1 passes does, then none of the first k passes does. */
  lemma NoSingletonShift(rating: Rating, digits: int, working: seq<nat>, k: nat)
    requires 1 <= k <= digits
    requires |Step(rating, digits - 1, working)| != 1
    requires NoSingletonUpTo(rating, digits - 1, Step(rating, digits - 1, working), k - 1)
    ensures NoSingletonUpTo(rating, digits, working, k)
  {
    var next := Step(rating, digits - 1, working);
    forall j: nat | 1 <= j <= k
      ensures |Working(rating, digits, working, j)| != 1
    {
      if j > 1 {
        assert Working(rating, digits, working, j) == Working(rating, digits - 1, next, j - 1);
      }
    }
  }

  /** `gasRating`: eliminate candidates from the most significant of
      `digits` positions down; the first pass that leaves exactly one
      candidate yields it, and -1 means no pass did (always so when
      `digits` <= 0). The caller's sequence is never changed: the loop
      works on its own copy. */
  function GasRating(digits: int, values: seq<nat>, rating: Rating): (r: int)
    ensures r == -1 <==> digits <= 0 || NoSingletonUpTo(rating, digits, values, digits)
    ensures r != -1 ==>
      exists k: nat :: 1 <= k <= digits && Working(rating, digits, values, k) == [r] &&
        NoSingletonUpTo(rating, digits, values, k - 1)
    ensures r == -1 || r in values
  {
    GasRatingFromNone(rating, digits, values);
    GasRatingFromMember(rating, digits, values);
    if GasRatingFrom(rating, digits, values) != -1 then
      GasRatingFromSurvivor(rating, digits, values);
      GasRatingFrom(rating, digits, values)
    else -1
  }

  /** An empty candidate list never yields a rating. */
  lemma {:induction false} EmptyInputNoRating(digits: int, rating: Rating)
    ensures GasRating(digits, [], rating) == -1
  {
    forall k: nat | 1 <= k <= digits
      ensures Working(rating, digits, [], k) == []
    {
      EmptyStaysEmpty(rating, digits, k);
    }
  }

  lemma {:induction false} EmptyStaysEmpty(rating: Rating, digits: int, k: nat)
    requires k <= digits
    ensures Working(rating, digits, [], k) == []
    decreases k
  {
    if k > 0 {
      assert Step(rating, digits - 1, []) == [];
      EmptyStaysEmpty(rating, digits - 1, k - 1);
    }
  }

  /** A single candidate is not returned at once: one pass always runs,
      and under the O2 rule that pass keeps it. */
  lemma OxygenSingleton(digits: int, v: nat)
    requires digits >= 1
    ensures GasRating(digits, [v], OxygenGenerator) == v
  {
    OxygenStepKeepsMajority(digits - 1, [v]);
    assert Working(OxygenGenerator, digits, [v], 1) == Step(OxygenGenerator, digits - 1, [v]);
  }

  /** Under the CO2 rule a single candidate is removed by the first pass,
      so a one-element input never yields a CO2 scrubber rating. */
  lemma {:induction false} CO2Singleton(digits: int, v: nat)
    ensures GasRating(digits, [v], CO2Scrubber) == -1
  {
    forall k: nat | 1 <= k <= digits
      ensures Working(CO2Scrubber, digits, [v], k) == []
    {
      SingletonEmptied(digits, v, k);
    }
  }

  lemma {:induction false} SingletonEmptied(digits: int, v: nat, k: nat)
    requires 1 <= k <= digits
    ensures Working(CO2Scrubber, digits, [v], k) == []
    decreases k
  {
    CO2StepEmpties(digits - 1, [v]);
    EmptyStaysEmpty(CO2Scrubber, digits - 1, k - 1);
  }

  /** A rating, when there is one, survived the first pass, so its top bit
      is the bit its rule selected there. */
  lemma SurvivorHasSelectedBit(rating: Rating, digits: int, values: seq<nat>)
    requires GasRatingFrom(rating, digits, values) != -1
    ensures digits >= 1
    ensures Bit(GasRatingFrom(rating, digits, values), digits - 1) ==
      SelectedBit(rating, Tally(digits - 1, values).0, Tally(digits - 1, values).1)
  {
    var first := Step(rating, digits - 1, values);
    if |first| == 1 {
      assert first[0] in first;
    } else {
      GasRatingFromMember(rating, digits - 1, first);
    }
  }

  /** When both ratings exist they differ: the first pass splits the input
      on the top bit and the two rules keep opposite halves. */
  lemma RatingsDiffer(digits: int, values: seq<nat>)
    requires GasRating(digits, values, OxygenGenerator) != -1
    requires GasRating(digits, values, CO2Scrubber) != -1
    ensures GasRating(digits, values, OxygenGenerator) != GasRating(digits, values, CO2Scrubber)
  {
    SurvivorHasSelectedBit(OxygenGenerator, digits, values);
    SurvivorHasSelectedBit(CO2Scrubber, digits, values);
    var (zeros, ones) := Tally(digits - 1, values);
    FiltersAreComplementary(digits - 1, zeros, ones, 0);
  }

  /** `getNthBit`: the majority bit at position n, ties going to 1. */
  function GetNthBit(n: nat, values: seq<nat>): (b: nat)
    ensures b <= 1
  {
    var (zeros, ones) := CountNthBit(n, 0, 0, values);
    if zeros > ones then 0 else 1
  }

  /** The bit `getNthBit` picks is 1 exactly when at least as many values
      have a 1 at position n as have a 0 there. */
  lemma GetNthBitIsMajority(n: nat, values: seq<nat>)
    ensures GetNthBit(n, values) == 1 <==> |WithBit(values, n, 1)| >= |WithBit(values, n, 0)|
  {
    CountNthBitCounts(n, 0, 0, values);
  }

  /** The fold of `gamma` over positions n-1 down to 0, OR-ing each
      majority bit into the accumulator. */
  function GammaFold(values: seq<nat>, n: int, acc: nat): nat
    decreases n
  {
    if n <= 0 then acc
    else GammaFold(values, n - 1, BitOr(acc, GetNthBit(n - 1, values) * Pow2(n - 1)))
  }

  /** The number whose bits below n are the majority bits: a sum of
      weighted bits, independent of the OR fold. */
  function MajorityValue(values: seq<nat>, n: nat): nat
  {
    if n == 0 then 0 else MajorityValue(values, n - 1) + GetNthBit(n - 1, values) * Pow2(n - 1)
  }

  /** The OR fold only ever adds bits the accumulator does not have yet. */
  lemma {:induction false} GammaFoldAdds(values: seq<nat>, n: nat, q: nat)
    ensures GammaFold(values, n, q * Pow2(n)) == q * Pow2(n) + MajorityValue(values, n)
    decreases n
  {
    if n > 0 {
      var b := GetNthBit(n - 1, values);
      GammaFoldStep(values, n, q);
      GammaFoldAdds(values, n - 1, 2 * q + b);
      Regroup(q, b, n);
    }
  }

  /** One step of the fold, with the accumulator kept in the form
      q * 2^n. */
  lemma GammaFoldStep(values: seq<nat>, n: nat, q: nat)
    requires n > 0
    ensures GammaFold(values, n, q * Pow2(n)) ==
      GammaFold(values, n - 1, (2 * q + GetNthBit(n - 1, values)) * Pow2(n - 1))
  {
    var b := GetNthBit(n - 1, values);
    OrDisjoint(q, b, n - 1);
    Regroup(q, b, n);
  }

  lemma Regroup(q: nat, b: nat, n: nat)
    requires n > 0
    ensures q * Pow2(n) + b * Pow2(n - 1) == (2 * q + b) * Pow2(n - 1)
  {
    var p := Pow2(n - 1);
    assert Pow2(n) == 2 * p;
    assert q * (2 * p) == 2 * q * p;
  }

  /** MajorityValue has n bits and they are the majority bits. */
  lemma {:induction false} MajorityValueBits(values: seq<nat>, n: nat)
    ensures MajorityValue(values, n) < Pow2(n)
    ensures forall i: nat :: i < n ==> Bit(MajorityValue(values, n), i) == GetNthBit(i, values)
    decreases n
  {
    if n > 0 {
      MajorityValueBits(values, n - 1);
      var x := MajorityValue(values, n - 1);
      var b := GetNthBit(n - 1, values);
      assert MajorityValue(values, n) == x + b * Pow2(n - 1);
      forall i: nat | i < n
        ensures Bit(MajorityValue(values, n), i) == GetNthBit(i, values)
      {
        BitOfTop(x, b, n - 1, i);
      }
    }
  }

  /** `gamma`: bit n is the majority bit at position n for every n below
      `digits`, and there are no other bits. */
  function Gamma(digits: int, values: seq<nat>): (g: nat)
    ensures digits <= 0 ==> g == 0
    ensures digits >= 0 ==> g < Pow2(digits)
    ensures forall n: nat :: n < digits ==> Bit(g, n) == GetNthBit(n, values)
  {
    if digits <= 0 then GammaFold(values, digits, 0)
    else
      GammaFoldAdds(values, digits, 0);
      MajorityValueBits(values, digits);
      GammaFold(values, digits, 0)
  }

  /** `epsilon`: gamma XOR a mask of `digits` ones, which flips exactly the
      low `digits` bits. */
  function Epsilon(digits: nat, gamma: nat): (e: nat)
    ensures forall n: nat :: Bit(e, n) == if n < digits then 1 - Bit(gamma, n) else Bit(gamma, n)
    ensures gamma < Pow2(digits) ==> gamma + e == Mask(digits)
  {
    EpsilonBits(digits, gamma);
    if gamma < Pow2(digits) then XorMask(gamma, digits); BitXor(gamma, Mask(digits))
    else BitXor(gamma, Mask(digits))
  }

  lemma EpsilonBits(digits: nat, gamma: nat)
    ensures forall n: nat ::
      Bit(BitXor(gamma, Mask(digits)), n) == if n < digits then 1 - Bit(gamma, n) else Bit(gamma, n)
  {
    forall n: nat
      ensures Bit(BitXor(gamma, Mask(digits)), n) == if n < digits then 1 - Bit(gamma, n) else Bit(gamma, n)
    {
      BitXorBit(gamma, Mask(digits), n);
      MaskBit(digits, n);
    }
  }

  /** Gamma and epsilon are exact complements within `digits` bits. */
  lemma GammaEpsilonComplement(digits: nat, values: seq<nat>)
    ensures Gamma(digits, values) + Epsilon(digits, Gamma(digits, values)) == Mask(digits)
    ensures forall n: nat :: n < digits ==>
      Bit(Epsilon(digits, Gamma(digits, values)), n) == 1 - GetNthBit(n, values)
  {
  }
}
