/** `best_known_solutions`: the exhaustive ground truth. Every number
    `0 <= i < 2^number_of_evs` is turned into a selection, and all feasible
    selections of maximal value are kept, ties included, in the order of `i`. */
module ExactSolver {
  import opened Numeric
  import opened EVKnapsack
  import opened Scoring

  /** `choices_from_number`: the digits of `number`, least significant first,
      padded with zeros up to `n` entries (`[0] * k` is empty for `k <= 0`). */
  function ChoicesFromNumber(n: nat, number: nat): (c: seq<int>)
    ensures IsChoice(c)
  {
    var digits := BinDigits(number);
    digits + seq(if n > |digits| then n - |digits| else 0, _ => 0)
  }

  /** For `n >= 1` and `i < 2^n` the selection has exactly `n` entries and
      entry `k` is bit `k` of `i`. (For `n == 0` it would be `[0]`, one entry
      too many.) */
  lemma ChoiceBits(n: nat, i: nat)
    requires n >= 1 && i < Pow2(n)
    ensures |ChoicesFromNumber(n, i)| == n
    ensures forall k :: 0 <= k < n ==> ChoicesFromNumber(n, i)[k] == Bit(i, k)
  {
    BinDigitsBits(i);
    var d := BinDigits(i);
    if i > 0 {
      BitLengthLeast(i, n);
    }
    forall k | |d| <= k < n
      ensures Bit(i, k) == 0
    {
      Pow2Monotone(|d|, k);
      BitAboveLength(i, k);
    }
  }

  /** The integer a selection stands for: entry `k` weighs `2^k`. */
  function Encode(c: seq<int>): (r: int)
    ensures IsChoice(c) ==> r >= 0
  {
    if c == [] then 0 else c[0] + 2 * Encode(c[1..])
  }

  lemma {:induction false} EncodeBits(c: seq<int>)
    requires IsChoice(c)
    ensures 0 <= Encode(c) < Pow2(|c|)
    ensures forall k :: 0 <= k < |c| ==> Bit(Encode(c), k) == c[k]
  {
    if c != [] {
      EncodeBits(c[1..]);
      var v := Encode(c);
      DivModUnique(v, 2, Encode(c[1..]), c[0]);
      forall k | 0 <= k < |c|
        ensures Bit(v, k) == c[k]
      {
        if k >= 1 {
          BitShift(v, k);
          assert c[1..][k - 1] == c[k];
        }
      }
    }
  }

  /** `ChoicesFromNumber` and `Encode` are inverse: the enumeration visits
      every selection of length `n` exactly once, at the index it encodes. */
  lemma EncodeChoicesFromNumber(n: nat, i: nat)
    requires n >= 1 && i < Pow2(n)
    ensures Encode(ChoicesFromNumber(n, i)) == i
  {
    var c := ChoicesFromNumber(n, i);
    ChoiceBits(n, i);
    EncodeBits(c);
    BitsDetermine(Encode(c), i, n);
  }

  lemma ChoicesFromNumberOfEncode(c: seq<int>)
    requires |c| >= 1 && IsChoice(c)
    ensures ChoicesFromNumber(|c|, Encode(c)) == c
  {
    EncodeBits(c);
    ChoiceBits(|c|, Encode(c));
  }

  /** The instances the enumeration can handle: a valid `EV` with at least
      one vehicle. */
  predicate Enumerable(ev: EV)
  {
    ev.Valid() && ev.numberOfEvs >= 1
  }

  function ChoiceAt(ev: EV, i: nat): (c: seq<int>)
    requires Enumerable(ev) && i < Pow2(ev.numberOfEvs)
    ensures |c| == ev.numberOfEvs && IsChoice(c)
  {
    ChoiceBits(ev.numberOfEvs, i);
    ChoicesFromNumber(ev.numberOfEvs, i)
  }

  predicate FeasibleAt(ev: EV, i: nat)
    requires Enumerable(ev) && i < Pow2(ev.numberOfEvs)
  {
    IsChoiceFeasible(ChoiceAt(ev, i), ev)
  }

  function ValueAt(ev: EV, i: nat): real
    requires Enumerable(ev) && i < Pow2(ev.numberOfEvs)
  {
    Value(ChoiceAt(ev, i), ev)
  }

  /** The value of `best` after the loop has seen the numbers below `k`. */
  function BestUpTo(ev: EV, k: nat): real
    requires Enumerable(ev) && k <= Pow2(ev.numberOfEvs)
  {
    if k == 0 then 0.0
    else
      var best := BestUpTo(ev, k - 1);
      if FeasibleAt(ev, k - 1) && ValueAt(ev, k - 1) > best then ValueAt(ev, k - 1) else best
  }

  /** The feasible selections among the first `k` whose value is `m`, in
      order. */
  function Ties(ev: EV, k: nat, m: real): seq<seq<int>>
    requires Enumerable(ev) && k <= Pow2(ev.numberOfEvs)
  {
    if k == 0 then []
    else Ties(ev, k - 1, m) + if FeasibleAt(ev, k - 1) && ValueAt(ev, k - 1) == m then [ChoiceAt(ev, k - 1)] else []
  }

  /** The best value found: the largest feasible value, or 0 if that is larger. */
  function BestValue(ev: EV): real
    requires Enumerable(ev)
  {
    BestUpTo(ev, Pow2(ev.numberOfEvs))
  }

  /** What `best_known_solutions` returns. */
  function OptimalChoices(ev: EV): seq<seq<int>>
    requires Enumerable(ev)
  {
    Ties(ev, Pow2(ev.numberOfEvs), BestValue(ev))
  }

  lemma {:induction false} BestUpToBounds(ev: EV, k: nat)
    requires Enumerable(ev) && k <= Pow2(ev.numberOfEvs)
    ensures BestUpTo(ev, k) >= 0.0
    ensures forall j :: 0 <= j < k && FeasibleAt(ev, j) ==> ValueAt(ev, j) <= BestUpTo(ev, k)
    ensures BestUpTo(ev, k) == 0.0 || exists j :: 0 <= j < k && FeasibleAt(ev, j) && ValueAt(ev, j) == BestUpTo(ev, k)
  {
    if k > 0 {
      BestUpToBounds(ev, k - 1);
    }
  }

  lemma {:induction false} TiesAboveBest(ev: EV, k: nat, m: real)
    requires Enumerable(ev) && k <= Pow2(ev.numberOfEvs)
    requires m > BestUpTo(ev, k)
    ensures Ties(ev, k, m) == []
  {
    if k > 0 {
      BestUpToBounds(ev, k);
      BestUpToBounds(ev, k - 1);
      TiesAboveBest(ev, k - 1, m);
    }
  }

  /** Every entry of `Ties(ev, k, m)` is the selection of some number below
      `k`, feasible and of value `m`, and the numbers ascend. */
  lemma {:induction false} TiesSound(ev: EV, k: nat, m: real)
    requires Enumerable(ev) && k <= Pow2(ev.numberOfEvs)
    ensures forall a :: 0 <= a < |Ties(ev, k, m)| ==>
      && 0 <= Encode(Ties(ev, k, m)[a]) < k
      && Ties(ev, k, m)[a] == ChoiceAt(ev, Encode(Ties(ev, k, m)[a]))
      && FeasibleAt(ev, Encode(Ties(ev, k, m)[a]))
      && ValueAt(ev, Encode(Ties(ev, k, m)[a])) == m
    ensures forall a, b :: 0 <= a < b < |Ties(ev, k, m)| ==>
      Encode(Ties(ev, k, m)[a]) < Encode(Ties(ev, k, m)[b])
    decreases k, 1
  {
    if k > 0 {
      TiesSoundStep(ev, k, m);
    }
  }

  lemma {:induction false} TiesSoundStep(ev: EV, k: nat, m: real)
    requires Enumerable(ev) && 0 < k <= Pow2(ev.numberOfEvs)
    ensures forall a :: 0 <= a < |Ties(ev, k, m)| ==>
      && 0 <= Encode(Ties(ev, k, m)[a]) < k
      && Ties(ev, k, m)[a] == ChoiceAt(ev, Encode(Ties(ev, k, m)[a]))
      && FeasibleAt(ev, Encode(Ties(ev, k, m)[a]))
      && ValueAt(ev, Encode(Ties(ev, k, m)[a])) == m
    ensures forall a, b :: 0 <= a < b < |Ties(ev, k, m)| ==>
      Encode(Ties(ev, k, m)[a]) < Encode(Ties(ev, k, m)[b])
    decreases k, 0
  {
    TiesSound(ev, k - 1, m);
    EncodeChoicesFromNumber(ev.numberOfEvs, k - 1);
    var prev := Ties(ev, k - 1, m);
    assert forall a :: 0 <= a < |prev| ==> Ties(ev, k, m)[a] == prev[a];
  }

  lemma {:induction false} TiesComplete(ev: EV, k: nat, m: real, j: nat)
    requires Enumerable(ev) && k <= Pow2(ev.numberOfEvs)
    requires j < k && FeasibleAt(ev, j) && ValueAt(ev, j) == m
    ensures ChoiceAt(ev, j) in Ties(ev, k, m)
  {
    if j < k - 1 {
      TiesComplete(ev, k - 1, m, j);
    }
  }

  /** `best_known_solutions`, as the loop the source runs: `best` and
      `solutions` are updated in place for every number in turn. */
  method BestKnownSolutions(ev: EV) returns (solutions: seq<seq<int>>)
    requires Enumerable(ev)
    ensures solutions == OptimalChoices(ev)
  {
    var best := 0.0;
    solutions := [];
    var i := 0;
    while i < Pow2(ev.numberOfEvs)
      invariant 0 <= i <= Pow2(ev.numberOfEvs)
      invariant best == BestUpTo(ev, i)
      invariant solutions == Ties(ev, i, best)
    {
      var choice := ChoicesFromNumber(ev.numberOfEvs, i);
      ChoiceBits(ev.numberOfEvs, i);
      var value := Dot(choice, ev.timeRequired);
      var weight := DotInt(choice, ev.powerRequired);
      var isLegal := weight <= ev.maxPower;
      if isLegal && value > best {
        TiesAboveBest(ev, i, value);
        best := value;
        solutions := [choice];
      } else if isLegal && value == best {
        solutions := solutions + [choice];
      }
      i := i + 1;
    }
  }

  /** Soundness: each returned selection has one 0/1 entry per EV, is
      feasible, and has the best value. */
  lemma OptimalChoicesSound(ev: EV)
    requires Enumerable(ev)
    ensures forall s :: s in OptimalChoices(ev) ==>
      |s| == ev.numberOfEvs && IsChoice(s) && IsChoiceFeasible(s, ev) && Value(s, ev) == BestValue(ev)
  {
    TiesSound(ev, Pow2(ev.numberOfEvs), BestValue(ev));
  }

  /** Optimality and completeness: no feasible selection is worth more than
      the best value, and every feasible selection worth exactly that much is
      returned. */
  lemma OptimalChoicesComplete(ev: EV, c: seq<int>)
    requires Enumerable(ev) && |c| == ev.numberOfEvs && IsChoice(c)
    requires IsChoiceFeasible(c, ev)
    ensures Value(c, ev) <= BestValue(ev)
    ensures Value(c, ev) == BestValue(ev) ==> c in OptimalChoices(ev)
  {
    var n := ev.numberOfEvs;
    var j := Encode(c);
    EncodeBits(c);
    ChoicesFromNumberOfEncode(c);
    assert ChoiceAt(ev, j) == c;
    assert FeasibleAt(ev, j) && ValueAt(ev, j) == Value(c, ev);
    BestUpToBounds(ev, Pow2(n));
    if Value(c, ev) == BestValue(ev) {
      TiesComplete(ev, Pow2(n), BestValue(ev), j);
    }
  }

  /** Ties come in ascending order of their integer encoding, and each is the
      zero-padded, least-significant-first bit vector of that integer. */
  lemma OptimalChoicesAscending(ev: EV)
    requires Enumerable(ev)
    ensures forall a, b :: 0 <= a < b < |OptimalChoices(ev)| ==>
      Encode(OptimalChoices(ev)[a]) < Encode(OptimalChoices(ev)[b])
    ensures forall a :: 0 <= a < |OptimalChoices(ev)| ==>
      0 <= Encode(OptimalChoices(ev)[a]) &&
      OptimalChoices(ev)[a] == ChoicesFromNumber(ev.numberOfEvs, Encode(OptimalChoices(ev)[a]))
  {
    TiesSound(ev, Pow2(ev.numberOfEvs), BestValue(ev));
  }

  /** With a non-negative budget the result is never empty: the empty
      selection (number 0) is feasible with value 0, and the best value is
      either 0 or attained by some feasible selection. */
  lemma OptimalChoicesNonEmpty(ev: EV)
    requires Enumerable(ev) && ev.maxPower >= 0
    ensures |OptimalChoices(ev)| > 0
  {
    var n := ev.numberOfEvs;
    BestUpToBounds(ev, Pow2(n));
    if BestValue(ev) == 0.0 {
      ZeroChoice(ev);
      TiesComplete(ev, Pow2(n), BestValue(ev), 0);
    } else {
      var j :| 0 <= j < Pow2(n) && FeasibleAt(ev, j) && ValueAt(ev, j) == BestValue(ev);
      TiesComplete(ev, Pow2(n), BestValue(ev), j);
    }
  }

  /** Number 0 is the all-zero selection: no power, no value. */
  lemma ZeroChoice(ev: EV)
    requires Enumerable(ev)
    ensures forall k :: 0 <= k < ev.numberOfEvs ==> ChoiceAt(ev, 0)[k] == 0
    ensures PowerRequired(ChoiceAt(ev, 0), ev) == 0 && ValueAt(ev, 0) == 0.0
  {
    var c := ChoiceAt(ev, 0);
    forall k | 0 <= k < ev.numberOfEvs
      ensures c[k] == 0
    {
      ChoiceBits(ev.numberOfEvs, 0);
      DivModUnique(0, Pow2(k), 0, 0);
    }
    assert NothingSelected(c);
  }

  /** The first instance of the experiment driver, `EV([1, 2], [1, 1], 1)`:
      item values are the reciprocal times 1 and 1/2, so the only optimum
      picks the first EV. */
  lemma FirstInstanceOptimum(ev: EV)
    requires ev.Valid() && ev.originalTimeRequired == [1.0, 2.0]
    requires ev.powerRequired == [1, 1] && ev.maxPower == 1
    ensures Enumerable(ev)
    ensures BestValue(ev) == 1.0 && OptimalChoices(ev) == [[1, 0]]
  {
    TwoEvChoices(ev);
    assert ev.timeRequired[0] == 1.0 && ev.timeRequired[1] == 0.5;
    ZeroChoice(ev);
    DotOfTwo(ChoiceAt(ev, 1), ev.timeRequired, ev.powerRequired);
    DotOfTwo(ChoiceAt(ev, 2), ev.timeRequired, ev.powerRequired);
    DotOfTwo(ChoiceAt(ev, 3), ev.timeRequired, ev.powerRequired);
    assert FeasibleAt(ev, 0) && FeasibleAt(ev, 1) && FeasibleAt(ev, 2) && !FeasibleAt(ev, 3);
    assert ValueAt(ev, 1) == 1.0 && ValueAt(ev, 2) == 0.5;
    assert BestUpTo(ev, 1) == 0.0;
    assert BestUpTo(ev, 2) == 1.0;
    assert BestUpTo(ev, 3) == 1.0;
    assert BestUpTo(ev, 4) == 1.0;
    assert Ties(ev, 1, 1.0) == [];
    assert Ties(ev, 2, 1.0) == [[1, 0]];
    assert Ties(ev, 3, 1.0) == [[1, 0]];
  }

  /** Equal values are all kept: for `EV([1, 1], [1, 1], 1)` both single
      selections are optimal, listed in ascending order. */
  lemma TiedInstanceOptimum(ev: EV)
    requires ev.Valid() && ev.originalTimeRequired == [1.0, 1.0]
    requires ev.powerRequired == [1, 1] && ev.maxPower == 1
    ensures Enumerable(ev)
    ensures BestValue(ev) == 1.0 && OptimalChoices(ev) == [[1, 0], [0, 1]]
  {
    TwoEvChoices(ev);
    assert ev.timeRequired[0] == 1.0 && ev.timeRequired[1] == 1.0;
    ZeroChoice(ev);
    DotOfTwo(ChoiceAt(ev, 1), ev.timeRequired, ev.powerRequired);
    DotOfTwo(ChoiceAt(ev, 2), ev.timeRequired, ev.powerRequired);
    DotOfTwo(ChoiceAt(ev, 3), ev.timeRequired, ev.powerRequired);
    assert FeasibleAt(ev, 0) && FeasibleAt(ev, 1) && FeasibleAt(ev, 2) && !FeasibleAt(ev, 3);
    assert ValueAt(ev, 1) == 1.0 && ValueAt(ev, 2) == 1.0;
    assert BestUpTo(ev, 1) == 0.0;
    assert BestUpTo(ev, 2) == 1.0;
    assert BestUpTo(ev, 3) == 1.0;
    assert BestUpTo(ev, 4) == 1.0;
    assert Ties(ev, 1, 1.0) == [];
    assert Ties(ev, 2, 1.0) == [[1, 0]];
    assert Ties(ev, 3, 1.0) == [[1, 0], [0, 1]];
  }

  /** The four selections of a two-EV instance, in enumeration order. */
  lemma TwoEvChoices(ev: EV)
    requires ev.Valid() && ev.numberOfEvs == 2
    ensures Enumerable(ev) && Pow2(ev.numberOfEvs) == 4
    ensures ChoiceAt(ev, 0) == [0, 0] && ChoiceAt(ev, 1) == [1, 0]
    ensures ChoiceAt(ev, 2) == [0, 1] && ChoiceAt(ev, 3) == [1, 1]
  {
    assert Pow2(2) == 4;
    assert BinDigits(0) == [0] && BinDigits(1) == [1];
    assert BinDigits(2) == [0, 1] && BinDigits(3) == [1, 1];
  }

  lemma DotOfTwo(c: seq<int>, xs: seq<real>, ws: seq<int>)
    requires |c| == |xs| == |ws| == 2
    ensures Dot(c, xs) == (c[0] as real) * xs[0] + (c[1] as real) * xs[1]
    ensures DotInt(c, ws) == c[0] * ws[0] + c[1] * ws[1]
  {
    assert c[..1][..0] == [] && xs[..1][..0] == [] && ws[..1][..0] == [];
    assert Dot(c[..1], xs[..1]) == (c[0] as real) * xs[0];
    assert DotInt(c[..1], ws[..1]) == c[0] * ws[0];
  }
}
