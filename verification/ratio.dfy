/** The approximation ratio: the expected comparable score of a measured
    distribution divided by the value of the first best-known selection,
    for a distribution given directly (`approximation_ratio`) and for raw
    device counts aggregated per key part (`approximation_ratio_on_real_device`). */
module Ratio {
  import opened Wrappers
  import opened Seqs
  import opened Numeric
  import opened EVKnapsack
  import opened Scoring
  import opened Expectation
  import opened ExactSolver
  import opened ShotAggregation

  /** `best[0]` on an empty result raises `IndexError`; dividing by a best
      value of 0 gives no finite ratio (numpy yields `inf` or `nan`). */
  datatype RatioError = EmptySolutions | ZeroBestValue

  /** `partial(comparable_objective_function, ev=ev)`: defined on the
      well-formed bitstrings of the instance. */
  function ComparableOf(ev: EV): (f: string --> real)
    requires ev.Valid()
    ensures forall b :: WellFormed(b, ev) ==> f.requires(b) && f(b) == ComparableObjectiveFunction(b, ev)
  {
    b requires WellFormed(b, ev) => ComparableObjectiveFunction(b, ev)
  }

  /** Every key of the distribution can be scored. */
  predicate Scorable(probs: seq<(string, real)>, ev: EV)
  {
    ev.Valid() && forall i :: 0 <= i < |probs| ==> WellFormed(probs[i].0, ev)
  }

  lemma ScorableDefined(probs: seq<(string, real)>, ev: EV)
    requires Scorable(probs, ev)
    ensures DefinedOn(probs, ComparableOf(ev))
  {
  }

  /** The ratio step shared by both entry points: `best[0]`, its value, and
      the division. The ratio times the best value gives the expectation
      back. */
  function RatioStep(expectation: real, best: seq<seq<int>>, ev: EV): (r: Result<real, RatioError>)
    requires ev.Valid() && forall c :: c in best ==> |c| == ev.numberOfEvs
    ensures best == [] <==> r == Failure(EmptySolutions)
    ensures best != [] ==> (r == Failure(ZeroBestValue) <==> Value(best[0], ev) == 0.0)
    ensures r.Success? ==> best != [] && r.value * Value(best[0], ev) == expectation
  {
    if best == [] then Failure(EmptySolutions)
    else
      var bestValue := Value(best[0], ev);
      if bestValue == 0.0 then Failure(ZeroBestValue) else Success(expectation / bestValue)
  }

  /** `approximation_ratio` once the expectation is known: runs the exhaustive
      search and divides by the value of its first selection. */
  method ApproximationRatio(expectation: real, ev: EV) returns (r: Result<real, RatioError>)
    requires Enumerable(ev)
    ensures forall c :: c in OptimalChoices(ev) ==> |c| == ev.numberOfEvs
    ensures r == RatioStep(expectation, OptimalChoices(ev), ev)
  {
    var best := BestKnownSolutions(ev);
    OptimalChoicesSound(ev);
    if |best| == 0 {
      return Failure(EmptySolutions);
    }
    var choice := best[0];
    var bestValue := Value(choice, ev);
    if bestValue == 0.0 {
      return Failure(ZeroBestValue);
    }
    r := Success(expectation / bestValue);
  }

  /** The ratio of a distribution: its expected comparable score over the
      value of the first best-known selection. It fails when the search
      finds no selection, or when the best value is 0; otherwise the ratio
      times the best value is the expectation. */
  function DistributionRatio(probs: seq<(string, real)>, ev: EV): (r: Result<real, RatioError>)
    requires Enumerable(ev) && Scorable(probs, ev)
    ensures r == Failure(EmptySolutions) <==> OptimalChoices(ev) == []
    ensures r == Failure(ZeroBestValue) <==> OptimalChoices(ev) != [] && BestValue(ev) == 0.0
    ensures r.Success? ==> BestValue(ev) != 0.0 && r.value == AverageValue(probs, ComparableOf(ev)) / BestValue(ev)
  {
    OptimalChoicesSound(ev);
    var e := AverageValue(probs, ComparableOf(ev));
    RatioOfBest(e, ev);
    RatioStep(e, OptimalChoices(ev), ev)
  }

  /** The ratio step on the search's result divides by the best value. */
  lemma RatioOfBest(e: real, ev: EV)
    requires Enumerable(ev)
    ensures forall c :: c in OptimalChoices(ev) ==> |c| == ev.numberOfEvs
    ensures var r := RatioStep(e, OptimalChoices(ev), ev);
      && (r == Failure(EmptySolutions) <==> OptimalChoices(ev) == [])
      && (r == Failure(ZeroBestValue) <==> OptimalChoices(ev) != [] && BestValue(ev) == 0.0)
      && (r.Success? ==> BestValue(ev) != 0.0 && r.value == e / BestValue(ev))
  {
    var best := OptimalChoices(ev);
    OptimalChoicesSound(ev);
    if best != [] {
      assert best[0] in best;
    }
  }

  /** No bitstring scores above the best value, and none below 0. */
  lemma ComparableBelowBest(b: Bitstring, ev: EV)
    requires Enumerable(ev) && ev.PositiveTimes() && WellFormed(b, ev)
    ensures 0.0 <= ComparableObjectiveFunction(b, ev) <= BestValue(ev)
  {
    var s := BitstringToSelectionChoices(b, ev);
    ComparableNonNegative(b, ev);
    BestUpToBounds(ev, Pow2(ev.numberOfEvs));
    if IsChoiceFeasible(s, ev) {
      OptimalChoicesComplete(ev, s);
    }
  }

  /** The expected comparable score of a distribution with non-negative
      probabilities lies between 0 and the best value times its mass. */
  lemma ExpectationBounds(probs: seq<(string, real)>, ev: EV)
    requires Enumerable(ev) && ev.PositiveTimes() && Scorable(probs, ev) && NonNegative(probs)
    ensures 0.0 <= AverageValue(probs, ComparableOf(ev)) <= BestValue(ev) * Mass(probs)
  {
    var f := ComparableOf(ev);
    var b := BestValue(ev);
    ScoresBelowBest(probs, ev, f, b);
    NonNegativeScoresBounds(probs, f, b);
  }

  lemma ScoresBelowBest(probs: seq<(string, real)>, ev: EV, f: string --> real, b: real)
    requires Enumerable(ev) && ev.PositiveTimes() && Scorable(probs, ev)
    requires f == ComparableOf(ev) && b == BestValue(ev)
    ensures DefinedOn(probs, f)
    ensures forall i :: 0 <= i < |probs| ==> 0.0 <= f(probs[i].0) <= b
  {
    forall i | 0 <= i < |probs|
      ensures 0.0 <= ComparableOf(ev)(probs[i].0) <= BestValue(ev)
    {
      ComparableBelowBest(probs[i].0, ev);
    }
  }

  /** Only the empty selection fits the budget. */
  ghost predicate OnlyEmptyFeasible(ev: EV)
    requires ev.Valid()
  {
    forall c :: |c| == ev.numberOfEvs && IsChoice(c) && IsChoiceFeasible(c, ev) ==> NothingSelected(c)
  }

  /** With positive charging times the best value is 0 exactly when no
      vehicle can be picked within the budget. */
  lemma BestValueZero(ev: EV)
    requires Enumerable(ev) && ev.PositiveTimes()
    ensures BestValue(ev) == 0.0 <==> OnlyEmptyFeasible(ev)
  {
    var n := ev.numberOfEvs;
    BestUpToBounds(ev, Pow2(n));
    if BestValue(ev) == 0.0 {
      forall c | |c| == n && IsChoice(c) && IsChoiceFeasible(c, ev)
        ensures NothingSelected(c)
      {
        OptimalChoicesComplete(ev, c);
        if !NothingSelected(c) {
          var k :| 0 <= k < |c| && c[k] != 0;
          PositiveReciprocals(ev);
          DotPositive(c, ev.timeRequired, k);
        }
      }
    } else {
      var j :| 0 <= j < Pow2(n) && FeasibleAt(ev, j) && ValueAt(ev, j) == BestValue(ev);
      var c := ChoiceAt(ev, j);
    }
  }

  /** A 0/1 selection with a 1 at `k` has a positive dot product with
      positive values. */
  lemma {:induction false} DotPositive(c: seq<int>, xs: seq<real>, k: nat)
    requires |c| == |xs| && IsChoice(c) && k < |c| && c[k] == 1
    requires forall i :: 0 <= i < |xs| ==> xs[i] > 0.0
    ensures Dot(c, xs) > 0.0
  {
    var n := |c| - 1;
    assert IsChoice(c[..n]) by {
      assert forall i :: 0 <= i < n ==> c[..n][i] == c[i];
    }
    if k < n {
      assert c[..n][k] == 1;
      DotPositive(c[..n], xs[..n], k);
      assert c[n] as real * xs[n] >= 0.0;
    } else {
      DotNonNegative(c[..n], xs[..n]);
    }
  }

  /** The ratio of a distribution with non-negative probabilities, for a
      non-negative budget: the result is never empty; the division fails
      exactly when only the empty selection fits the budget; otherwise the
      ratio lies between 0 and the mass of the distribution (1 for a
      probability distribution). */
  lemma RatioBounds(probs: seq<(string, real)>, ev: EV)
    requires Enumerable(ev) && ev.PositiveTimes() && ev.maxPower >= 0
    requires Scorable(probs, ev) && NonNegative(probs)
    ensures DistributionRatio(probs, ev) != Failure(EmptySolutions)
    ensures DistributionRatio(probs, ev) == Failure(ZeroBestValue) <==> OnlyEmptyFeasible(ev)
    ensures DistributionRatio(probs, ev).Success? ==>
      0.0 <= DistributionRatio(probs, ev).value <= Mass(probs)
  {
    BestChoiceValue(ev);
    BestValueZero(ev);
    if DistributionRatio(probs, ev).Success? {
      RatioRange(probs, ev);
    }
  }

  /** The first best-known selection carries the best value, which is not
      negative, and there is one for a non-negative budget. */
  lemma BestChoiceValue(ev: EV)
    requires Enumerable(ev) && ev.maxPower >= 0
    ensures OptimalChoices(ev) != []
    ensures forall c :: c in OptimalChoices(ev) ==> |c| == ev.numberOfEvs
    ensures Value(OptimalChoices(ev)[0], ev) == BestValue(ev) >= 0.0
  {
    var best := OptimalChoices(ev);
    OptimalChoicesNonEmpty(ev);
    OptimalChoicesSound(ev);
    assert best[0] in best;
    BestUpToBounds(ev, Pow2(ev.numberOfEvs));
  }

  lemma RatioRange(probs: seq<(string, real)>, ev: EV)
    requires Enumerable(ev) && ev.PositiveTimes() && ev.maxPower >= 0
    requires Scorable(probs, ev) && NonNegative(probs)
    requires DistributionRatio(probs, ev).Success?
    ensures 0.0 <= DistributionRatio(probs, ev).value <= Mass(probs)
  {
    var e := AverageValue(probs, ComparableOf(ev));
    var b := BestValue(ev);
    BestChoiceValue(ev);
    ExpectationBounds(probs, ev);
    assert DistributionRatio(probs, ev).value == e / b;
    QuotientBounds(b, e, Mass(probs));
  }

  /** A quotient `e / b` with `0 <= e <= b * m` and `b > 0` lies in `[0, m]`. */
  lemma QuotientBounds(b: real, e: real, m: real)
    requires b > 0.0 && 0.0 <= e <= b * m
    ensures 0.0 <= e / b <= m
  {
    var r := e / b;
    assert r * b == e;
  }

  /** The ratio `approximation_ratio_on_real_device` computes from raw device
      counts, with the key parts kept by `rule`; the code keeps `Leftmost`.
      The aggregated keys can all be scored, and the ratio fails or divides
      exactly as for a distribution given directly. */
  function DeviceRatio(counts: seq<(string, nat)>, ev: EV, rule: KeyRule): (r: Result<real, RatioError>)
    requires Enumerable(ev) && KeysWellFormed(counts, ev)
    ensures Scorable(Aggregated(counts, ev.numberOfEvs, rule), ev)
    ensures r == Failure(EmptySolutions) <==> OptimalChoices(ev) == []
    ensures r == Failure(ZeroBestValue) <==> OptimalChoices(ev) != [] && BestValue(ev) == 0.0
    ensures r.Success? ==> BestValue(ev) != 0.0
    ensures r.Success? ==> r.value == AverageValue(Aggregated(counts, ev.numberOfEvs, rule), ComparableOf(ev)) / BestValue(ev)
  {
    AggregatedScorable(counts, ev, rule);
    DistributionRatio(Aggregated(counts, ev.numberOfEvs, rule), ev)
  }

  /** Every measured key is a bitstring with a character per EV at least. */
  predicate KeysWellFormed(counts: seq<(string, nat)>, ev: EV)
  {
    forall i :: 0 <= i < |counts| ==> WellFormed(counts[i].0, ev)
  }

  lemma KeepBitstring(rule: KeyRule, key: string, n: nat)
    requires IsBitstring(key)
    ensures IsBitstring(Keep(rule, key, n))
  {
    var p := Keep(rule, key, n);
    forall i | 0 <= i < |p|
      ensures p[i] == '0' || p[i] == '1'
    {
      if rule.Leftmost? {
        assert p[i] == key[i];
      } else {
        assert p[i] == key[|key| - |p| + i];
      }
    }
  }

  /** Aggregating well-formed keys gives keys of exactly one character per
      EV, so the aggregate can be scored. */
  lemma AggregatedScorable(counts: seq<(string, nat)>, ev: EV, rule: KeyRule)
    requires ev.Valid() && KeysWellFormed(counts, ev)
    ensures Scorable(Aggregated(counts, ev.numberOfEvs, rule), ev)
  {
    var n := ev.numberOfEvs;
    var d := Aggregated(counts, n, rule);
    forall j | 0 <= j < |d|
      ensures WellFormed(d[j].0, ev)
    {
      var p := d[j].0;
      assert p in KeySet(d);
      AggregatedCorrect(counts, n, rule, p);
      var i :| 0 <= i < |counts| && Keep(rule, counts[i].0, n) == p;
      KeepBitstring(rule, counts[i].0, n);
    }
  }

  /** `approximation_ratio_on_real_device` after the counts are in: the
      aggregation loop keeping `key[:number_of_evs]`, the expectation of the
      comparable score, and the ratio step. */
  method ApproximationRatioOnRealDevice(counts: seq<(string, nat)>, ev: EV) returns (r: Result<real, RatioError>)
    requires Enumerable(ev) && KeysWellFormed(counts, ev)
    ensures r == DeviceRatio(counts, ev, Leftmost)
  {
    var probDist := AggregateShots(counts, ev.numberOfEvs);
    AggregatedScorable(counts, ev, Leftmost);
    var expectation := AverageValue(probDist, ComparableOf(ev));
    r := ApproximationRatio(expectation, ev);
  }

  /** The device ratio obeys the bounds of any distribution ratio: the mass
      of the aggregate is the number of counts over the shot number. */
  lemma DeviceRatioBounds(counts: seq<(string, nat)>, ev: EV, rule: KeyRule)
    requires Enumerable(ev) && ev.PositiveTimes() && ev.maxPower >= 0 && KeysWellFormed(counts, ev)
    ensures DeviceRatio(counts, ev, rule) != Failure(EmptySolutions)
    ensures DeviceRatio(counts, ev, rule) == Failure(ZeroBestValue) <==> OnlyEmptyFeasible(ev)
    ensures DeviceRatio(counts, ev, rule).Success? ==>
      0.0 <= DeviceRatio(counts, ev, rule).value <= Frequency(TotalCount(counts))
  {
    var d := Aggregated(counts, ev.numberOfEvs, rule);
    AggregatedScorable(counts, ev, rule);
    ScaledNonNegative(counts);
    MergedNonNegative(Scaled(counts), ev.numberOfEvs, rule);
    AggregatedCorrect(counts, ev.numberOfEvs, rule, "");
    RatioBounds(d, ev);
  }

  /** Keeping the rightmost `number_of_evs` characters loses nothing the
      comparable score reads: the aggregate has the same expectation as the
      raw counts' frequencies, so the device ratio is the ratio of the
      measured distribution. */
  lemma RightmostRatioMatches(counts: seq<(string, nat)>, ev: EV)
    requires Enumerable(ev) && KeysWellFormed(counts, ev)
    ensures Scorable(Scaled(counts), ev)
    ensures DeviceRatio(counts, ev, Rightmost) == DistributionRatio(Scaled(counts), ev)
  {
    var n := ev.numberOfEvs;
    var d := Scaled(counts);
    var f := ComparableOf(ev);
    var agg := Aggregated(counts, n, Rightmost);
    RightmostExpectation(counts, ev);
    AggregatedScorable(counts, ev, Rightmost);
    assert AverageValue(agg, f) == AverageValue(d, f);
    assert DeviceRatio(counts, ev, Rightmost) == DistributionRatio(agg, ev);
  }

  /** Aggregating on the rightmost characters keeps the expectation. */
  lemma RightmostExpectation(counts: seq<(string, nat)>, ev: EV)
    requires Enumerable(ev) && KeysWellFormed(counts, ev)
    ensures Scorable(Scaled(counts), ev)
    ensures DefinedOn(Aggregated(counts, ev.numberOfEvs, Rightmost), ComparableOf(ev))
    ensures AverageValue(Aggregated(counts, ev.numberOfEvs, Rightmost), ComparableOf(ev))
         == AverageValue(Scaled(counts), ComparableOf(ev))
  {
    var n := ev.numberOfEvs;
    var d := Scaled(counts);
    var f := ComparableOf(ev);
    forall i | 0 <= i < |d|
      ensures KeptPartDecidesKey(d[i].0, n, Rightmost, f)
    {
      var key := d[i].0;
      assert key == counts[i].0;
      var p := Keep(Rightmost, key, n);
      KeepBitstring(Rightmost, key, n);
      assert p[|p| - n..] == p;
      SelectionIgnoresAncillas(p, key, ev);
    }
    MergedExpectation(d, n, Rightmost, f);
  }

  /** Keeping the leftmost characters, as the code does, reads the flag and
      power-register qubits instead of the EV qubits. One EV (time 1,
      power 1, budget 1) and all 2048 shots on `"10"`: the EV qubit
      (rightmost) is 0, so the measured distribution scores 0, but the kept
      key `"1"` picks the EV and scores 1. */
  lemma LeftmostMisreads(ev: EV)
    requires ev.Valid() && ev.originalTimeRequired == [1.0]
    requires ev.powerRequired == [1] && ev.maxPower == 1
    ensures Enumerable(ev) && KeysWellFormed([("10", 2048)], ev)
    ensures Aggregated([("10", 2048)], 1, Leftmost) == [("1", 1.0)]
    ensures Scorable([("1", 1.0)], ev) && Scorable(Scaled([("10", 2048)]), ev)
    ensures AverageValue([("1", 1.0)], ComparableOf(ev)) == 1.0
    ensures AverageValue(Scaled([("10", 2048)]), ComparableOf(ev)) == 0.0
  {
    var counts := [("10", 2048)];
    assert ev.timeRequired == Reciprocals([1.0]);
    assert ev.timeRequired[0] == 1.0;
    var d := Scaled(counts);
    assert d == [("10", 1.0)];
    assert d[..0] == [];
    assert Keep(Leftmost, "10", 1) == "1";
    var f := ComparableOf(ev);
    assert BitstringToSelectionChoices("1", ev) == [1];
    assert BitstringToSelectionChoices("10", ev) == [0];
    assert Dot([1], ev.timeRequired) == 1.0 by {
      assert [1][..0] == [] && ev.timeRequired[..0] == [];
    }
    assert PowerRequired([1], ev) == 1 by {
      assert [1][..0] == [] && ev.powerRequired[..0] == [];
    }
    AverageValuePoint("1", f);
    AverageValuePoint("10", f);
  }
}
