/** Decoding measured bitstrings into EV selections and scoring selections:
    the linear-penalty objective the optimiser maximises and the
    feasibility-gated objective used to compare approaches. */
module Scoring {
  import opened Seqs
  import opened EVKnapsack

  /** A measured outcome: one character per qubit, qubit 0 rightmost. */
  type Bitstring = string

  predicate IsBitstring(b: string)
  {
    forall i :: 0 <= i < |b| ==> b[i] == '0' || b[i] == '1'
  }

  /** `int(ch)` on a binary digit. */
  function Digit(ch: char): int
    requires ch == '0' || ch == '1'
  {
    if ch == '1' then 1 else 0
  }

  function Digits(b: Bitstring): (r: seq<int>)
    requires IsBitstring(b)
    ensures |r| == |b|
  {
    seq(|b|, i requires 0 <= i < |b| => Digit(b[i]))
  }

  /** A selection (a "choice"): one 0/1 entry per EV. */
  predicate IsChoice(c: seq<int>)
  {
    forall i :: 0 <= i < |c| ==> c[i] == 0 || c[i] == 1
  }

  /** The bitstrings the scores accept: binary digits, at least one per EV
      (a shorter one makes the dot product raise). */
  predicate WellFormed(b: Bitstring, ev: EV)
  {
    IsBitstring(b) && |b| >= ev.numberOfEvs
  }

  /** `bitstring_to_selection_choices`: reverse the digits and keep the first
      `number_of_evs`; entry `i` is the digit `i` places from the right. */
  function BitstringToSelectionChoices(b: Bitstring, ev: EV): (s: seq<int>)
    requires IsBitstring(b)
    ensures |s| == Min(|b|, ev.numberOfEvs)
    ensures IsChoice(s)
    ensures forall i :: 0 <= i < |s| ==> s[i] == Digit(b[|b| - 1 - i])
  {
    var bits := Reverse(Digits(b));
    bits[..Min(|bits|, ev.numberOfEvs)]
  }

  /** Only the last `number_of_evs` characters are read: bits of the power
      register and the flag, which stand to their left, are ignored. */
  lemma SelectionIgnoresAncillas(b1: Bitstring, b2: Bitstring, ev: EV)
    requires WellFormed(b1, ev) && WellFormed(b2, ev)
    requires b1[|b1| - ev.numberOfEvs..] == b2[|b2| - ev.numberOfEvs..]
    ensures BitstringToSelectionChoices(b1, ev) == BitstringToSelectionChoices(b2, ev)
  {
    var n := ev.numberOfEvs;
    var s1, s2 := BitstringToSelectionChoices(b1, ev), BitstringToSelectionChoices(b2, ev);
    forall i | 0 <= i < n
      ensures s1[i] == s2[i]
    {
      assert b1[|b1| - 1 - i] == b1[|b1| - n..][n - 1 - i];
      assert b2[|b2| - 1 - i] == b2[|b2| - n..][n - 1 - i];
    }
  }

  /** `selection.dot(xs)` for a vector of reals, summed left to right. */
  function Dot(c: seq<int>, xs: seq<real>): real
    requires |c| == |xs|
  {
    if c == [] then 0.0
    else Dot(c[..|c| - 1], xs[..|xs| - 1]) + (c[|c| - 1] as real) * xs[|xs| - 1]
  }

  /** `selection.dot(xs)` for a vector of integers. */
  function DotInt(c: seq<int>, xs: seq<int>): int
    requires |c| == |xs|
  {
    if c == [] then 0
    else DotInt(c[..|c| - 1], xs[..|xs| - 1]) + c[|c| - 1] * xs[|xs| - 1]
  }

  /** The selection that picks no EV. */
  predicate NothingSelected(c: seq<int>)
  {
    forall i :: 0 <= i < |c| ==> c[i] == 0
  }

  /** `value`: the selection dotted with the instance's `time_required`,
      which holds the reciprocal times. Picking nothing is worth 0, and with
      positive charging times no selection is worth less. */
  function Value(c: seq<int>, ev: EV): (r: real)
    requires ev.Valid() && |c| == ev.numberOfEvs
    ensures NothingSelected(c) ==> r == 0.0
    ensures ev.PositiveTimes() && IsChoice(c) ==> r >= 0.0
  {
    DotOfNothing(c, ev.timeRequired);
    if ev.PositiveTimes() && IsChoice(c) then
      PositiveReciprocals(ev);
      DotNonNegative(c, ev.timeRequired);
      Dot(c, ev.timeRequired)
    else
      Dot(c, ev.timeRequired)
  }

  /** `time_required(choice, ev)`: the same dot product as `value`, so the
      two always agree. */
  function TimeRequired(c: seq<int>, ev: EV): (r: real)
    requires ev.Valid() && |c| == ev.numberOfEvs
    ensures r == Value(c, ev)
  {
    Dot(c, ev.timeRequired)
  }

  /** `power_required`: the total power the selection draws. Picking
      nothing draws none; when no EV draws negative power, a selection
      draws between nothing and the total power. */
  function PowerRequired(c: seq<int>, ev: EV): (r: int)
    requires ev.Valid() && |c| == ev.numberOfEvs
    ensures NothingSelected(c) ==> r == 0
    ensures ev.NonNegativePowers() && IsChoice(c) ==> 0 <= r <= ev.totalPower
  {
    DotIntOfNothing(c, ev.powerRequired);
    if ev.NonNegativePowers() && IsChoice(c) then
      DotIntBelowSum(c, ev.powerRequired);
      DotInt(c, ev.powerRequired)
    else
      DotInt(c, ev.powerRequired)
  }

  /** `is_choice_feasible`: the budget is respected, boundary included.
      Under a non-negative budget picking nothing is feasible, and when the
      budget covers the total power of non-negative demands every selection
      is. */
  predicate IsChoiceFeasible(c: seq<int>, ev: EV)
    requires ev.Valid() && |c| == ev.numberOfEvs
    ensures NothingSelected(c) && ev.maxPower >= 0 ==> IsChoiceFeasible(c, ev)
    ensures ev.NonNegativePowers() && IsChoice(c) && ev.totalPower <= ev.maxPower ==> IsChoiceFeasible(c, ev)
  {
    PowerRequired(c, ev) <= ev.maxPower
  }

  /** `objective_function`: the time sum, minus `a` times the excess power
      when the budget is exceeded. With `a > 0` the score equals the time
      sum exactly when the selection is feasible, and is below it otherwise. */
  function ObjectiveFunction(b: Bitstring, ev: EV, a: real): (r: real)
    requires ev.Valid() && WellFormed(b, ev)
    ensures var s := BitstringToSelectionChoices(b, ev);
      && (IsChoiceFeasible(s, ev) ==> r == TimeRequired(s, ev))
      && (!IsChoiceFeasible(s, ev) ==>
            r == TimeRequired(s, ev) - a * (PowerRequired(s, ev) - ev.maxPower) as real)
      && (a > 0.0 ==> (r == TimeRequired(s, ev) <==> IsChoiceFeasible(s, ev)))
      && (a > 0.0 && !IsChoiceFeasible(s, ev) ==> r < TimeRequired(s, ev))
  {
    var selection := BitstringToSelectionChoices(b, ev);
    var timeRequired := TimeRequired(selection, ev);
    var powerRequired := PowerRequired(selection, ev);
    var penalty := if powerRequired > ev.maxPower then a * (powerRequired - ev.maxPower) as real else 0.0;
    timeRequired - penalty
  }

  /** `comparable_objective_function`: the value of a feasible selection, 0
      for an infeasible one; the penalty weight plays no part. */
  function ComparableObjectiveFunction(b: Bitstring, ev: EV): (r: real)
    requires ev.Valid() && WellFormed(b, ev)
    ensures var s := BitstringToSelectionChoices(b, ev);
      && (IsChoiceFeasible(s, ev) ==> r == Value(s, ev))
      && (!IsChoiceFeasible(s, ev) ==> r == 0.0)
  {
    var choice := BitstringToSelectionChoices(b, ev);
    if IsChoiceFeasible(choice, ev) then Value(choice, ev) else 0.0
  }

  /** With positive weights every 0/1 selection has a non-negative dot
      product. */
  lemma {:induction false} DotNonNegative(c: seq<int>, xs: seq<real>)
    requires |c| == |xs| && IsChoice(c)
    requires forall i :: 0 <= i < |xs| ==> xs[i] > 0.0
    ensures Dot(c, xs) >= 0.0
  {
    if c != [] {
      DotNonNegative(c[..|c| - 1], xs[..|xs| - 1]);
    }
  }

  /** Positive charging times have positive reciprocals. */
  lemma PositiveReciprocals(ev: EV)
    requires ev.Valid() && ev.PositiveTimes()
    ensures forall i :: 0 <= i < |ev.timeRequired| ==> ev.timeRequired[i] > 0.0
  {
    forall i | 0 <= i < |ev.timeRequired|
      ensures ev.timeRequired[i] > 0.0
    {
      assert ev.originalTimeRequired[i] > 0.0;
    }
  }

  lemma {:induction false} DotOfNothing(c: seq<int>, xs: seq<real>)
    requires |c| == |xs|
    ensures NothingSelected(c) ==> Dot(c, xs) == 0.0
  {
    if c != [] {
      DotOfNothing(c[..|c| - 1], xs[..|xs| - 1]);
    }
  }

  lemma {:induction false} DotIntOfNothing(c: seq<int>, xs: seq<int>)
    requires |c| == |xs|
    ensures NothingSelected(c) ==> DotInt(c, xs) == 0
  {
    if c != [] {
      DotIntOfNothing(c[..|c| - 1], xs[..|xs| - 1]);
    }
  }

  /** A 0/1 selection of non-negative amounts sums to between nothing and
      the total. */
  lemma {:induction false} DotIntBelowSum(s: seq<int>, powers: seq<int>)
    requires |s| == |powers| && IsChoice(s)
    requires forall i :: 0 <= i < |powers| ==> powers[i] >= 0
    ensures 0 <= DotInt(s, powers) <= Sum(powers)
  {
    if s != [] {
      var n := |s| - 1;
      DotIntBelowSum(s[..n], powers[..n]);
      assert s[n] == 0 || s[n] == 1;
    }
  }

  /** The comparable score is never negative for positive charging times. */
  lemma ComparableNonNegative(b: Bitstring, ev: EV)
    requires ev.Valid() && ev.PositiveTimes() && WellFormed(b, ev)
    ensures ComparableObjectiveFunction(b, ev) >= 0.0
  {
  }
}
