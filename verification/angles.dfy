/** The angle vector convention shared by the optimiser and the parameter
    binding: `angles = [gamma0, beta0, gamma1, beta1, ...]`. The bounds handed
    to the optimiser put the gamma range at even and the beta range at odd
    positions, and binding sends even positions to the gamma parameters and
    odd positions to the beta parameters. */
module Angles {
  import opened Seqs

  /** The parameter handles of a QAOA circuit: `beta{i}`, `gamma{i}` and the
      penalty weight `a`. */
  datatype Param = Beta(i: nat) | Gamma(i: nat) | PenaltyWeight

  /** A closed interval `(low, high)` handed to the optimiser. */
  type Range = (real, real)

  /** `angles[0::2]`: the entries at even positions. */
  function Gammas(angles: seq<real>): (r: seq<real>)
    ensures |r| == (|angles| + 1) / 2
    ensures forall i :: 0 <= i < |r| ==> r[i] == angles[2 * i]
    decreases |angles|
  {
    if angles == [] then []
    else
      var rest := Betas(angles[1..]);
      assert forall i :: 0 <= i < |rest| ==> rest[i] == angles[2 * (i + 1)];
      [angles[0]] + rest
  }

  /** `angles[1::2]`: the entries at odd positions. */
  function Betas(angles: seq<real>): (r: seq<real>)
    ensures |r| == |angles| / 2
    ensures forall i :: 0 <= i < |r| ==> r[i] == angles[2 * i + 1]
    decreases |angles|
  {
    if angles == [] then [] else Gammas(angles[1..])
  }

  /** Gammas and betas interleaved again, gamma first. */
  function Interleave(gammas: seq<real>, betas: seq<real>): seq<real>
    requires |betas| <= |gammas| <= |betas| + 1
    decreases |gammas|
  {
    if gammas == [] then []
    else if betas == [] then [gammas[0]]
    else [gammas[0], betas[0]] + Interleave(gammas[1..], betas[1..])
  }

  /** Splitting an angle vector into gammas and betas loses nothing:
      interleaving them again gives the vector back. */
  lemma {:induction false} SplitInterleave(angles: seq<real>)
    ensures Interleave(Gammas(angles), Betas(angles)) == angles
    decreases |angles|
  {
    if |angles| >= 2 {
      var g, b := Gammas(angles), Betas(angles);
      SplitInterleave(angles[2..]);
      assert g[1..] == Gammas(angles[2..]);
      assert b[1..] == Betas(angles[2..]);
      assert angles == [angles[0], angles[1]] + angles[2..];
    }
  }

  /** `np.array([gamma_range, beta_range] * p)`. */
  function OptimizeAnglesBounds(p: nat, gammaRange: Range, betaRange: Range): (bounds: seq<Range>)
    ensures |bounds| == 2 * p
    ensures forall i :: 0 <= i < p ==> bounds[2 * i] == gammaRange && bounds[2 * i + 1] == betaRange
  {
    if p == 0 then []
    else
      var init := OptimizeAnglesBounds(p - 1, gammaRange, betaRange);
      assert forall i :: 0 <= i < p - 1 ==> (init + [gammaRange, betaRange])[2 * i] == init[2 * i];
      assert forall i :: 0 <= i < p - 1 ==> (init + [gammaRange, betaRange])[2 * i + 1] == init[2 * i + 1];
      init + [gammaRange, betaRange]
  }

  /** The optimiser only proposes vectors inside its bounds. */
  predicate WithinBounds(angles: seq<real>, bounds: seq<Range>)
  {
    |angles| == |bounds| &&
    forall j :: 0 <= j < |angles| ==> bounds[j].0 <= angles[j] <= bounds[j].1
  }

  /** The parameter handles are pairwise distinct (Qiskit parameters are
      distinct objects). */
  predicate Distinct(betas: seq<Param>, gammas: seq<Param>, aParam: Param)
  {
    var all := betas + gammas + [aParam];
    forall i, j :: 0 <= i < j < |all| ==> all[i] != all[j]
  }

  /** `to_parameter_dict`: bind every beta handle to the next odd-position
      angle and every gamma handle to the next even-position angle, as far
      as both lists go (`zip` stops at the shorter), then `a` to the penalty
      weight. The key set is exactly the bound handles; `a` always ends up
      bound to the weight, and when the handles are distinct `gammas[i]`
      holds `angles[2i]` and `betas[i]` holds `angles[2i + 1]`. */
  method ToParameterDict(angles: seq<real>, a: real, betas: seq<Param>, gammas: seq<Param>, aParam: Param)
    returns (parameters: map<Param, real>)
    ensures var nb, ng := Min(|betas|, |angles| / 2), Min(|gammas|, (|angles| + 1) / 2);
      parameters.Keys == (set i | 0 <= i < nb :: betas[i]) + (set i | 0 <= i < ng :: gammas[i]) + {aParam}
    ensures aParam in parameters && parameters[aParam] == a
    ensures Distinct(betas, gammas, aParam) ==>
      forall i :: 0 <= i < Min(|betas|, |angles| / 2) ==> parameters[betas[i]] == angles[2 * i + 1]
    ensures Distinct(betas, gammas, aParam) ==>
      forall i :: 0 <= i < Min(|gammas|, (|angles| + 1) / 2) ==> parameters[gammas[i]] == angles[2 * i]
  {
    var gammaValues := Gammas(angles);
    var betaValues := Betas(angles);
    var nb, ng := Min(|betas|, |betaValues|), Min(|gammas|, |gammaValues|);
    parameters := map[];
    var i := 0;
    while i < nb
      invariant 0 <= i <= nb
      invariant parameters.Keys == set j | 0 <= j < i :: betas[j]
      invariant Distinct(betas, gammas, aParam) ==>
        forall j :: 0 <= j < i ==> parameters[betas[j]] == betaValues[j]
    {
      if Distinct(betas, gammas, aParam) {
        DistinctBeta(betas, gammas, aParam, i);
      }
      parameters := parameters[betas[i] := betaValues[i]];
      i := i + 1;
    }
    ghost var betaKeys := parameters.Keys;
    i := 0;
    while i < ng
      invariant 0 <= i <= ng
      invariant parameters.Keys == betaKeys + set j | 0 <= j < i :: gammas[j]
      invariant Distinct(betas, gammas, aParam) ==>
        forall j :: 0 <= j < nb ==> parameters[betas[j]] == betaValues[j]
      invariant Distinct(betas, gammas, aParam) ==>
        forall j :: 0 <= j < i ==> parameters[gammas[j]] == gammaValues[j]
    {
      if Distinct(betas, gammas, aParam) {
        DistinctAt(betas, gammas, aParam, i);
      }
      parameters := parameters[gammas[i] := gammaValues[i]];
      i := i + 1;
    }
    if Distinct(betas, gammas, aParam) {
      DistinctLast(betas, gammas, aParam);
    }
    parameters := parameters[aParam := a];
  }

  /** A beta handle differs from every other beta handle. */
  lemma DistinctBeta(betas: seq<Param>, gammas: seq<Param>, aParam: Param, i: nat)
    requires Distinct(betas, gammas, aParam) && i < |betas|
    ensures forall j :: 0 <= j < |betas| && j != i ==> betas[j] != betas[i]
  {
    var all := betas + gammas + [aParam];
    assert forall j :: 0 <= j < |betas| ==> all[j] == betas[j];
  }

  /** A gamma handle differs from every beta handle and every other gamma
      handle. */
  lemma DistinctAt(betas: seq<Param>, gammas: seq<Param>, aParam: Param, i: nat)
    requires Distinct(betas, gammas, aParam) && i < |gammas|
    ensures forall j :: 0 <= j < |betas| ==> betas[j] != gammas[i]
    ensures forall j :: 0 <= j < |gammas| && j != i ==> gammas[j] != gammas[i]
  {
    var all := betas + gammas + [aParam];
    assert all[|betas| + i] == gammas[i];
    assert forall j :: 0 <= j < |betas| ==> all[j] == betas[j];
    assert forall j :: 0 <= j < |gammas| ==> all[|betas| + j] == gammas[j];
  }

  /** The weight handle differs from every beta and gamma handle. */
  lemma DistinctLast(betas: seq<Param>, gammas: seq<Param>, aParam: Param)
    requires Distinct(betas, gammas, aParam)
    ensures forall j :: 0 <= j < |betas| ==> betas[j] != aParam
    ensures forall j :: 0 <= j < |gammas| ==> gammas[j] != aParam
  {
    var all := betas + gammas + [aParam];
    assert all[|all| - 1] == aParam;
    assert forall j :: 0 <= j < |betas| ==> all[j] == betas[j];
    assert forall j :: 0 <= j < |gammas| ==> all[|betas| + j] == gammas[j];
  }

  /** The two halves of the convention agree: for `p` steps, an angle vector
      inside the optimiser's bounds binds every gamma handle to a value in
      the gamma range and every beta handle to a value in the beta range. */
  lemma BoundsMatchBinding(p: nat, gammaRange: Range, betaRange: Range, angles: seq<real>, i: nat)
    requires WithinBounds(angles, OptimizeAnglesBounds(p, gammaRange, betaRange)) && i < p
    ensures i < |Gammas(angles)| && i < |Betas(angles)|
    ensures gammaRange.0 <= Gammas(angles)[i] <= gammaRange.1
    ensures betaRange.0 <= Betas(angles)[i] <= betaRange.1
  {
    var bounds := OptimizeAnglesBounds(p, gammaRange, betaRange);
    assert bounds[2 * i] == gammaRange && bounds[2 * i + 1] == betaRange;
  }
}
