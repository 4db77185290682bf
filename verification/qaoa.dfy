/** The QAOA circuit's classical side: its parameter handles, the order of
    its layers, the search domains of the angles, and the width of the power
    register. Angles are in turns (`pi` is half a turn). */
module Qaoa {
  import opened Wrappers
  import opened Seqs
  import opened Numeric
  import opened EVKnapsack
  import opened Scoring
  import opened Angles
  import opened Circuits

  /** `math.log2` of a number that is not positive raises `ValueError`
      (`MathDomainError`); so does building the phase separation circuit
      when an EV draws negative power, because `Add` parses `bin` of a
      negative number (`NegativeAmount`). When the register is narrower
      than `c`, the flag test's `mcx` gets the empty slice
      `power_req_reg[c:]` as its controls, which the circuit library
      rejects (`EmptyControls`). */
  datatype QaoaError = MathDomainError | NegativeAmount | EmptyControls

  /** One block appended to the circuit: the Hadamards on the choice
      register, a phase separation with a gamma handle, or a mixer with a
      beta handle. */
  datatype Layer = InitialHadamards | PhaseSeparation(gamma: Param) | Mixing(beta: Param)

  /** The layers the loop over `zip(gammas, betas)` appends: a phase
      separation, then a mixer, per step. */
  function Layers(gammas: seq<Param>, betas: seq<Param>): seq<Layer>
    requires |gammas| == |betas|
  {
    if gammas == [] then []
    else
      var n := |gammas| - 1;
      Layers(gammas[..n], betas[..n]) + [PhaseSeparation(gammas[n]), Mixing(betas[n])]
  }

  /** The layers alternate: step `i` is the phase separation with
      `gammas[i]` followed by the mixer with `betas[i]`. */
  lemma {:induction false} LayersAlternate(gammas: seq<Param>, betas: seq<Param>)
    requires |gammas| == |betas|
    ensures |Layers(gammas, betas)| == 2 * |gammas|
    ensures forall i :: 0 <= i < |gammas| ==>
      Layers(gammas, betas)[2 * i] == PhaseSeparation(gammas[i]) &&
      Layers(gammas, betas)[2 * i + 1] == Mixing(betas[i])
  {
    if gammas != [] {
      var n := |gammas| - 1;
      LayersAlternate(gammas[..n], betas[..n]);
    }
  }

  /** Power-register width: the bit length `n` of the total power, one more
      when it equals the bit length `c` of the budget. The register holds
      the total power, and its width never equals `c`. */
  function PowerRegisterWidth(totalPower: int, maxPower: int): (w: nat)
    requires totalPower >= 1 && maxPower >= 1
    ensures totalPower < Pow2(w)
    ensures w != BudgetBits(maxPower)
  {
    var n := BitLength(totalPower);
    var c := BudgetBits(maxPower);
    BitLengthBelow(totalPower);
    Pow2Monotone(n, n + 1);
    if c == n then n + 1 else n
  }

  /** The register has bits above `c` whenever the budget does not exceed
      the total power. */
  lemma PowerRegisterWidthBounds(totalPower: int, maxPower: int)
    requires totalPower >= 1 && maxPower >= 1
    ensures maxPower <= totalPower ==> PowerRegisterWidth(totalPower, maxPower) > BudgetBits(maxPower)
  {
    if maxPower <= totalPower {
      BitLengthMonotone(maxPower, totalPower);
    }
  }

  class QAOA {
    const p: nat
    const betas: seq<Param>
    const gammas: seq<Param>
    const a: Param
    const powerRegisterWidth: nat
    const numberOfQubits: nat
    var layers: seq<Layer>

    /** `p` beta handles and `p` gamma handles, numbered from 0, and the
        penalty weight handle. */
    predicate Valid()
    {
      && |betas| == p && |gammas| == p
      && (forall i :: 0 <= i < p ==> betas[i] == Beta(i))
      && (forall i :: 0 <= i < p ==> gammas[i] == Gamma(i))
      && a == PenaltyWeight
    }

    /** `QAOA.__init__` for an instance whose total power and budget are
        positive, whose EVs draw non-negative power and whose register is
        wider than `c`: the parameter
        handles, the register width and qubit count, and the layers in the
        order they are appended. */
    constructor (ev: EV, p: nat)
      requires ev.Valid() && ev.totalPower >= 1 && ev.maxPower >= 1 && ev.NonNegativePowers()
      requires PowerRegisterWidth(ev.totalPower, ev.maxPower) > BudgetBits(ev.maxPower)
      ensures Valid() && this.p == p
      ensures powerRegisterWidth == PowerRegisterWidth(ev.totalPower, ev.maxPower)
      ensures numberOfQubits == powerRegisterWidth + ev.numberOfEvs + 1
      ensures layers == [InitialHadamards] + Layers(gammas, betas)
    {
      this.p := p;
      betas := seq(p, i requires 0 <= i => Beta(i));
      gammas := seq(p, i requires 0 <= i => Gamma(i));
      a := PenaltyWeight;
      var n := BitLength(ev.totalPower);
      var c := BitLength(ev.maxPower);
      if c == n {
        n := n + 1;
      }
      powerRegisterWidth := n;
      numberOfQubits := n + ev.numberOfEvs + 1;
      layers := [];
      new;
      layers := [InitialHadamards];
      var i := 0;
      while i < p
        invariant 0 <= i <= p
        invariant layers == [InitialHadamards] + Layers(gammas[..i], betas[..i])
      {
        assert gammas[..i + 1][..i] == gammas[..i] && betas[..i + 1][..i] == betas[..i];
        layers := layers + [PhaseSeparation(gammas[i]), Mixing(betas[i])];
        i := i + 1;
      }
      assert gammas[..p] == gammas && betas[..p] == betas;
    }

    /** Building a `QAOA` raises when `math.log2` is applied to a total
        power or budget that is not positive, then when the phase separation
        circuit meets an EV of negative power, then when the flag test has
        no control qubits, and succeeds otherwise. */
    static method New(ev: EV, p: nat) returns (r: Result<QAOA, QaoaError>)
      requires ev.Valid()
      ensures r.Failure? <==>
        (ev.totalPower < 1 || ev.maxPower < 1 || !ev.NonNegativePowers()
         || PowerRegisterWidth(ev.totalPower, ev.maxPower) < BudgetBits(ev.maxPower))
      ensures r == Failure(MathDomainError) <==> ev.totalPower < 1 || ev.maxPower < 1
      ensures r == Failure(NegativeAmount) <==> ev.totalPower >= 1 && ev.maxPower >= 1 && !ev.NonNegativePowers()
      ensures r.Success? ==> fresh(r.value) && r.value.Valid() && r.value.p == p
      ensures r.Success? ==> r.value.powerRegisterWidth == PowerRegisterWidth(ev.totalPower, ev.maxPower)
    {
      if ev.totalPower < 1 || ev.maxPower < 1 {
        return Failure(MathDomainError);
      }
      if exists i :: 0 <= i < |ev.powerRequired| && ev.powerRequired[i] < 0 {
        return Failure(NegativeAmount);
      }
      if PowerRegisterWidth(ev.totalPower, ev.maxPower) < BudgetBits(ev.maxPower) {
        return Failure(EmptyControls);
      }
      var circuit := new QAOA(ev, p);
      return Success(circuit);
    }
  }

  /** The handles of a circuit are pairwise distinct, so binding an angle
      vector fills each of them with its own angle. */
  lemma QaoaHandlesDistinct(circuit: QAOA)
    requires circuit.Valid()
    ensures Distinct(circuit.betas, circuit.gammas, circuit.a)
  {
    var all := circuit.betas + circuit.gammas + [circuit.a];
    var p := circuit.p;
    forall i, j | 0 <= i < j < |all|
      ensures all[i] != all[j]
    {
      if j < p {
        assert all[i] == Beta(i) && all[j] == Beta(j);
      } else if j < 2 * p {
        assert all[j] == Gamma(j - p);
        if i >= p {
          assert all[i] == Gamma(i - p);
        }
      }
    }
  }

  /** `beta_range()`: from 0 to `pi`, half a turn. */
  function BetaRange(): Range
  {
    (0.0, 0.5)
  }

  function Abs(x: int): nat
  {
    if x < 0 then -x else x
  }

  /** `Fraction(a).numerator` for `a = num / den`. */
  function Numerator(num: int, den: nat): int
    requires den >= 1
  {
    GcdIsGreatestCommonDivisor(Abs(num), den);
    num / Gcd(Abs(num), den)
  }

  /** `Fraction(a).denominator` for `a = num / den`. */
  function Denominator(num: int, den: nat): (d: nat)
    requires den >= 1
    ensures d >= 1
  {
    GcdIsGreatestCommonDivisor(Abs(num), den);
    den / Gcd(Abs(num), den)
  }

  /** `gamma_range(a)` for `a = num / den`: from 0 to `2 * pi` times the
      lowest-terms denominator of `a`, that many turns. The range is a
      whole number of turns, at least one and at most `den`. */
  function GammaRange(num: int, den: nat): (r: Range)
    requires den >= 1
    ensures r.0 == 0.0 && 1.0 <= r.1 <= den as real
    ensures r.1.Floor as real == r.1
  {
    DenominatorBelow(num, den);
    (0.0, Denominator(num, den) as real)
  }

  lemma DenominatorBelow(num: int, den: nat)
    requires den >= 1
    ensures Denominator(num, den) <= den
  {
    var g := Gcd(Abs(num), den);
    GcdIsGreatestCommonDivisor(Abs(num), den);
    ExactQuotient(den, g);
    MulSign(g, den / g);
  }

  /** The box the optimiser searches, `[gamma_range(a), beta_range()] * p`
      for `a = num / den`: every vector it may propose binds the gammas to at
      most `den` turns and the betas to at most half a turn (`pi`). */
  lemma SearchBounds(p: nat, num: int, den: nat, angles: seq<real>)
    requires den >= 1
    requires WithinBounds(angles, OptimizeAnglesBounds(p, GammaRange(num, den), BetaRange()))
    ensures |Gammas(angles)| == p && |Betas(angles)| == p
    ensures forall i :: 0 <= i < p ==> 0.0 <= Gammas(angles)[i] <= den as real
    ensures forall i :: 0 <= i < p ==> 0.0 <= Betas(angles)[i] <= 0.5
  {
    var bounds := OptimizeAnglesBounds(p, GammaRange(num, den), BetaRange());
    forall i | 0 <= i < p
      ensures 0.0 <= Gammas(angles)[i] <= den as real && 0.0 <= Betas(angles)[i] <= 0.5
    {
      assert bounds[2 * i] == GammaRange(num, den) && bounds[2 * i + 1] == BetaRange();
    }
  }

  /** Numerator and denominator describe the same number as `num / den`,
      and have no common factor. */
  lemma LowestTerms(num: int, den: nat)
    requires den >= 1
    ensures Numerator(num, den) * den == num * Denominator(num, den)
    ensures Gcd(Abs(Numerator(num, den)), Denominator(num, den)) == 1
  {
    var g := Gcd(Abs(num), den);
    GcdIsGreatestCommonDivisor(Abs(num), den);
    var x, d := Abs(num) / g, den / g;
    ExactQuotient(Abs(num), g);
    ExactQuotient(den, g);
    CoprimeQuotients(x, d, g);
    SignedQuotient(num, g, x);
    SameValue(num, den, Numerator(num, den), d, g);
  }

  lemma ExactQuotient(x: nat, g: nat)
    requires Divides(g, x)
    ensures x == (x / g) * g
  {
  }

  /** Dividing out the gcd leaves coprime quotients. */
  lemma CoprimeQuotients(x: nat, d: nat, g: nat)
    requires g > 0 && Gcd(x * g, d * g) == g
    ensures Gcd(x, d) == 1
  {
    GcdScale(x, d, g);
    Cancel(Gcd(x, d), 1, g);
  }

  lemma SignedQuotient(num: int, g: nat, x: nat)
    requires g > 0 && Abs(num) == x * g
    ensures Abs(num / g) == x && num == (num / g) * g
  {
    if num >= 0 {
      DivModUnique(num, g, x, 0);
    } else {
      assert num == -(x as int) * g;
      DivModUnique(num, g, -(x as int), 0);
    }
  }

  lemma SameValue(num: int, den: nat, x: int, d: nat, g: nat)
    requires num == x * g && den == d * g
    ensures x * den == num * d
  {
  }

  lemma Cancel(x: int, y: int, k: int)
    requires k > 0 && x * k == y * k
    ensures x == y
  {
    assert (x - y) * k == 0;
  }

  /** The denominator depends only on the number, not on how it is
      written: two fractions of the same value give the same range. */
  lemma DenominatorUnique(num1: int, den1: nat, num2: int, den2: nat)
    requires den1 >= 1 && den2 >= 1 && num1 * den2 == num2 * den1
    ensures Denominator(num1, den1) == Denominator(num2, den2)
    ensures GammaRange(num1, den1) == GammaRange(num2, den2)
  {
    LowestTerms(num1, den1);
    LowestTerms(num2, den2);
    var x1, y1 := Numerator(num1, den1), Denominator(num1, den1);
    var x2, y2 := Numerator(num2, den2), Denominator(num2, den2);
    CrossProducts(num1, den1, num2, den2, x1, y1, x2, y2);
    CoprimeDivides(x1, y1, x2, y2);
    CoprimeDivides(x2, y2, x1, y1);
    DivisorBelow(y1, y2);
    DivisorBelow(y2, y1);
  }

  /** Two fractions of the same value, each rewritten to another fraction
      of its value, keep equal cross products. */
  lemma CrossProducts(num1: int, den1: nat, num2: int, den2: nat, x1: int, y1: nat, x2: int, y2: nat)
    requires den1 >= 1 && den2 >= 1 && num1 * den2 == num2 * den1
    requires x1 * den1 == num1 * y1 && x2 * den2 == num2 * y2
    ensures x1 * y2 == x2 * y1
  {
    calc {
      (x1 * y2) * (den1 * den2);
      (x1 * den1) * (y2 * den2);
      (num1 * y1) * (y2 * den2);
      (num1 * den2) * (y1 * y2);
      (num2 * den1) * (y1 * y2);
      (num2 * y2) * (den1 * y1);
      (x2 * den2) * (den1 * y1);
      (x2 * y1) * (den1 * den2);
    }
    Cancel(x1 * y2, x2 * y1, den1 * den2);
  }

  /** If `x1 / y1` is in lowest terms and equals `x2 / y2`, then `y1`
      divides `y2`. */
  lemma CoprimeDivides(x1: int, y1: nat, x2: int, y2: nat)
    requires y1 >= 1 && y2 >= 1 && Gcd(Abs(x1), y1) == 1 && x1 * y2 == x2 * y1
    ensures Divides(y1, y2)
  {
    var u, v := Abs(x1) * y2, y1 * y2;
    GcdScale(Abs(x1), y1, y2);
    assert u == Abs(x2) * y1 by {
      AbsProduct(x1, y2);
      AbsProduct(x2, y1);
    }
    ModOfMultiple(Abs(x2), y1);
    ModOfMultiple(y2, y1);
    assert v == y2 * y1;
    DividesGcd(y1, u, v);
  }

  lemma DividesGcd(d: nat, u: nat, v: nat)
    requires v > 0 && Divides(d, u) && Divides(d, v)
    ensures Divides(d, Gcd(u, v))
  {
    GcdIsGreatestCommonDivisor(u, v);
  }

  lemma AbsProduct(x: int, y: nat)
    ensures Abs(x * y) == Abs(x) * y
  {
    if x < 0 {
      assert x * y == -((-x) * y);
    }
  }

  lemma DivisorBelow(d: nat, x: nat)
    requires x >= 1 && Divides(d, x)
    ensures d <= x
  {
    var q := x / d;
    assert x == q * d;
    MulSign(q, d);
  }

  /** For an integer weight the gamma range is one turn, `2 * pi`. */
  lemma GammaRangeOfInteger(num: int)
    ensures GammaRange(num, 1) == (0.0, 1.0)
  {
    GcdIsGreatestCommonDivisor(Abs(num), 1);
    DivisorBelow(Gcd(Abs(num), 1), 1);
  }

  /** A register wide enough never to wrap for any weight up to the total
      power: it holds the total plus the offset, and has a bit above `c`. */
  function SafePowerRegisterWidth(totalPower: int, maxPower: int): nat
    requires totalPower >= 1 && maxPower >= 1
  {
    var needed := BitLength(totalPower + PowerOffset(maxPower));
    var c := BudgetBits(maxPower);
    if needed > c then needed else c + 1
  }

  /** With the safe width the flag test is right for every selection: its
      weight `w` (at most the total power) is reported over budget exactly
      when it exceeds the budget. */
  lemma SafeWidthFlagCorrect(totalPower: int, maxPower: int, w: nat)
    requires totalPower >= 1 && maxPower >= 1 && w <= totalPower
    ensures var n := SafePowerRegisterWidth(totalPower, maxPower);
      !FlagTestFires((w + PowerOffset(maxPower)) % Pow2(n), BudgetBits(maxPower), n) <==> w > maxPower
  {
    var n := SafePowerRegisterWidth(totalPower, maxPower);
    var needed := BitLength(totalPower + PowerOffset(maxPower));
    BitLengthBelow(totalPower + PowerOffset(maxPower));
    Pow2Monotone(needed, n);
    FlagMarksExcess(w, maxPower, n);
  }

  /** The safe width costs at most one qubit more than the width the
      constructor computes, and never less. */
  lemma SafeWidthCost(totalPower: int, maxPower: int)
    requires totalPower >= 1 && 1 <= maxPower <= totalPower
    ensures PowerRegisterWidth(totalPower, maxPower) <= SafePowerRegisterWidth(totalPower, maxPower)
    ensures SafePowerRegisterWidth(totalPower, maxPower) <= PowerRegisterWidth(totalPower, maxPower) + 1
  {
    var len := BitLength(totalPower);
    var c := BudgetBits(maxPower);
    BitLengthMonotone(maxPower, totalPower);
    BitLengthBounds(maxPower);
    OffsetSumWidth(totalPower, PowerOffset(maxPower), c);
  }

  /** Adding an offset below `2^(c-1)` to a total of at least `c` bits adds
      at most one bit. */
  lemma OffsetSumWidth(total: nat, p0: nat, c: nat)
    requires total >= 1 && c >= 1 && c <= BitLength(total) && p0 < Pow2(c - 1)
    ensures BitLength(total) <= BitLength(total + p0) <= BitLength(total) + 1
  {
    var len := BitLength(total);
    BitLengthBounds(total);
    Pow2Monotone(c - 1, len - 1);
    Pow2Monotone(len - 1, len);
    assert Pow2(len + 1) == 2 * Pow2(len);
    BitLengthLeast(total + p0, len + 1);
    BitLengthMonotone(total, total + p0);
  }

  /** End to end with the safe width: on the basis state of a selection
      whose EVs draw non-negative power, the register the adders leave
      behind raises the flag exactly when the selection is infeasible. */
  lemma FlagMarksInfeasible(ev: EV, s: seq<int>)
    requires ev.Valid() && ev.totalPower >= 1 && ev.maxPower >= 1
    requires ev.NonNegativePowers()
    requires |s| == ev.numberOfEvs && IsChoice(s)
    ensures var n := SafePowerRegisterWidth(ev.totalPower, ev.maxPower);
      var register := AmountAdded(TotalPowerSchedule(ev), s) % Pow2(n);
      !FlagTestFires(register, BudgetBits(ev.maxPower), n) <==> !IsChoiceFeasible(s, ev)
  {
    TotalPowerAdded(ev, s);
    SafeWidthFlagCorrect(ev.totalPower, ev.maxPower, PowerRequired(s, ev));
  }

  /** The width as written is too small for some instances. Powers
      `[2, 2, 3]` and budget 2: the total is 7, `c = 2`, the register gets 3
      qubits and the offset is 1. Picking all three EVs weighs 7, over the
      budget, but `7 + 1` wraps to 0 in 3 qubits and the flag test reports
      it within the budget. */
  lemma RegisterWrapsAround(ev: EV)
    requires ev.Valid() && ev.powerRequired == [2, 2, 3] && ev.maxPower == 2
    ensures ev.totalPower == 7 && PowerRegisterWidth(7, 2) == 3
    ensures PowerRequired([1, 1, 1], ev) == 7 && !IsChoiceFeasible([1, 1, 1], ev)
    ensures AmountAdded(TotalPowerSchedule(ev), [1, 1, 1]) == 8
    ensures FlagTestFires(AmountAdded(TotalPowerSchedule(ev), [1, 1, 1]) % Pow2(3), BudgetBits(2), 3)
    ensures SafePowerRegisterWidth(7, 2) == 4
  {
    assert [2, 2, 3][..2][..1][..0] == [] && [2, 2, 3][..2][..1] == [2] && [2, 2, 3][..2] == [2, 2];
    assert Sum([2, 2, 3]) == 7;
    var s := [1, 1, 1];
    assert s[..2][..1][..0] == [] && s[..2][..1] == [1] && s[..2] == [1, 1];
    assert DotInt([1], [2]) == 2;
    assert DotInt([1, 1], [2, 2]) == 4;
    assert DotInt(s, ev.powerRequired) == 7;
    assert BitLength(7) == 3 by {
      assert BitLength(1) == 1;
      assert BitLength(3) == 2;
    }
    assert BitLength(2) == 2 by {
      assert BitLength(1) == 1;
    }
    assert Pow2(2) == 4 && Pow2(3) == 8;
    assert PowerOffset(2) == 1;
    assert BitLength(8) == 4 by {
      assert BitLength(1) == 1 && BitLength(2) == 2 && BitLength(4) == 3;
    }
    assert Bit(0, 2) == 0;
    TotalPowerAdded(ev, s);
  }

  /** Powers `[1]` and budget 2: the register gets one qubit but `c = 2`,
      so the flag test's controls `power_req_reg[2:]` are empty and
      building the circuit fails with `EmptyControls`. */
  lemma NarrowRegister(ev: EV)
    requires ev.Valid() && ev.powerRequired == [1] && ev.maxPower == 2
    ensures ev.totalPower == 1 && ev.NonNegativePowers()
    ensures PowerRegisterWidth(1, 2) == 1 && BudgetBits(2) == 2
  {
    assert [1][..0] == [];
    assert Sum([1]) == 1;
    assert BitLength(1) == 1 && BitLength(2) == 2;
  }

  /** `PhaseOperator` as written, on powers `[2, 1]` and budget 1: the
      register gets 2 qubits and `c = 1`. Picking EV 0 weighs 2 and picking
      both weighs 3, both over the budget; picking EV 1 weighs 1, within
      it. With the register cleaned up before the penalty phases, in the
      first layer both heavy selections get `-2 * a * gamma` and the light
      one none; in the second layer, where the flag enters at 1, the light
      one gets `-2 * a * gamma` and the heavy ones none. With the register
      kept, the first layer gives the heavy ones 0 and `a * gamma`. */
  lemma PenaltyIgnoresExcess(ev: EV)
    requires ev.Valid() && ev.powerRequired == [2, 1] && ev.maxPower == 1
    ensures ev.totalPower == 3 && PowerRegisterWidth(3, 1) == 2 && BudgetBits(1) == 1
    ensures PowerRequired([1, 0], ev) == 2 && PowerRequired([1, 1], ev) == 3 && PowerRequired([0, 1], ev) == 1
    ensures PenaltyOf(ev, [1, 0], 2, true, false) == -2 && PenaltyOf(ev, [1, 1], 2, true, false) == -2
    ensures PenaltyOf(ev, [0, 1], 2, true, false) == 0
    ensures PenaltyOf(ev, [1, 0], 2, true, true) == 0 && PenaltyOf(ev, [1, 1], 2, true, true) == 0
    ensures PenaltyOf(ev, [0, 1], 2, true, true) == -2
    ensures PenaltyOf(ev, [1, 0], 2, false, false) == 0 && PenaltyOf(ev, [1, 1], 2, false, false) == 1
  {
    assert [2, 1][..1][..0] == [] && [2, 1][..1] == [2];
    assert Sum([2, 1]) == 3;
    assert [1, 0][..1][..0] == [] && [1, 0][..1] == [1];
    assert [1, 1][..1][..0] == [] && [1, 1][..1] == [1];
    assert [0, 1][..1][..0] == [] && [0, 1][..1] == [0];
    assert DotInt([1, 0], ev.powerRequired) == 2;
    assert DotInt([1, 1], ev.powerRequired) == 3;
    assert DotInt([0, 1], ev.powerRequired) == 1;
    assert BitLength(1) == 1;
    assert BitLength(3) == 2;
    assert Pow2(1) == 2 && Pow2(2) == 4;
    assert PowerOffset(1) == 0;
    PenaltyAfterCleanUp(ev, [1, 0], 2);
    PenaltyAfterCleanUp(ev, [1, 1], 2);
    PenaltyAfterCleanUp(ev, [0, 1], 2);
    PenaltyWithoutCleanUp(ev, [1, 0], 2);
    PenaltyWithoutCleanUp(ev, [1, 1], 2);
  }
}
