/** The problem instance: charging time and power demand per electric
    vehicle, and the shared power budget. */
module EVKnapsack {
  import opened Wrappers

  /** The ValueError raised when the two per-EV lists differ in length. */
  datatype ValueError = LengthMismatch

  /** `sum(xs)`: a left fold from 0. */
  function Sum(xs: seq<int>): int
  {
    if xs == [] then 0 else Sum(xs[..|xs| - 1]) + xs[|xs| - 1]
  }

  predicate NonZero(xs: seq<real>)
  {
    forall i :: 0 <= i < |xs| ==> xs[i] != 0.0
  }

  /** `1 / np.array(xs)`, element-wise. */
  function Reciprocals(xs: seq<real>): (r: seq<real>)
    requires NonZero(xs)
    ensures |r| == |xs| && NonZero(r)
  {
    seq(|xs|, i requires 0 <= i < |xs| => 1.0 / xs[i])
  }

  /** Taking reciprocals twice gives the original times back. */
  lemma ReciprocalsRoundTrip(xs: seq<real>)
    requires NonZero(xs)
    ensures Reciprocals(Reciprocals(xs)) == xs
  {
    var r := Reciprocals(xs);
    forall i | 0 <= i < |xs|
      ensures Reciprocals(r)[i] == xs[i]
    {
      assert r[i] * xs[i] == 1.0;
    }
  }

  class EV {
    const timeRequired: seq<real>
    const powerRequired: seq<int>
    const maxPower: int
    const originalTimeRequired: seq<real>
    const totalPower: int
    const numberOfEvs: nat

    /** The state `__post_init__` leaves behind. */
    predicate Valid()
    {
      && |powerRequired| == numberOfEvs
      && |originalTimeRequired| == numberOfEvs
      && NonZero(originalTimeRequired)
      && timeRequired == Reciprocals(originalTimeRequired)
      && totalPower == Sum(powerRequired)
    }

    /** Every charging time given is positive, so every item value is. */
    predicate PositiveTimes()
    {
      forall i :: 0 <= i < |originalTimeRequired| ==> originalTimeRequired[i] > 0.0
    }

    /** No EV draws negative power: the circuit's adders can be built only
        for such instances. */
    predicate NonNegativePowers()
    {
      forall i :: 0 <= i < |powerRequired| ==> powerRequired[i] >= 0
    }

    /** The dataclass `__init__` followed by a `__post_init__` that passes
        the length check. */
    constructor (timeRequired: seq<real>, powerRequired: seq<int>, maxPower: int)
      requires |timeRequired| == |powerRequired|
      requires NonZero(timeRequired)
      ensures Valid()
      ensures this.powerRequired == powerRequired && this.maxPower == maxPower
      ensures originalTimeRequired == timeRequired
      ensures |this.timeRequired| == |timeRequired|
      ensures forall i :: 0 <= i < |timeRequired| ==> this.timeRequired[i] * timeRequired[i] == 1.0
      ensures numberOfEvs == |powerRequired| == |timeRequired|
      ensures totalPower == Sum(powerRequired)
    {
      this.timeRequired := timeRequired;
      this.powerRequired := powerRequired;
      this.maxPower := maxPower;
      this.totalPower := Sum(powerRequired);
      this.numberOfEvs := |powerRequired|;
      this.originalTimeRequired := timeRequired;
      this.timeRequired := Reciprocals(timeRequired);
    }

    /** Constructing an `EV`: raises (here: returns `Failure`) exactly when the
        lists differ in length, and no object is produced then. */
    static method New(timeRequired: seq<real>, powerRequired: seq<int>, maxPower: int)
      returns (r: Result<EV, ValueError>)
      requires NonZero(timeRequired)
      ensures r.Failure? <==> |timeRequired| != |powerRequired|
      ensures r.Failure? ==> r.error == LengthMismatch
      ensures r.Success? ==> fresh(r.value) && r.value.Valid()
      ensures r.Success? ==> r.value.originalTimeRequired == timeRequired
      ensures r.Success? ==> r.value.powerRequired == powerRequired && r.value.maxPower == maxPower
      ensures r.Success? ==> r.value.numberOfEvs == |powerRequired| == |timeRequired|
      ensures r.Success? ==> r.value.totalPower == Sum(powerRequired)
    {
      if |timeRequired| == |powerRequired| {
        var ev := new EV(timeRequired, powerRequired, maxPower);
        r := Success(ev);
      } else {
        r := Failure(LengthMismatch);
      }
    }
  }
}
