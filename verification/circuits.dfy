/** The arithmetic the circuit builders compute before handing gates to the
    circuit library, with each circuit's gate list kept as data. Angles of
    the adder are in turns (one turn is `2 * pi` radians); the phases of the
    time and penalty circuits are coefficients of the symbolic angles
    `gamma` and `a * gamma`. */
module Circuits {
  import opened Wrappers
  import opened Seqs
  import opened Numeric
  import opened EVKnapsack
  import opened Scoring

  /** A phase gate of `turns` turns on register qubit `qubit`, controlled by
      `control` when there is one. */
  datatype Gate = Phase(turns: real, qubit: nat, control: Option<nat>)

  /** `1 / 2^e` of a turn, i.e. `2 * pi / 2**e` radians. */
  function Turn(e: nat): real
  {
    1.0 / Pow2(e) as real
  }

  /** The gates `_add_power_of_two(k)` emits while it has scanned the first
      `m` register qubits. */
  function PowerOfTwoGates(m: nat, k: nat, control: Option<nat>): seq<Gate>
  {
    if m == 0 then []
    else PowerOfTwoGates(m - 1, k, control) + if m > k then [Phase(Turn(m - k), m - 1, control)] else []
  }

  /** `_add_power_of_two(k)` on `m` qubits: one gate on each qubit at
      position `k` or above and none below, the one at position `k + j`
      turning by `1 / 2^(j + 1)`, each controlled like the adder. */
  lemma {:induction false} PowerOfTwoSchedule(m: nat, k: nat, control: Option<nat>)
    ensures |PowerOfTwoGates(m, k, control)| == if m > k then m - k else 0
    ensures forall j :: 0 <= j < |PowerOfTwoGates(m, k, control)| ==>
      PowerOfTwoGates(m, k, control)[j] == Phase(Turn(j + 1), k + j, control)
  {
    if m > 0 {
      PowerOfTwoSchedule(m - 1, k, control);
    }
  }

  /** The gates `Add.__init__` emits after the first `j` binary digits. */
  function AddGatesUpTo(m: nat, digits: seq<int>, j: nat, control: Option<nat>): seq<Gate>
    requires j <= |digits|
  {
    if j == 0 then []
    else AddGatesUpTo(m, digits, j - 1, control) + DigitGates(m, digits, j - 1, control)
  }

  /** Every gate of the adder acts on a register qubit and carries the
      adder's control. */
  lemma {:induction false} AddGatesOnRegister(m: nat, digits: seq<int>, j: nat, control: Option<nat>)
    requires j <= |digits|
    ensures forall g :: g in AddGatesUpTo(m, digits, j, control) ==> g.qubit < m && g.control == control
  {
    if j > 0 {
      AddGatesOnRegister(m, digits, j - 1, control);
      PowerOfTwoOnRegister(m, j - 1, control);
    }
  }

  lemma {:induction false} PowerOfTwoOnRegister(m: nat, k: nat, control: Option<nat>)
    ensures forall g :: g in PowerOfTwoGates(m, k, control) ==> g.qubit < m && g.control == control
  {
    if m > 0 {
      PowerOfTwoOnRegister(m - 1, k, control);
    }
  }

  /** The gates emitted for binary digit `j`: those of
      `_add_power_of_two(j)` when the digit is set, none otherwise. */
  function DigitGates(m: nat, digits: seq<int>, j: nat, control: Option<nat>): seq<Gate>
    requires j < |digits|
  {
    if digits[j] != 0 then PowerOfTwoGates(m, j, control) else []
  }

  /** All gates of `Add(register, n, control)` on an `m`-qubit register. */
  function AddGates(m: nat, n: nat, control: Option<nat>): seq<Gate>
  {
    AddGatesUpTo(m, BinDigits(n), |BinDigits(n)|, control)
  }

  /** The Fourier-basis adder: a register of `size` qubits, an optional
      control qubit, and the gates emitted so far. */
  class Add {
    const size: nat
    const control: Option<nat>
    var gates: seq<Gate>

    /** `Add.__init__`: one `_add_power_of_two(idx)` for every set binary
        digit of `n`, least significant first. */
    constructor (size: nat, n: nat, control: Option<nat>)
      ensures this.size == size && this.control == control
      ensures gates == AddGates(size, n, control)
    {
      this.size := size;
      this.control := control;
      gates := [];
      new;
      var binary := BinDigits(n);
      var idx := 0;
      while idx < |binary|
        invariant 0 <= idx <= |binary|
        invariant gates == AddGatesUpTo(size, binary, idx, control)
      {
        if binary[idx] != 0 {
          AddPowerOfTwo(idx);
        }
        idx := idx + 1;
      }
    }

    /** `_add_power_of_two(k)`: a phase of `1 / 2^(l - k)` turns on every
        qubit whose position plus one, `l`, exceeds `k`. */
    method AddPowerOfTwo(k: nat)
      modifies this
      ensures gates == old(gates) + PowerOfTwoGates(size, k, control)
    {
      var idx := 0;
      while idx < size
        invariant 0 <= idx <= size
        invariant gates == old(gates) + PowerOfTwoGates(idx, k, control)
      {
        var l := idx + 1;
        if l > k {
          var m := l - k;
          gates := gates + [Phase(Turn(m), idx, control)];
        }
        idx := idx + 1;
      }
    }
  }

  /** The turns the gates put on qubit `q`, summed. */
  function TurnsOn(gates: seq<Gate>, q: nat): real
  {
    if gates == [] then 0.0
    else
      var last := gates[|gates| - 1];
      TurnsOn(gates[..|gates| - 1], q) + if last.qubit == q then last.turns else 0.0
  }

  lemma {:induction false} TurnsOnAppend(a: seq<Gate>, b: seq<Gate>, q: nat)
    ensures TurnsOn(a + b, q) == TurnsOn(a, q) + TurnsOn(b, q)
    decreases |b|
  {
    if b != [] {
      var n := |b| - 1;
      assert a + b == (a + b[..n]) + [b[n]];
      assert b == b[..n] + [b[n]];
      TurnsOnSnoc(a + b[..n], b[n], q);
      TurnsOnSnoc(b[..n], b[n], q);
      TurnsOnAppend(a, b[..n], q);
    } else {
      assert a + b == a;
    }
  }

  /** `_add_power_of_two(k)` turns qubit `q` by `2^k / 2^(q + 1)` when
      `q >= k`, and not at all otherwise. */
  lemma {:induction false} PowerOfTwoTurns(m: nat, k: nat, control: Option<nat>, q: nat)
    requires q < m
    ensures TurnsOn(PowerOfTwoGates(m, k, control), q)
         == if k <= q then Pow2(k) as real / Pow2(q + 1) as real else 0.0
  {
    if q < m - 1 {
      PowerOfTwoBelowTop(m, k, control, q);
      PowerOfTwoTurns(m - 1, k, control, q);
    } else {
      PowerOfTwoTop(m, k, control);
    }
  }

  /** The gate for the last scanned qubit leaves the qubits below it alone. */
  lemma PowerOfTwoBelowTop(m: nat, k: nat, control: Option<nat>, q: nat)
    requires q < m - 1
    ensures TurnsOn(PowerOfTwoGates(m, k, control), q) == TurnsOn(PowerOfTwoGates(m - 1, k, control), q)
  {
    var init := PowerOfTwoGates(m - 1, k, control);
    if m > k {
      var g := Phase(Turn(m - k), m - 1, control);
      assert PowerOfTwoGates(m, k, control) == init + [g];
      TurnsOnSnoc(init, g, q);
    } else {
      assert PowerOfTwoGates(m, k, control) == init;
    }
  }

  /** The last scanned qubit gets `2^k / 2^m` turns when `k < m`, from its
      own gate only. */
  lemma PowerOfTwoTop(m: nat, k: nat, control: Option<nat>)
    requires m >= 1
    ensures TurnsOn(PowerOfTwoGates(m, k, control), m - 1)
         == if k < m then Pow2(k) as real / Pow2(m) as real else 0.0
  {
    var init := PowerOfTwoGates(m - 1, k, control);
    PowerOfTwoAbove(m - 1, k, control, m - 1);
    if m > k {
      var g := Phase(Turn(m - k), m - 1, control);
      assert PowerOfTwoGates(m, k, control) == init + [g];
      TurnsOnSnoc(init, g, m - 1);
      TurnScale(m - k, k);
    } else {
      assert PowerOfTwoGates(m, k, control) == init;
    }
  }

  /** `_add_power_of_two` leaves the qubits beyond those scanned alone. */
  lemma {:induction false} PowerOfTwoAbove(m: nat, k: nat, control: Option<nat>, q: nat)
    requires q >= m
    ensures TurnsOn(PowerOfTwoGates(m, k, control), q) == 0.0
  {
    if m > 0 {
      var init := PowerOfTwoGates(m - 1, k, control);
      PowerOfTwoAbove(m - 1, k, control, q);
      if m > k {
        var g := Phase(Turn(m - k), m - 1, control);
        assert PowerOfTwoGates(m, k, control) == init + [g];
        TurnsOnSnoc(init, g, q);
      } else {
        assert PowerOfTwoGates(m, k, control) == init;
      }
    }
  }

  lemma TurnsOnSnoc(gates: seq<Gate>, g: Gate, q: nat)
    ensures TurnsOn(gates + [g], q) == TurnsOn(gates, q) + if g.qubit == q then g.turns else 0.0
  {
    assert (gates + [g])[..|gates|] == gates;
  }

  /** `1 / 2^e == 2^k / 2^(e + k)`. */
  lemma TurnScale(e: nat, k: nat)
    ensures Turn(e) == Pow2(k) as real / Pow2(e + k) as real
  {
    Pow2Add(e, k);
    FractionScale(Pow2(e) as real, Pow2(k) as real, Pow2(e + k) as real);
  }

  lemma FractionScale(a: real, b: real, ab: real)
    requires a > 0.0 && b > 0.0 && ab == a * b
    ensures 1.0 / a == b / ab
  {
  }

  /** After the first `j` binary digits, qubit `q` has been turned by the
      value of the digits below both `j` and `q + 1`, over `2^(q + 1)`. */
  lemma AddTurnsUpTo(m: nat, n: nat, control: Option<nat>, q: nat, j: nat)
    requires q < m && j <= |BinDigits(n)|
    ensures TurnsOn(AddGatesUpTo(m, BinDigits(n), j, control), q)
         == LowBits(n, Min(j, q + 1)) as real / Pow2(q + 1) as real
  {
    if j <= q + 1 {
      assert Min(j, q + 1) == j;
      AddTurnsLow(m, n, control, q, j);
    } else {
      assert Min(j, q + 1) == q + 1;
      AddTurnsHigh(m, BinDigits(n), control, q, j);
      AddTurnsLow(m, n, control, q, q + 1);
    }
  }

  /** The digits up to qubit `q` each add their share of turns to it. */
  lemma {:induction false} AddTurnsLow(m: nat, n: nat, control: Option<nat>, q: nat, j: nat)
    requires q < m && j <= |BinDigits(n)| && j <= q + 1
    ensures TurnsOn(AddGatesUpTo(m, BinDigits(n), j, control), q) == LowBits(n, j) as real / Pow2(q + 1) as real
  {
    if j > 0 {
      AddTurnsLow(m, n, control, q, j - 1);
      AddTurnsLowStep(m, n, control, q, j);
    }
  }

  lemma AddTurnsLowStep(m: nat, n: nat, control: Option<nat>, q: nat, j: nat)
    requires q < m && 1 <= j <= |BinDigits(n)| && j <= q + 1
    requires TurnsOn(AddGatesUpTo(m, BinDigits(n), j - 1, control), q) == LowBits(n, j - 1) as real / Pow2(q + 1) as real
    ensures TurnsOn(AddGatesUpTo(m, BinDigits(n), j, control), q) == LowBits(n, j) as real / Pow2(q + 1) as real
  {
    var digits := BinDigits(n);
    AddTurnsStep(m, digits, j, control, q);
    DigitTurns(m, n, control, q, j - 1);
    LowBitsAccumulate(n, j, Pow2(q + 1) as real,
      TurnsOn(AddGatesUpTo(m, digits, j - 1, control), q), TurnsOn(DigitGates(m, digits, j - 1, control), q));
  }

  /** The digits above qubit `q` leave it alone. */
  lemma {:induction false} AddTurnsHigh(m: nat, digits: seq<int>, control: Option<nat>, q: nat, j: nat)
    requires q < m && q + 1 <= j <= |digits|
    ensures TurnsOn(AddGatesUpTo(m, digits, j, control), q)
         == TurnsOn(AddGatesUpTo(m, digits, q + 1, control), q)
    decreases j, 1
  {
    if j > q + 1 {
      AddTurnsAbove(m, digits, control, q, j);
    } else {
      SameTurns(m, digits, control, q, j, q + 1);
    }
  }

  lemma {:induction false} AddTurnsAbove(m: nat, digits: seq<int>, control: Option<nat>, q: nat, j: nat)
    requires q < m && q + 1 < j <= |digits|
    ensures TurnsOn(AddGatesUpTo(m, digits, j, control), q)
         == TurnsOn(AddGatesUpTo(m, digits, q + 1, control), q)
    decreases j, 0
  {
    AddTurnsHigh(m, digits, control, q, j - 1);
    AddTurnsHighStep(m, digits, control, q, j);
  }

  lemma SameTurns(m: nat, digits: seq<int>, control: Option<nat>, q: nat, j: nat, k: nat)
    requires j == k <= |digits|
    ensures TurnsOn(AddGatesUpTo(m, digits, j, control), q) == TurnsOn(AddGatesUpTo(m, digits, k, control), q)
  {
  }

  lemma AddTurnsHighStep(m: nat, digits: seq<int>, control: Option<nat>, q: nat, j: nat)
    requires q < m && q + 1 < j <= |digits|
    ensures TurnsOn(AddGatesUpTo(m, digits, j, control), q) == TurnsOn(AddGatesUpTo(m, digits, j - 1, control), q)
  {
    AddTurnsStep(m, digits, j, control, q);
    DigitTurnsAbove(m, digits, control, q, j - 1);
  }

  /** Digit `j - 1`'s gates add their turns to those of the digits before. */
  lemma AddTurnsStep(m: nat, digits: seq<int>, j: nat, control: Option<nat>, q: nat)
    requires 1 <= j <= |digits|
    ensures TurnsOn(AddGatesUpTo(m, digits, j, control), q)
         == TurnsOn(AddGatesUpTo(m, digits, j - 1, control), q) + TurnsOn(DigitGates(m, digits, j - 1, control), q)
  {
    var init := AddGatesUpTo(m, digits, j - 1, control);
    var step := DigitGates(m, digits, j - 1, control);
    assert AddGatesUpTo(m, digits, j, control) == init + step;
    TurnsOnAppend(init, step, q);
  }

  /** Digit `j - 1`'s share, added to the turn of the digits below it, gives
      the turn of the digits below `j`. */
  lemma LowBitsAccumulate(n: nat, j: nat, d: real, a: real, b: real)
    requires j >= 1 && d > 0.0
    requires a == LowBits(n, j - 1) as real / d && b == (Bit(n, j - 1) * Pow2(j - 1)) as real / d
    ensures a + b == LowBits(n, j) as real / d
  {
    var low, term := LowBits(n, j - 1), Bit(n, j - 1) * Pow2(j - 1);
    LowBitsStep(n, j);
    AddFractions(low as real, term as real, d, a, b);
    assert (low + term) as real == low as real + term as real;
  }

  lemma LowBitsStep(v: nat, m: nat)
    requires m >= 1
    ensures LowBits(v, m) == LowBits(v, m - 1) + Bit(v, m - 1) * Pow2(m - 1)
  {
    LowBitsSnoc(v, m);
    BitBinary(v, m - 1);
  }

  /** Binary digit `j` turns qubit `q` by `Bit(n, j) * 2^j / 2^(q + 1)` when
      `j <= q`. */
  lemma DigitTurns(m: nat, n: nat, control: Option<nat>, q: nat, j: nat)
    requires q < m && j < |BinDigits(n)| && j <= q
    ensures TurnsOn(DigitGates(m, BinDigits(n), j, control), q)
         == (Bit(n, j) * Pow2(j)) as real / Pow2(q + 1) as real
  {
    BinDigitsBit(n, j);
    if BinDigits(n)[j] != 0 {
      assert Bit(n, j) * Pow2(j) == Pow2(j);
      PowerOfTwoTurns(m, j, control, q);
    } else {
      assert Bit(n, j) * Pow2(j) == 0;
      assert DigitGates(m, BinDigits(n), j, control) == [];
    }
  }

  /** Binary digits above qubit `q` do not turn it. */
  lemma DigitTurnsAbove(m: nat, digits: seq<int>, control: Option<nat>, q: nat, j: nat)
    requires q < m && j < |digits| && j > q
    ensures TurnsOn(DigitGates(m, digits, j, control), q) == 0.0
  {
    if digits[j] != 0 {
      PowerOfTwoTurns(m, j, control, q);
    } else {
      assert DigitGates(m, digits, j, control) == [];
    }
  }

  /** Two fractions over the same denominator add up numerator-wise. */
  lemma AddFractions(x: real, y: real, d: real, a: real, b: real)
    requires d > 0.0 && a == x / d && b == y / d
    ensures a + b == (x + y) / d
  {
  }

  /** What makes `Add` an adder: on an `m`-qubit register, qubit `q` is
      turned by `(n mod 2^(q + 1)) / 2^(q + 1)`, which adds `n` modulo `2^m`
      to the register in the Fourier basis. */
  lemma AddTurns(m: nat, n: nat, control: Option<nat>, q: nat)
    requires q < m
    ensures TurnsOn(AddGates(m, n, control), q) == (n % Pow2(q + 1)) as real / Pow2(q + 1) as real
  {
    var digits := BinDigits(n);
    var len := |digits|;
    AddTurnsUpTo(m, n, control, q, len);
    if q + 1 <= len {
      LowBitsMod(n, q + 1);
    } else {
      BinDigitsBits(n);
      LowBitsMod(n, len);
      DivModUnique(n, Pow2(len), 0, n);
      Pow2Monotone(len, q + 1);
      DivModUnique(n, Pow2(q + 1), 0, n);
    }
  }

  /** Adding 0 emits no gate. */
  lemma AddZero(m: nat, control: Option<nat>)
    ensures AddGates(m, 0, control) == []
  {
    assert BinDigits(0) == [0];
    assert AddGatesUpTo(m, [0], 1, control) == AddGatesUpTo(m, [0], 0, control);
  }

  /** `c = floor(log2(max_power)) + 1`, the bit length of the budget. */
  function BudgetBits(maxPower: int): nat
    requires maxPower >= 1
  {
    BitLength(maxPower)
  }

  /** `power_0 = 2**c - max_power - 1`: the offset added to the register so
      that its bits from `c` up read "over budget". It lies in
      `[0, 2^(c - 1))`, and a weight `w` plus the offset reaches `2^c`
      exactly when `w` exceeds the budget. */
  function PowerOffset(maxPower: int): (p0: int)
    requires maxPower >= 1
    ensures 0 <= p0 < Pow2(BudgetBits(maxPower) - 1)
    ensures p0 + maxPower + 1 == Pow2(BudgetBits(maxPower))
  {
    var c := BudgetBits(maxPower);
    BitLengthBounds(maxPower);
    assert Pow2(c) == 2 * Pow2(c - 1);
    Pow2(c) - maxPower - 1
  }

  /** A weight plus the offset reaches `2^c` exactly when the weight exceeds
      the budget: the threshold the flag test reads. */
  lemma OffsetThreshold(maxPower: int, w: int)
    requires maxPower >= 1
    ensures w + PowerOffset(maxPower) >= Pow2(BudgetBits(maxPower)) <==> w > maxPower
  {
  }

  /** The multi-controlled X of `TotalPowerComputation`: with the register
      bits from `c` up inverted, it fires exactly when all of them are 0.
      On a register of at most `c` qubits the slice `power_req_reg[c:]` is
      empty and the test fires on every register. */
  predicate FlagTestFires(register: nat, c: nat, n: nat)
  {
    forall k :: c <= k < n ==> Bit(register, k) == 0
  }

  /** On an `n`-qubit register the test fires exactly when the register
      holds less than `2^c`. */
  lemma FlagTestBelow(register: nat, c: nat, n: nat)
    requires register < Pow2(n)
    ensures FlagTestFires(register, c, n) <==> register < Pow2(c)
  {
    if n <= c {
      Pow2Monotone(n, c);
    } else if register < Pow2(c) {
      forall k | c <= k < n
        ensures Bit(register, k) == 0
      {
        Pow2Monotone(c, k);
        BitAboveLength(register, k);
      }
    } else {
      var len := BitLength(register);
      BitLengthBounds(register);
      BitLengthLeast(register, n);
      if len - 1 < c {
        Pow2Monotone(len, c);
      }
      assert c <= len - 1 < n;
      TopBit(register);
    }
  }

  /** The highest bit of a positive number is set. */
  lemma TopBit(x: nat)
    requires x >= 1
    ensures BitLength(x) >= 1 && Bit(x, BitLength(x) - 1) == 1
  {
    BitLengthBounds(x);
    var k := BitLength(x) - 1;
    var h := Pow2(k);
    assert Pow2(k + 1) == 2 * h;
    DivModUnique(x, h, 1, x - h);
    DivModUnique(1, 2, 0, 1);
  }

  /** Wide enough, the register shows "over budget" exactly for weights
      above the budget: the adders leave `(w + power_0) mod 2^n` in it, the
      flag starts at 1, and the test resets it to 0 exactly for weights
      within the budget. */
  lemma FlagMarksExcess(w: nat, maxPower: int, n: nat)
    requires maxPower >= 1
    requires w + PowerOffset(maxPower) < Pow2(n)
    ensures !FlagTestFires((w + PowerOffset(maxPower)) % Pow2(n), BudgetBits(maxPower), n) <==> w > maxPower
  {
    var r := w + PowerOffset(maxPower);
    DivModUnique(r, Pow2(n), 0, r);
    FlagTestBelow(r, BudgetBits(maxPower), n);
  }

  /** A phase on the flag-controlled circuit of `PhaseOperator`, as a
      multiple of `a * gamma`: on a register qubit controlled by the flag, or
      on the flag itself. */
  datatype PenaltyGate = FlagControlled(coefficient: int, qubit: nat) | OnFlag(coefficient: int)

  /** The controlled phases `2**idx * a * gamma` on the first `m` register
      qubits. */
  function RegisterPhases(m: nat): seq<PenaltyGate>
  {
    if m == 0 then [] else RegisterPhases(m - 1) + [FlagControlled(Pow2(m - 1), m - 1)]
  }

  /** The penalty phases of `PhaseOperator` on an `n`-qubit register. */
  function PenaltySchedule(n: nat, c: nat): seq<PenaltyGate>
  {
    RegisterPhases(n) + [OnFlag(-(Pow2(c) as int))]
  }

  /** `PhaseOperator`'s penalty phases: register qubit `idx` gets the
      flag-controlled phase `2**idx * a * gamma`, and then the flag gets
      `-2**c * a * gamma`. */
  lemma {:induction false} PenaltyScheduleAt(n: nat, c: nat)
    ensures |PenaltySchedule(n, c)| == n + 1
    ensures forall idx :: 0 <= idx < n ==> PenaltySchedule(n, c)[idx] == FlagControlled(Pow2(idx), idx)
    ensures PenaltySchedule(n, c)[n] == OnFlag(-(Pow2(c) as int))
  {
    RegisterPhasesAt(n);
  }

  lemma {:induction false} RegisterPhasesAt(m: nat)
    ensures |RegisterPhases(m)| == m
    ensures forall idx :: 0 <= idx < m ==> RegisterPhases(m)[idx] == FlagControlled(Pow2(idx), idx)
  {
    if m > 0 {
      RegisterPhasesAt(m - 1);
    }
  }

  /** The loop of `PhaseOperator` and the flag phase after it. */
  method PenaltyPhases(n: nat, c: nat) returns (gates: seq<PenaltyGate>)
    ensures gates == PenaltySchedule(n, c)
  {
    gates := [];
    var idx := 0;
    while idx < n
      invariant 0 <= idx <= n
      invariant gates == RegisterPhases(idx)
    {
      gates := gates + [FlagControlled(Pow2(idx), idx)];
      idx := idx + 1;
    }
    gates := gates + [OnFlag(-(Pow2(c) as int))];
  }

  /** The phase, as a multiple of `a * gamma`, that the gates give the basis
      state with `register` in the power register and `flag` on the flag. */
  function PenaltyPhaseOf(gates: seq<PenaltyGate>, register: nat, flag: bool): int
  {
    if gates == [] || !flag then 0
    else
      var last := gates[|gates| - 1];
      PenaltyPhaseOf(gates[..|gates| - 1], register, flag) + GatePhase(last, register)
  }

  /** The phase one gate gives a basis state whose flag is set. */
  function GatePhase(g: PenaltyGate, register: nat): int
  {
    match g
    case FlagControlled(coefficient, qubit) => if Bit(register, qubit) == 1 then coefficient else 0
    case OnFlag(coefficient) => coefficient
  }

  lemma PenaltyPhaseSnoc(gates: seq<PenaltyGate>, g: PenaltyGate, register: nat)
    ensures PenaltyPhaseOf(gates + [g], register, true) == PenaltyPhaseOf(gates, register, true) + GatePhase(g, register)
  {
    assert (gates + [g])[..|gates|] == gates;
  }

  lemma {:induction false} RegisterPhasesValue(m: nat, register: nat)
    ensures PenaltyPhaseOf(RegisterPhases(m), register, true) == LowBits(register, m)
  {
    if m > 0 {
      var init := RegisterPhases(m - 1);
      var g := FlagControlled(Pow2(m - 1), m - 1);
      assert RegisterPhases(m) == init + [g];
      PenaltyPhaseSnoc(init, g, register);
      RegisterPhasesValue(m - 1, register);
      LowBitsSnoc(register, m);
    }
  }

  /** With the flag set, the penalty phases add up to the register value
      minus `2^c`; with the flag clear they do nothing. */
  lemma PenaltyPhaseValue(n: nat, c: nat, register: nat, flag: bool)
    requires register < Pow2(n)
    ensures PenaltyPhaseOf(PenaltySchedule(n, c), register, flag) == if flag then register - Pow2(c) else 0
  {
    var gates := PenaltySchedule(n, c);
    if flag {
      PenaltyPhaseSnoc(RegisterPhases(n), OnFlag(-(Pow2(c) as int)), register);
      RegisterPhasesValue(n, register);
      LowBitsMod(register, n);
      DivModUnique(register, Pow2(n), 0, register);
    }
  }

  /** End to end, for a register wide enough not to wrap: a selection of
      weight `w` gets the phase `(w - max_power - 1) * a * gamma` when it
      exceeds the budget and none otherwise. */
  lemma PenaltyForWeight(w: nat, maxPower: int, n: nat)
    requires maxPower >= 1
    requires w + PowerOffset(maxPower) < Pow2(n)
    ensures var register := (w + PowerOffset(maxPower)) % Pow2(n);
      var flag := !FlagTestFires(register, BudgetBits(maxPower), n);
      PenaltyPhaseOf(PenaltySchedule(n, BudgetBits(maxPower)), register, flag)
        == if w > maxPower then w - maxPower - 1 else 0
  {
    var r := w + PowerOffset(maxPower);
    var flag := !FlagTestFires(r % Pow2(n), BudgetBits(maxPower), n);
    FlagMarksExcess(w, maxPower, n);
    assert flag == (w > maxPower);
    ModOfSmaller(r, Pow2(n));
    OffsetRegisterPhase(w, maxPower, n, flag);
  }

  lemma ModOfSmaller(r: int, m: int)
    requires 0 <= r < m
    ensures r % m == r
  {
    DivModUnique(r, m, 0, r);
  }

  /** With the register holding `w + power_0` and the flag raised, the
      penalty phases add up to `w - max_power - 1`. */
  lemma OffsetRegisterPhase(w: int, maxPower: int, n: nat, flag: bool)
    requires maxPower >= 1
    requires 0 <= w + PowerOffset(maxPower) < Pow2(n)
    ensures PenaltyPhaseOf(PenaltySchedule(n, BudgetBits(maxPower)), w + PowerOffset(maxPower), flag)
      == if flag then w - maxPower - 1 else 0
  {
    PenaltyPhaseValue(n, BudgetBits(maxPower), w + PowerOffset(maxPower), flag);
  }

  /** A phase `coefficient * gamma` on choice qubit `qubit`. */
  datatype TimeGate = TimePhase(coefficient: real, qubit: nat)

  /** The gates of `TimeComputation` for the first `m` item values. */
  function TimeSchedule(values: seq<real>): seq<TimeGate>
  {
    if values == [] then []
    else TimeSchedule(values[..|values| - 1]) + [TimePhase(-values[|values| - 1], |values| - 1)]
  }

  /** One gate per EV: choice qubit `i` gets the phase `-gamma * values[i]`. */
  lemma {:induction false} TimeScheduleAt(values: seq<real>)
    ensures |TimeSchedule(values)| == |values|
    ensures forall i :: 0 <= i < |values| ==> TimeSchedule(values)[i] == TimePhase(-values[i], i)
  {
    if values != [] {
      var init := values[..|values| - 1];
      TimeScheduleAt(init);
      assert forall i :: 0 <= i < |init| ==> init[i] == values[i];
    }
  }

  /** `TimeComputation`: a phase `-gamma * time_required[i]` on choice qubit
      `i`, for every EV. */
  method TimeComputation(ev: EV) returns (gates: seq<TimeGate>)
    requires ev.Valid()
    ensures gates == TimeSchedule(ev.timeRequired)
  {
    gates := [];
    var i := 0;
    while i < |ev.timeRequired|
      invariant 0 <= i <= |ev.timeRequired|
      invariant gates == TimeSchedule(ev.timeRequired[..i])
    {
      assert ev.timeRequired[..i + 1][..i] == ev.timeRequired[..i];
      gates := gates + [TimePhase(-ev.timeRequired[i], i)];
      i := i + 1;
    }
    assert ev.timeRequired[..|ev.timeRequired|] == ev.timeRequired;
  }

  /** The phase, as a multiple of `gamma`, that the gates give the basis
      state of the selection `s`. */
  function TimePhaseOf(gates: seq<TimeGate>, s: seq<int>): real
  {
    if gates == [] then 0.0
    else
      var last := gates[|gates| - 1];
      TimePhaseOf(gates[..|gates| - 1], s) +
        if last.qubit < |s| && s[last.qubit] == 1 then last.coefficient else 0.0
  }

  /** The time phases of a selection add up to minus its value. */
  lemma TimePhaseIsValue(s: seq<int>, ev: EV)
    requires ev.Valid() && |s| == ev.numberOfEvs && IsChoice(s)
    ensures TimePhaseOf(TimeSchedule(ev.timeRequired), s) == -Value(s, ev)
  {
    TimePhaseDot(s, ev.timeRequired, |s|);
    assert s[..|s|] == s && ev.timeRequired[..|s|] == ev.timeRequired;
  }

  lemma {:induction false} TimePhaseDot(s: seq<int>, xs: seq<real>, j: nat)
    requires |s| == |xs| && IsChoice(s) && j <= |s|
    ensures TimePhaseOf(TimeSchedule(xs[..j]), s) == -Dot(s[..j], xs[..j])
  {
    if j > 0 {
      TimePhaseDot(s, xs, j - 1);
      TimeScheduleStep(s, xs, j);
      DotStep(s, xs, j);
    }
  }

  /** One more EV adds its phase when it is selected. */
  lemma TimeScheduleStep(s: seq<int>, xs: seq<real>, j: nat)
    requires |s| == |xs| && 0 < j <= |s|
    ensures TimePhaseOf(TimeSchedule(xs[..j]), s)
         == TimePhaseOf(TimeSchedule(xs[..j - 1]), s) + if s[j - 1] == 1 then -xs[j - 1] else 0.0
  {
    var init := TimeSchedule(xs[..j - 1]);
    var g := TimePhase(-xs[j - 1], j - 1);
    assert xs[..j][..j - 1] == xs[..j - 1];
    assert TimeSchedule(xs[..j]) == init + [g];
    TimePhaseSnoc(init, g, s);
  }

  /** One more EV adds its value to the dot product when it is selected. */
  lemma DotStep(s: seq<int>, xs: seq<real>, j: nat)
    requires |s| == |xs| && IsChoice(s) && 0 < j <= |s|
    ensures Dot(s[..j], xs[..j]) == Dot(s[..j - 1], xs[..j - 1]) + if s[j - 1] == 1 then xs[j - 1] else 0.0
  {
    assert s[..j][..j - 1] == s[..j - 1];
    assert xs[..j][..j - 1] == xs[..j - 1];
    SelectedTerm(s[j - 1], xs[j - 1]);
  }

  /** A 0/1 entry times a value is the value or nothing. */
  lemma SelectedTerm(b: int, x: real)
    requires b == 0 || b == 1
    ensures (b as real) * x == if b == 1 then x else 0.0
  {
  }

  lemma TimePhaseSnoc(gates: seq<TimeGate>, g: TimeGate, s: seq<int>)
    ensures TimePhaseOf(gates + [g], s)
         == TimePhaseOf(gates, s) + if g.qubit < |s| && s[g.qubit] == 1 then g.coefficient else 0.0
  {
    assert (gates + [g])[..|gates|] == gates;
  }

  /** One `Add` block of `TotalPowerComputation`: add `amount` to the power
      register, controlled by choice qubit `control` when there is one. */
  datatype Adder = Adder(amount: int, control: Option<nat>)

  /** The controlled adders for the given EV powers: EV `i`'s power,
      controlled by choice qubit `i`. */
  function PowerAdders(powers: seq<int>): seq<Adder>
  {
    if powers == [] then []
    else PowerAdders(powers[..|powers| - 1]) + [Adder(powers[|powers| - 1], Some(|powers| - 1))]
  }

  /** The blocks `TotalPowerComputation` appends: every EV's controlled
      adder, then the uncontrolled adder of the offset `power_0`. */
  function TotalPowerSchedule(ev: EV): seq<Adder>
    requires ev.Valid() && ev.maxPower >= 1
  {
    PowerAdders(ev.powerRequired) + [Adder(PowerOffset(ev.maxPower), None)]
  }

  /** `TotalPowerComputation`'s adder blocks, appended in a loop over the
      EVs. */
  method TotalPowerComputation(ev: EV) returns (adders: seq<Adder>)
    requires ev.Valid() && ev.maxPower >= 1
    ensures adders == TotalPowerSchedule(ev)
  {
    var powers := ev.powerRequired;
    adders := [];
    var i := 0;
    while i < |powers|
      invariant 0 <= i <= |powers|
      invariant adders == PowerAdders(powers[..i])
    {
      assert powers[..i + 1][..i] == powers[..i];
      adders := adders + [Adder(powers[i], Some(i))];
      i := i + 1;
    }
    assert powers[..|powers|] == powers;
    var c := BitLength(ev.maxPower);
    var offset := Pow2(c) - ev.maxPower - 1;
    adders := adders + [Adder(offset, None)];
  }

  /** What the adders add on the basis state of the selection `s`: an adder
      acts when it has no control or its control qubit is 1. */
  function AmountAdded(adders: seq<Adder>, s: seq<int>): int
  {
    if adders == [] then 0
    else
      var last := adders[|adders| - 1];
      AmountAdded(adders[..|adders| - 1], s) + if Acts(last, s) then last.amount else 0
  }

  predicate Acts(adder: Adder, s: seq<int>)
  {
    adder.control.None? || (adder.control.value < |s| && s[adder.control.value] == 1)
  }

  /** On the basis state of a selection, the adders add its power plus the
      offset: the value the flag test then reads from the register. */
  lemma TotalPowerAdded(ev: EV, s: seq<int>)
    requires ev.Valid() && ev.maxPower >= 1 && |s| == ev.numberOfEvs && IsChoice(s)
    ensures AmountAdded(TotalPowerSchedule(ev), s) == PowerRequired(s, ev) + PowerOffset(ev.maxPower)
  {
    ScheduleAdds(s, ev.powerRequired, PowerOffset(ev.maxPower));
  }

  lemma ScheduleAdds(s: seq<int>, powers: seq<int>, offset: int)
    requires |s| == |powers| && IsChoice(s)
    ensures AmountAdded(PowerAdders(powers) + [Adder(offset, None)], s) == DotInt(s, powers) + offset
  {
    PowerAdded(s, powers, |s|);
    assert s[..|s|] == s && powers[..|s|] == powers;
    AmountAddedSnoc(PowerAdders(powers), Adder(offset, None), s);
  }

  lemma {:induction false} PowerAdded(s: seq<int>, powers: seq<int>, j: nat)
    requires |s| == |powers| && IsChoice(s) && j <= |s|
    ensures AmountAdded(PowerAdders(powers[..j]), s) == DotInt(s[..j], powers[..j])
  {
    if j > 0 {
      PowerAdded(s, powers, j - 1);
      var init := PowerAdders(powers[..j - 1]);
      var a := Adder(powers[j - 1], Some(j - 1));
      assert powers[..j][..j - 1] == powers[..j - 1];
      assert PowerAdders(powers[..j]) == init + [a];
      AmountAddedSnoc(init, a, s);
      assert s[..j][..j - 1] == s[..j - 1];
      ChoiceTerm(s[j - 1], powers[j - 1]);
      assert DotInt(s[..j], powers[..j]) == DotInt(s[..j - 1], powers[..j - 1]) + s[j - 1] * powers[j - 1];
    }
  }

  lemma ChoiceTerm(x: int, p: int)
    requires x == 0 || x == 1
    ensures (if x == 1 then p else 0) == x * p
  {
  }

  lemma AmountAddedSnoc(adders: seq<Adder>, a: Adder, s: seq<int>)
    ensures AmountAdded(adders + [a], s) == AmountAdded(adders, s) + if Acts(a, s) then a.amount else 0
  {
    assert (adders + [a])[..|adders|] == adders;
  }

  /** `subcirc.inverse()`: the same blocks in reverse order, each adding the
      negated amount under the same control. */
  function Inverse(adders: seq<Adder>): seq<Adder>
  {
    if adders == [] then []
    else
      var last := adders[|adders| - 1];
      [Adder(-last.amount, last.control)] + Inverse(adders[..|adders| - 1])
  }

  lemma {:induction false} AmountAddedAppend(a: seq<Adder>, b: seq<Adder>, s: seq<int>)
    ensures AmountAdded(a + b, s) == AmountAdded(a, s) + AmountAdded(b, s)
  {
    if b != [] {
      var n := |b| - 1;
      AmountAddedAppend(a, b[..n], s);
      assert a + b == (a + b[..n]) + [b[n]];
      assert b == b[..n] + [b[n]];
      AmountAddedSnoc(a + b[..n], b[n], s);
      AmountAddedSnoc(b[..n], b[n], s);
    } else {
      assert a + b == a;
    }
  }

  /** The inverse takes away, on every basis state, what the blocks add. */
  lemma {:induction false} InverseSubtracts(adders: seq<Adder>, s: seq<int>)
    ensures AmountAdded(Inverse(adders), s) == -AmountAdded(adders, s)
  {
    if adders != [] {
      var n := |adders| - 1;
      var undo := Adder(-adders[n].amount, adders[n].control);
      InverseSubtracts(adders[..n], s);
      AmountAddedAppend([undo], Inverse(adders[..n]), s);
      AmountAddedSnoc([], undo, s);
      assert [] + [undo] == [undo];
      AmountAddedSnoc(adders[..n], adders[n], s);
      assert adders[..n] + [adders[n]] == adders;
    }
  }

  /** The blocks `TotalPowerComputation(..., clean_up)` applies to the power
      register: the adders, and with `clean_up` their inverse after the flag
      test. */
  function PowerBlocks(ev: EV, cleanUp: bool): seq<Adder>
    requires ev.Valid() && ev.maxPower >= 1
  {
    TotalPowerSchedule(ev) + if cleanUp then Inverse(TotalPowerSchedule(ev)) else []
  }

  /** The flag test of `TotalPowerComputation` fires on the register the
      adders leave. */
  predicate TestFires(ev: EV, s: seq<int>, n: nat)
    requires ev.Valid() && ev.maxPower >= 1
  {
    FlagTestFires(AmountAdded(TotalPowerSchedule(ev), s) % Pow2(n), BudgetBits(ev.maxPower), n)
  }

  /** The flag when the penalty phases run, for a flag that enters
      `PhaseOperator` as `flagIn`: `x(flag_reg)` inverts it, and the test of
      `TotalPowerComputation` inverts it back when it fires. */
  predicate FlagRaised(ev: EV, s: seq<int>, n: nat, flagIn: bool)
    requires ev.Valid() && ev.maxPower >= 1
  {
    if TestFires(ev, s, n) then flagIn else !flagIn
  }

  /** A 0/1 selection whose weight plus the offset `power_0` fits an
      `n`-qubit register without wrapping. */
  predicate FitsRegister(ev: EV, s: seq<int>, n: nat)
  {
    && ev.Valid() && ev.maxPower >= 1 && |s| == ev.numberOfEvs && IsChoice(s)
    && 0 <= PowerRequired(s, ev) && PowerRequired(s, ev) + PowerOffset(ev.maxPower) < Pow2(n)
  }

  /** Wide enough, a flag entering at 0 is raised exactly for a selection
      over the budget, and one entering at 1 exactly for a selection within
      it. */
  lemma FlagRaisedExactly(ev: EV, s: seq<int>, n: nat)
    requires FitsRegister(ev, s, n)
    ensures FlagRaised(ev, s, n, false) <==> !IsChoiceFeasible(s, ev)
    ensures FlagRaised(ev, s, n, true) <==> IsChoiceFeasible(s, ev)
  {
    TotalPowerAdded(ev, s);
    FlagMarksExcess(PowerRequired(s, ev), ev.maxPower, n);
  }

  /** The value of the `n`-qubit power register when the penalty phases of
      `PhaseOperator` run, for a `TotalPowerComputation` built with or
      without `clean_up`. */
  function PenaltyRegister(ev: EV, s: seq<int>, n: nat, cleanUp: bool): nat
    requires ev.Valid() && ev.maxPower >= 1
  {
    AmountAdded(PowerBlocks(ev, cleanUp), s) % Pow2(n)
  }

  /** The penalty phase, as a multiple of `a * gamma`, that `PhaseOperator`
      gives the basis state of selection `s` when the flag enters as
      `flagIn`. */
  function PenaltyOf(ev: EV, s: seq<int>, n: nat, cleanUp: bool, flagIn: bool): int
    requires ev.Valid() && ev.maxPower >= 1
  {
    PenaltyPhaseOf(PenaltySchedule(n, BudgetBits(ev.maxPower)), PenaltyRegister(ev, s, n, cleanUp), FlagRaised(ev, s, n, flagIn))
  }

  /** `PhaseOperator` as written builds `TotalPowerComputation` with
      `clean_up=True`, so the register is back to 0 when the penalty phases
      run. With the flag entering at 0, every selection over the budget
      gets the same phase `-2^c * a * gamma`, whatever its weight, and the
      others none; with the flag entering at 1 it is the other way round. */
  lemma PenaltyAfterCleanUp(ev: EV, s: seq<int>, n: nat)
    requires FitsRegister(ev, s, n)
    ensures PenaltyRegister(ev, s, n, true) == 0
    ensures PenaltyOf(ev, s, n, true, false) == if IsChoiceFeasible(s, ev) then 0 else -(Pow2(BudgetBits(ev.maxPower)) as int)
    ensures PenaltyOf(ev, s, n, true, true) == if IsChoiceFeasible(s, ev) then -(Pow2(BudgetBits(ev.maxPower)) as int) else 0
  {
    var blocks := TotalPowerSchedule(ev);
    AmountAddedAppend(blocks, Inverse(blocks), s);
    InverseSubtracts(blocks, s);
    assert AmountAdded(PowerBlocks(ev, true), s) == 0;
    DivModUnique(0, Pow2(n), 0, 0);
    FlagRaisedExactly(ev, s, n);
    PenaltyPhaseValue(n, BudgetBits(ev.maxPower), 0, FlagRaised(ev, s, n, false));
    PenaltyPhaseValue(n, BudgetBits(ev.maxPower), 0, FlagRaised(ev, s, n, true));
  }

  /** Without the clean-up the register still holds the weight plus the
      offset when the penalty phases run. With the flag entering at 0, a
      selection over the budget gets a phase that grows with its excess,
      `(w - max_power - 1) * a * gamma`, and the others none; with the flag
      entering at 1, the selections within the budget get that phase
      instead. */
  lemma PenaltyWithoutCleanUp(ev: EV, s: seq<int>, n: nat)
    requires FitsRegister(ev, s, n)
    ensures PenaltyRegister(ev, s, n, false) == PowerRequired(s, ev) + PowerOffset(ev.maxPower)
    ensures PenaltyOf(ev, s, n, false, false) == if IsChoiceFeasible(s, ev) then 0 else PowerRequired(s, ev) - ev.maxPower - 1
    ensures PenaltyOf(ev, s, n, false, true) == if IsChoiceFeasible(s, ev) then PowerRequired(s, ev) - ev.maxPower - 1 else 0
  {
    KeptRegister(ev, s, n);
    KeptPenalty(ev, s, n, false);
    KeptPenalty(ev, s, n, true);
    FlagRaisedExactly(ev, s, n);
  }

  lemma KeptRegister(ev: EV, s: seq<int>, n: nat)
    requires FitsRegister(ev, s, n)
    ensures PenaltyRegister(ev, s, n, false) == PowerRequired(s, ev) + PowerOffset(ev.maxPower)
  {
    var r := PowerRequired(s, ev) + PowerOffset(ev.maxPower);
    assert PowerBlocks(ev, false) == TotalPowerSchedule(ev);
    TotalPowerAdded(ev, s);
    DivModUnique(r, Pow2(n), 0, r);
  }

  /** With the register kept, a raised flag gives the weight's excess
      beyond the budget, less one. */
  lemma KeptPenalty(ev: EV, s: seq<int>, n: nat, flagIn: bool)
    requires FitsRegister(ev, s, n)
    ensures PenaltyOf(ev, s, n, false, flagIn) == if FlagRaised(ev, s, n, flagIn) then PowerRequired(s, ev) - ev.maxPower - 1 else 0
  {
    KeptRegister(ev, s, n);
    OffsetRegisterPhase(PowerRequired(s, ev), ev.maxPower, n, FlagRaised(ev, s, n, flagIn));
  }

  /** The register the second flag test reads, in the outer `inverse()` of
      `PhaseOperator` (circuits.py:87-88): inverting `TotalPowerComputation`
      first undoes its clean-up, if any, by the inverse of the inverse
      blocks. */
  function UndoRegister(ev: EV, s: seq<int>, n: nat, cleanUp: bool): nat
    requires ev.Valid() && ev.maxPower >= 1
  {
    var redo := if cleanUp then Inverse(Inverse(TotalPowerSchedule(ev))) else [];
    AmountAdded(PowerBlocks(ev, cleanUp) + redo, s) % Pow2(n)
  }

  /** Either way the second test reads the same register as the first. */
  lemma UndoRegisterSame(ev: EV, s: seq<int>, n: nat, cleanUp: bool)
    requires ev.Valid() && ev.maxPower >= 1
    ensures UndoRegister(ev, s, n, cleanUp) == AmountAdded(TotalPowerSchedule(ev), s) % Pow2(n)
  {
    var blocks := TotalPowerSchedule(ev);
    if cleanUp {
      AmountAddedAppend(blocks, Inverse(blocks), s);
      AmountAddedAppend(PowerBlocks(ev, true), Inverse(Inverse(blocks)), s);
      InverseSubtracts(blocks, s);
      InverseSubtracts(Inverse(blocks), s);
    } else {
      assert PowerBlocks(ev, false) + [] == blocks;
    }
  }

  /** The flag a `PhaseOperator` hands on: after the penalty phases, the
      outer `inverse()` repeats the flag test, which inverts the flag when
      it fires; `resetFlag` adds an `x(flag_reg)` after it. */
  predicate FlagAfterPhaseOperator(ev: EV, s: seq<int>, n: nat, cleanUp: bool, flagIn: bool, resetFlag: bool)
    requires ev.Valid() && ev.maxPower >= 1
  {
    var fires := FlagTestFires(UndoRegister(ev, s, n, cleanUp), BudgetBits(ev.maxPower), n);
    var flag := if fires then !FlagRaised(ev, s, n, flagIn) else FlagRaised(ev, s, n, flagIn);
    if resetFlag then !flag else flag
  }

  /** The two flag tests cancel, so only `x(flag_reg)` remains: one
      `PhaseOperator` as written hands on the flag inverted, for every
      selection, and with the extra reset it hands it on unchanged. */
  lemma PhaseOperatorInvertsFlag(ev: EV, s: seq<int>, n: nat, cleanUp: bool, flagIn: bool)
    requires ev.Valid() && ev.maxPower >= 1
    ensures FlagAfterPhaseOperator(ev, s, n, cleanUp, flagIn, false) == !flagIn
    ensures FlagAfterPhaseOperator(ev, s, n, cleanUp, flagIn, true) == flagIn
  {
    UndoRegisterSame(ev, s, n, cleanUp);
  }

  /** The flag entering the phase separation of the layer after the ones
      whose selections are `earlier`: it starts at 0, and only the
      `PhaseOperator`s touch it (the mixers act on the choice register). */
  predicate FlagEntering(ev: EV, earlier: seq<seq<int>>, n: nat, cleanUp: bool, resetFlag: bool)
    requires ev.Valid() && ev.maxPower >= 1
  {
    if earlier == [] then false
    else
      var k := |earlier| - 1;
      FlagAfterPhaseOperator(ev, earlier[k], n, cleanUp, FlagEntering(ev, earlier[..k], n, cleanUp, resetFlag), resetFlag)
  }

  /** One more layer inverts the flag as written, and keeps it with the
      extra reset. */
  lemma FlagEnteringStep(ev: EV, earlier: seq<seq<int>>, n: nat, cleanUp: bool, resetFlag: bool)
    requires ev.Valid() && ev.maxPower >= 1 && earlier != []
    ensures FlagEntering(ev, earlier, n, cleanUp, resetFlag)
      == (FlagEntering(ev, earlier[..|earlier| - 1], n, cleanUp, resetFlag) == resetFlag)
  {
    var k := |earlier| - 1;
    PhaseOperatorInvertsFlag(ev, earlier[k], n, cleanUp, FlagEntering(ev, earlier[..k], n, cleanUp, resetFlag));
  }

  /** As written, the flag enters the first, third, ... phase separation at
      0 and the second, fourth, ... at 1, whatever was selected. */
  lemma {:induction false} FlagEnteringParity(ev: EV, earlier: seq<seq<int>>, n: nat, cleanUp: bool)
    requires ev.Valid() && ev.maxPower >= 1
    ensures FlagEntering(ev, earlier, n, cleanUp, false) <==> |earlier| % 2 == 1
  {
    if earlier != [] {
      var k := |earlier| - 1;
      FlagEnteringParity(ev, earlier[..k], n, cleanUp);
      FlagEnteringStep(ev, earlier, n, cleanUp, false);
      assert |earlier[..k]| == k && (|earlier| % 2 == 1 <==> k % 2 == 0);
    }
  }

  /** With the extra reset the flag enters every phase separation at 0. */
  lemma {:induction false} FlagEnteringReset(ev: EV, earlier: seq<seq<int>>, n: nat, cleanUp: bool)
    requires ev.Valid() && ev.maxPower >= 1
    ensures !FlagEntering(ev, earlier, n, cleanUp, true)
  {
    if earlier != [] {
      FlagEnteringReset(ev, earlier[..|earlier| - 1], n, cleanUp);
      FlagEnteringStep(ev, earlier, n, cleanUp, true);
    }
  }

  /** The circuit as written, layer by layer: in the first, third, ...
      phase separation every selection over the budget gets `-2^c * a *
      gamma`, and in the second, fourth, ... every selection within it. */
  lemma PenaltyInLayer(ev: EV, earlier: seq<seq<int>>, s: seq<int>, n: nat)
    requires FitsRegister(ev, s, n)
    ensures |earlier| % 2 == 0 ==>
      (PenaltyOf(ev, s, n, true, FlagEntering(ev, earlier, n, true, false))
       == if IsChoiceFeasible(s, ev) then 0 else -(Pow2(BudgetBits(ev.maxPower)) as int))
    ensures |earlier| % 2 == 1 ==>
      (PenaltyOf(ev, s, n, true, FlagEntering(ev, earlier, n, true, false))
       == if IsChoiceFeasible(s, ev) then -(Pow2(BudgetBits(ev.maxPower)) as int) else 0)
  {
    FlagEnteringParity(ev, earlier, n, true);
    PenaltyAfterCleanUp(ev, s, n);
  }

  /** The evidently intended circuit, without the clean-up and with the
      flag reset after each `PhaseOperator`: in every phase separation a
      selection over the budget gets `(w - max_power - 1) * a * gamma` and
      the others none. */
  lemma PenaltyInEveryLayer(ev: EV, earlier: seq<seq<int>>, s: seq<int>, n: nat)
    requires FitsRegister(ev, s, n)
    ensures PenaltyOf(ev, s, n, false, FlagEntering(ev, earlier, n, false, true))
      == if IsChoiceFeasible(s, ev) then 0 else PowerRequired(s, ev) - ev.maxPower - 1
  {
    FlagEnteringReset(ev, earlier, n, false);
    PenaltyWithoutCleanUp(ev, s, n);
  }

  /** No Fourier transform is applied to the power register, which starts
      in the basis state 0; phase gates leave a basis state's value as it
      is, so the flag test reads 0 and always fires, the flag keeps the
      value it entered with, and the penalty phases give every selection
      the same phase: none with the flag at 0, `-2^c * a * gamma` with it at
      1, a global phase either way. */
  lemma PenaltyWithoutFourierBasis(n: nat, c: nat)
    ensures FlagTestFires(0, c, n)
    ensures PenaltyPhaseOf(PenaltySchedule(n, c), 0, false) == 0
    ensures PenaltyPhaseOf(PenaltySchedule(n, c), 0, true) == -(Pow2(c) as int)
  {
    forall k | c <= k < n
      ensures Bit(0, k) == 0
    {
      BitAboveLength(0, k);
    }
    PenaltyPhaseValue(n, c, 0, true);
  }
}
