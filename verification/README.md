# QAOA knapsack for EV charging — a Dafny model of its classical core

The repository schedules electric-vehicle charging as a 0/1 knapsack problem.
Each EV has a charging time and a power draw, and the selection must stay within a power budget.
It solves the problem with the Quantum Approximate Optimization Algorithm (QAOA), using a linear soft penalty for exceeding the budget.
This project models everything around the quantum simulation that is plain computation:

- **`EV` instance** (`ev_knapsack.dfy`). A class whose constructor does what `__post_init__` does. It rejects lists of different lengths (`EV.New` returns a `Result`). It derives the EV count, the total power and the copy of the input times. It replaces the times by their reciprocals, so every "time" score in the code is a sum of reciprocals.
- **Scoring** (`scoring.dfy`). Several pieces:
  - Decoding a measured bitstring into a selection: reverse it, then keep the first `number_of_evs` digits.
  - The penalised objective and the feasibility-gated "comparable" objective.
  - `value`, `power_required`, `time_required` and `is_choice_feasible`.
- **Expectation** (`expectation.dfy`). `average_value` over a probability dict. A dict is modelled as its items in insertion order.
- **Exact solver** (`solver.dfy`). `best_known_solutions` is a method whose loop is proved against specification functions. It enumerates `2^N` candidates, keeps every tie, and lists the optima in ascending order of their integer encoding.
- **Shot aggregation and approximation ratios** (`shots.dfy`, `ratio.dfy`).
  - The counts-to-distribution step of the real-device ratio: divide by 2048, and sum counts sharing a prefix.
  - The ratio step of both ratio functions, with its two failure modes: no optimum, and a zero best value (the division by zero).
- **Angle convention** (`angles.dfy`). The optimiser's bounds are `[gamma_range, beta_range] * p`. `to_parameter_dict` splits the angle vector into even (gamma) and odd (beta) positions.
- **Circuit arithmetic** (`circuits.dfy`). Gate lists are data, not quantum operations.
  - The Fourier adder `Add` and its per-qubit phases.
  - The budget offset `power_0` and the flag test of `TotalPowerComputation`.
  - The adder blocks `TotalPowerComputation` appends.
  - The phases of `TimeComputation` and of the penalty part of `PhaseOperator`.
- **QAOA circuit** (`qaoa.dfy`). Several pieces:
  - The parameter handles `beta{i}`, `gamma{i}` and `a`.
  - The power-register width and the qubit count.
  - The order of the appended layers.
  - `beta_range` (0 to π) and `gamma_range` (0 to 2π times the lowest-terms denominator of `a`).
- **Histogram label** (`plots.py`'s `key_to_label`, in `plots.dfy`).

Conventions:
- Angles of the adder and of the search ranges are in turns (one turn is 2π radians, so π is `0.5`).
- The phases of the time and penalty circuits are coefficients of the symbolic `gamma` and `a * gamma`.
- Integers are unbounded. `floor(log2(x)) + 1` for `x >= 1` is the bit length `Numeric.BitLength`.
- Reals are exact.

On the penalty phase: `PhaseOperator` builds `TotalPowerComputation` with `clean_up=True` (circuits.py:81). That circuit undoes its adders after the flag test (circuits.py:52-53), so the power register is back at 0 when the penalty phases run (circuits.py:84-86). Every infeasible selection then gets the same phase `-2^c * a * gamma`, whatever its excess weight (`Circuits.PenaltyAfterCleanUp`, `Qaoa.PenaltyIgnoresExcess`). The evidently intended circuit keeps `w + power_0` in the register during the phases. It gives a selection of weight `w > max_power` the phase `a * gamma * (w - max_power - 1)` (`Circuits.PenaltyWithoutCleanUp`, `Circuits.PenaltyForWeight`). Both are listed under Findings. The flag is set by an `x` at circuits.py:76 that nothing undoes, and the outer `inverse()` (circuits.py:87-88) repeats the flag test on the same register value, so one `PhaseOperator` hands the flag on inverted (`Circuits.PhaseOperatorInvertsFlag`). The same operator is appended once per layer (qaoa.py:56-63), so the flag enters every second layer raised (`Circuits.FlagEnteringParity`). In those layers the penalty lands on the feasible selections instead (`Circuits.PenaltyInLayer`). Resetting the flag after each operator keeps it lowered on entry (`Circuits.FlagEnteringReset`), and with the register kept as well every layer applies the intended penalty (`Circuits.PenaltyInEveryLayer`). `objective_function`, which the optimiser scores samples with, subtracts `a * (w - max_power)`.

The register values above are those of the Fourier-basis adder design: an adder adds its amount to the register's value when the register is in the Fourier basis. The code applies no quantum Fourier transform to the power register. Read in the computational basis, the register stays 0 and the flag test reports every selection within budget. The penalty phase is then the same for every selection: 0 in layers the flag enters lowered, `-2^c * a * gamma` (a global phase) in the others (`Circuits.PenaltyWithoutFourierBasis`). This is also under Findings.

Aggregated to two EVs, `key[:2]` sends `"000"` and `"100"` to different prefixes, `"00"` and `"10"`, with half the mass each (`ShotAggregation.TwoKeyExample`).

## Model

| member | source | states |
|---|---|---|
| EVKnapsack.EV.constructor | EV_knapsack.py:12-17 | `number_of_evs` is the length of both lists. `total_power` is their sum. `original_time_required` is the list given. `time_required[i] * given[i] == 1` at every index. Power and budget are left as given. |
| EVKnapsack.EV.New | EV_knapsack.py:12-19 | Fails with `LengthMismatch` exactly when the two lists differ in length. Otherwise it returns a fresh valid instance with the derived fields. |
| EVKnapsack.Reciprocals | EV_knapsack.py:17 | The element-wise reciprocal keeps the length and has no zero entry. |
| EVKnapsack.ReciprocalsRoundTrip | EV_knapsack.py:17 | Taking reciprocals twice gives the times back, so the stored values determine the given times. |
| Scoring.BitstringToSelectionChoices | utils.py:34-37 | The selection has `min(len(b), number_of_evs)` entries, each 0 or 1. Entry `i` is the digit at position `len(b) - 1 - i`. |
| Scoring.SelectionIgnoresAncillas | utils.py:34-37 | Two bitstrings that agree on their last `number_of_evs` characters decode to the same selection. |
| Scoring.ObjectiveFunction | utils.py:40-49 | Feasible (boundary included): the time sum. Otherwise: time sum minus `a * (power - max_power)`. For `a > 0` the score equals the time sum exactly when the selection is feasible, and is strictly below it otherwise. |
| Scoring.ComparableObjectiveFunction | utils.py:130-135 | The selection's value when it is feasible, 0 otherwise. It has no `a` argument. |
| Scoring.Value | utils.py:147-149 | The empty selection has value 0. With positive times, a 0/1 selection's value is never negative. |
| Scoring.TimeRequired | utils.py:156-157 | `time_required` is the same dot product as `value`, so the two agree on every selection. |
| Scoring.PowerRequired | utils.py:152-153 | The empty selection draws 0. With non-negative powers, a 0/1 selection draws between 0 and the total power. |
| Scoring.IsChoiceFeasible | utils.py:160-161 | The empty selection is feasible under a non-negative budget. When the total power fits the budget, every 0/1 selection is feasible. |
| Scoring.ComparableNonNegative | utils.py:130-135 | With positive times, the comparable score is never negative. |
| Expectation.AverageValueSnoc | utils.py:107-111 | An extra dict entry adds its score times its probability. |
| Expectation.AverageValuePermutation | utils.py:107-111 | Two dicts with the same entries in any order have the same expectation. |
| Expectation.AverageValueBounds | utils.py:107-111 | With non-negative probabilities and scores in `[lo, hi]`, the expectation lies in `[lo * mass, hi * mass]`. |
| Expectation.AverageValuePoint | utils.py:107-111 | The empty dict gives 0. One key with probability 1 gives that key's score. |
| ExactSolver.ChoiceBits | utils.py:165-166 | `choices_from_number(i)` for `i < 2^N` has `N` entries, and entry `k` is bit `k` of `i` (least significant first, zero padded). |
| ExactSolver.EncodeChoicesFromNumber | utils.py:165-166 | Reading the choice back as a binary number gives `i`. |
| ExactSolver.ChoicesFromNumberOfEncode | utils.py:165-166 | Every 0/1 vector is the choice of its own binary encoding. |
| ExactSolver.BestUpToBounds | utils.py:167-176 | After `k` candidates the running `best` is at least 0 and at least every feasible value seen. It is 0 or the value of some feasible candidate seen. |
| ExactSolver.TiesSound | utils.py:167-178 | Every kept choice is a scanned candidate that is feasible and has the given value. The kept choices are in strictly ascending encoding order. |
| ExactSolver.TiesComplete | utils.py:167-178 | Every scanned feasible candidate with the given value is kept. |
| ExactSolver.BestKnownSolutions | utils.py:164-179 | The loop returns exactly `OptimalChoices(ev)`. |
| ExactSolver.OptimalChoicesSound | utils.py:164-179 | Each returned choice has `N` entries in {0,1}, is feasible, and has the best value. |
| ExactSolver.OptimalChoicesComplete | utils.py:164-179 | No feasible choice beats the best value, and every feasible choice that reaches it is returned. |
| ExactSolver.OptimalChoicesAscending | utils.py:169-178 | The optima appear in strictly ascending order of their integer encoding. Each is the zero-padded LSB-first vector of its encoding. |
| ExactSolver.OptimalChoicesNonEmpty | utils.py:164-179 | With a non-negative budget the result is non-empty (the all-zero choice is feasible). |
| ExactSolver.ZeroChoice | utils.py:169-173 | Candidate 0 is the all-zero choice, with power 0 and value 0. |
| ExactSolver.TwoEvChoices | utils.py:165-166 | For two EVs the candidates are `[0,0]`, `[1,0]`, `[0,1]`, `[1,1]` in that order. |
| ExactSolver.FirstInstanceOptimum | utils.py:164-179 | Times `[1, 2]`, powers `[1, 1]`, budget 1: the best value is 1 and the only optimum is `[1, 0]`, because the values are reciprocal times. |
| ExactSolver.TiedInstanceOptimum | utils.py:174-178 | Times `[1, 1]`, powers `[1, 1]`, budget 1: both single selections tie and are kept, as `[[1, 0], [0, 1]]`. |
| ShotAggregation.Keep | utils.py:189 | The kept part has `min(n, len(key))` characters. It is the leftmost ones under the code's rule and the rightmost ones under the corrected rule. |
| ShotAggregation.Aggregated | utils.py:187-192 | The aggregate has no more entries than the counts, and every key has at most `n` characters. |
| ShotAggregation.AddShare | utils.py:190-192 | Adding a share under a prefix: a new prefix is appended with the share, an existing one gets the share added (`Accumulate`). |
| ShotAggregation.AggregateShots | utils.py:187-192 | The dict-filling loop builds `Aggregated(counts, n, Leftmost)`. |
| ShotAggregation.AggregatedCorrect | utils.py:187-192 | The result has distinct keys. A key is present exactly when some count key keeps to it. Its probability is the sum of those counts divided by 2048. The total mass is the total count divided by 2048. |
| ShotAggregation.MergedExpectation | utils.py:187-195 | When the score depends only on the kept part of a key, merging entries does not change the expectation. |
| ShotAggregation.MergedNonNegative | utils.py:187-192 | Merging keeps probabilities non-negative. |
| ShotAggregation.TwoKeyExample | utils.py:187-192 | `{"000": 1024, "100": 1024}` aggregated to two EVs is `{"00": 0.5, "10": 0.5}`. |
| Ratio.ComparableOf | utils.py:142 | The score function handed to `average_value` is defined on every well-formed bitstring and equals the comparable objective there. |
| Ratio.RatioStep | utils.py:123-126 | No optimum gives `EmptySolutions`. A zero best value gives `ZeroBestValue`. Otherwise the ratio times the best value is the expectation. |
| Ratio.DistributionRatio | utils.py:120-127 | Fails with `EmptySolutions` exactly when the search finds nothing, and with `ZeroBestValue` exactly when the best value is 0. Otherwise the ratio is the comparable expectation divided by the best value. |
| Ratio.ApproximationRatio | utils.py:120-127 | The ratio step applied to `best_known_solutions`' result. |
| Ratio.ComparableBelowBest | utils.py:130-135 | The comparable score of any bitstring lies between 0 and the best value. |
| Ratio.ExpectationBounds | utils.py:138-144 | The comparable expectation lies between 0 and best value × total probability. |
| Ratio.BestValueZero | utils.py:125-126 | With positive times, the best value is 0 exactly when only the empty selection is feasible. |
| Ratio.RatioBounds | utils.py:120-127 | With a non-negative budget, the ratio is never `EmptySolutions`. It is `ZeroBestValue` exactly when only the empty selection is feasible. Otherwise it lies in `[0, total probability]`. |
| Ratio.DeviceRatio | utils.py:183-200 | Every aggregated key can be scored. The same two failures hold exactly as for a distribution. Otherwise the ratio is the expectation of the aggregate divided by the best value. |
| Ratio.ApproximationRatioOnRealDevice | utils.py:183-200 | The real-device ratio is the ratio step applied to the distribution aggregated by leftmost prefixes. |
| Ratio.DeviceRatioBounds | utils.py:187-200 | The same error cases hold, and the ratio lies in `[0, total count / 2048]`. |
| Ratio.AggregatedScorable | utils.py:187-195 | Every aggregated key is a bitstring long enough to decode, so it can be scored. |
| Ratio.RightmostRatioMatches | utils.py:187-199 | With rightmost prefixes, the device ratio equals the ratio of the unmerged distribution `counts / 2048`. Aggregation then changes nothing the score sees. |
| Ratio.LeftmostMisreads | utils.py:189 | One EV, key `"10"` with all 2048 shots: the leftmost prefix `"1"` scores 1, while the measured state selects nothing and scores 0. |
| Angles.Gammas | utils.py:55 | `angles[0::2]`: `(len + 1) // 2` entries, entry `i` is `angles[2i]`. |
| Angles.Betas | utils.py:56 | `angles[1::2]`: `len // 2` entries, entry `i` is `angles[2i + 1]`. |
| Angles.SplitInterleave | utils.py:54-56 | Interleaving the gammas and betas, gamma first, gives the angle vector back. |
| Angles.OptimizeAnglesBounds | utils.py:114-115 | `2p` bounds, the gamma range at even and the beta range at odd positions. |
| Angles.ToParameterDict | utils.py:52-63 | The keys are the zipped beta handles, the zipped gamma handles, and `a`. `a` maps to the weight. With distinct handles, `gammas[i]` maps to `angles[2i]` and `betas[i]` to `angles[2i + 1]`. |
| Angles.BoundsMatchBinding | utils.py:114-115 | An angle vector within the optimiser's bounds binds every gamma handle inside the gamma range and every beta handle inside the beta range. |
| Circuits.PowerOfTwoSchedule | circuits.py:28-32 | `_add_power_of_two(k)` on `m` qubits emits `max(m - k, 0)` gates. Gate `j` is a phase of `1 / 2^(j+1)` turn on qubit `k + j`, with the adder's control. |
| Circuits.AddGatesOnRegister | circuits.py:25-27 | Every gate acts on a register qubit and carries the adder's control. |
| Circuits.Add.constructor | circuits.py:13-22 | The gate list is `AddGates`: `_add_power_of_two(idx)` for every set binary digit of `n`, least significant first. |
| Circuits.Add.AddPowerOfTwo | circuits.py:24-32 | Appends exactly `_add_power_of_two(k)`'s gates. |
| Circuits.PowerOfTwoTurns | circuits.py:28-32 | Qubit `q` gets `2^k / 2^(q+1)` turns when `k <= q`, and nothing otherwise. |
| Circuits.AddTurns | circuits.py:19-32 | Summed over all set bits, register qubit `q` gets `(n mod 2^(q+1)) / 2^(q+1)` turns. |
| Circuits.AddZero | circuits.py:19-22 | `Add(0)` emits no gates. |
| Circuits.PowerOffset | circuits.py:37-38 | `power_0` lies in `[0, 2^(c-1))` and `power_0 + max_power + 1 == 2^c`. |
| Circuits.OffsetThreshold | circuits.py:37-38 | `w + power_0 >= 2^c` exactly when `w > max_power`. |
| Circuits.FlagTestBelow | circuits.py:49-51 | On an `n`-bit register, the multi-controlled X behind inverted bits `c..` fires exactly when the register is below `2^c`. For `n <= c` the slice is empty; the arithmetic says the test always fires, and `QAOA.New` rejects the instances where `n < c`. |
| Circuits.FlagMarksExcess | circuits.py:37-51 | When `w + power_0` fits the register, the flag ends up set exactly when `w > max_power`. |
| Circuits.InverseSubtracts | circuits.py:53 | The inverted adder blocks take away, on every selection, what the blocks add. |
| Circuits.FlagRaisedExactly | circuits.py:76-81 | When the weight plus `power_0` fits the register, the flag is inverted by the `x` and inverted again when the test fires. Entering lowered, it is raised exactly for infeasible selections; entering raised, exactly for feasible ones. |
| Circuits.PenaltyAfterCleanUp | circuits.py:81-86 | As written, with `clean_up=True`: the register is 0 during the penalty phases. With the flag entering lowered, feasible selections get 0 and every infeasible one gets `-2^c * a * gamma`. With it entering raised, feasible ones get `-2^c * a * gamma` and infeasible ones 0. |
| Circuits.PenaltyWithoutCleanUp | circuits.py:84-86 | Corrected, the register keeping `w + power_0`. With the flag entering lowered, feasible selections get 0 and one of weight `w > max_power` gets `(w - max_power - 1) * a * gamma`. With it entering raised, feasible ones get `(w - max_power - 1) * a * gamma` and infeasible ones 0. |
| Circuits.PenaltyWithoutFourierBasis | circuits.py:40-51 | On a register read in the computational basis and never changed from 0, the flag test fires for every selection. The penalty phase is 0 with the flag entering lowered and `-2^c * a * gamma` with it entering raised, the same for every selection. |
| Circuits.UndoRegisterSame | circuits.py:87-88 | The outer `inverse()` runs its flag test on the same register value as the forward test, with or without `clean_up`. |
| Circuits.PhaseOperatorInvertsFlag | circuits.py:76-88 | One `PhaseOperator` hands the flag on inverted, whatever the selection. With a reset `x` after circuits.py:88 it hands it on unchanged. |
| Circuits.FlagEnteringParity | qaoa.py:56-63 | As written, the flag enters the phase operator of layer `k` (counting from 0) raised exactly when `k` is odd. |
| Circuits.FlagEnteringReset | qaoa.py:56-63 | With the flag reset after each phase operator, it enters every layer lowered. |
| Circuits.PenaltyInLayer | qaoa.py:56-63 | As written, in even layers (counting from 0, so the first layer is even) feasible selections get 0 and infeasible ones `-2^c * a * gamma`. In odd layers feasible ones get `-2^c * a * gamma` and infeasible ones 0. |
| Circuits.PenaltyInEveryLayer | circuits.py:76-88 | Corrected (register kept, flag reset after each operator): in every layer feasible selections get 0 and one of weight `w > max_power` gets `(w - max_power - 1) * a * gamma`. |
| Circuits.TotalPowerComputation | circuits.py:40-45 | The loop emits each EV's adder controlled by its choice qubit, then the uncontrolled `power_0` adder. |
| Circuits.TotalPowerAdded | circuits.py:40-45 | On a selection, those adders add its power plus `power_0`. |
| Circuits.PenaltyPhases | circuits.py:84-86 | The loop emits the schedule `PenaltySchedule(n, c)`. |
| Circuits.PenaltyScheduleAt | circuits.py:84-86 | Register qubit `idx` gets a flag-controlled `2^idx * a * gamma`. The flag gets `-2^c * a * gamma`. |
| Circuits.PenaltyPhaseValue | circuits.py:84-86 | The penalty phase of a basis state is `(register - 2^c) * a * gamma` when the flag is set, and 0 otherwise. |
| Circuits.PenaltyForWeight | circuits.py:84-86 | With the register holding `w + power_0` (the intended circuit), a selection of weight `w` gets the phase `(w - max_power - 1) * a * gamma` when `w > max_power`, and 0 otherwise. |
| Circuits.TimeComputation | circuits.py:58-63 | The loop emits one phase per EV. |
| Circuits.TimeScheduleAt | circuits.py:62-63 | Choice qubit `i` gets `-gamma * time_required[i]`. |
| Circuits.TimePhaseIsValue | circuits.py:62-63 | The time phases of a selection add up to `-gamma` times its value. |
| Qaoa.QAOA.constructor | qaoa.py:29-67 | For non-negative powers and a register wider than `c`. Exactly `p` beta and `p` gamma handles, named by index, and the handle `a`. The register width is as computed. The qubit count is `width + number_of_evs + 1`. The layers are the Hadamards, then phase separation with `gammas[i]` and mixing with `betas[i]` for each step. |
| Qaoa.QAOA.New | qaoa.py:35-49 | Fails exactly when the total power or the budget is below 1 (`MathDomainError`, the domain error of `log2`) or some power is negative (`NegativeAmount`: `PhaseOperator` builds an `Add` per power, and circuits.py:19 cannot parse `bin` of a negative number) or the register is narrower than `c` (`EmptyControls`: the `mcx` of circuits.py:50 gets the empty slice `power_req_reg[c:]` as its controls, which the circuit library rejects). |
| Qaoa.NarrowRegister | qaoa.py:35-38 | Powers `[1]`, budget 2: the width is 1 and `c` is 2, so `New` reports `EmptyControls`. |
| Qaoa.LayersAlternate | qaoa.py:56-67 | Layer `2i` is phase separation with `gammas[i]`, and layer `2i + 1` is mixing with `betas[i]`. |
| Qaoa.QaoaHandlesDistinct | qaoa.py:29-32 | The handles are pairwise distinct, so the parameter dict binds each its own angle. |
| Qaoa.PowerRegisterWidth | qaoa.py:35-38 | The width holds the total power, and it never equals `c`. |
| Qaoa.PowerRegisterWidthBounds | qaoa.py:35-38 | The width exceeds `c` whenever `max_power <= total_power`. |
| Qaoa.Denominator | qaoa.py:80 | The denominator is at least 1. |
| Qaoa.LowestTerms | qaoa.py:80 | Numerator / denominator is the same number as `a`, and the two are coprime. |
| Qaoa.DenominatorUnique | qaoa.py:78-81 | Two fractions of the same value give the same denominator and the same gamma range. |
| Qaoa.GammaRange | qaoa.py:78-81 | The range starts at 0 and ends at a whole number of turns, at least 1 and at most the given fraction's denominator. |
| Qaoa.SearchBounds | qaoa.py:74-81 | Angles within the optimiser's bounds built from `gamma_range` and `beta_range` give `p` gammas in `[0, den]` turns and `p` betas in `[0, 0.5]` turns (0 to π). |
| Qaoa.GammaRangeOfInteger | qaoa.py:78-81 | For integer `a` the gamma range is one turn (`2 * pi`). |
| Qaoa.SafeWidthFlagCorrect | qaoa.py:35-38 | With the corrected width, every weight up to the total power is flagged exactly when it exceeds the budget. |
| Qaoa.SafeWidthCost | qaoa.py:35-38 | The corrected width is the computed width or one more. |
| Qaoa.FlagMarksInfeasible | circuits.py:40-51 | With the corrected width and non-negative powers, the register the adders leave raises the flag exactly for infeasible selections. |
| Qaoa.PenaltyIgnoresExcess | circuits.py:81-86 | Powers `[2, 1]`, budget 1, width 2: as written, in the first layer weights 2 and 3 both get `-2 * a * gamma` and weight 1 gets 0. In the second layer weights 2 and 3 get 0 and weight 1 gets `-2 * a * gamma`. With the register kept, the first layer gives weights 2 and 3 the phases 0 and `1 * a * gamma`. |
| Qaoa.RegisterWrapsAround | qaoa.py:35-38 | Powers `[2, 2, 3]`, budget 2: the computed width is 3. Selecting every EV (weight 7, infeasible) adds 8, which wraps to 0, and the flag test reports it within budget. |
| Plots.Join | plots.py:17 | `", ".join` of `k >= 1` characters has `3k - 2` characters, and of none has none. |
| Plots.KeyToLabel | plots.py:15-18 | The empty key gives `"()"`. Any other key gives a label of `3 * len(key)` characters in parentheses. |
| Plots.LabelDigits | plots.py:15-18 | Listed digit `i` is key character `len(key) - 1 - i`, and the digits are separated by `", "`. |
| Plots.LabelRoundTrip | plots.py:15-18 | Reading the digits back from a label gives the key, so distinct keys get distinct labels. |
| Plots.LabelListsSelection | plots.py:16 | Listed digit `i` is 1 exactly when the decoded selection picks EV `i`. The first listed digit is EV 0's. |

## Left out

- Qiskit is not modelled: transpiling, executing, binding parameters, statevectors, probability dicts and counts (utils.py:66-104, 203-210). It is a foreign library doing simulation and device I/O. The distribution and the counts are inputs.
- `find_optimal_angles` and `scipy.optimize.shgo` are not modelled; only the bounds handed to the optimiser are. They are foreign numerical code.
- Ratio.ApproximationRatio: takes the expectation as a parameter. `comparable_expectation_value` runs the optimiser and the simulator. `Ratio.DistributionRatio` states the ratio for a given distribution.
- Ratio.ComparableOf: states only that the score function is defined on well-formed bitstrings. A lambda's domain cannot be pinned down the other way.
- The circuit objects are not modelled: registers, `to_instruction`, `inverse`, `x`, `mcx`, `h`, and `MixingOperator`'s `rx` gates. A mixer is a `Mixing(beta)` layer. The uncomputation inside `TotalPowerComputation` is modelled only as adders of the opposite amount. The outer `inverse()` of `PhaseOperator` (circuits.py:87-88) is modelled only by its effect on the flag: it repeats the flag test. Quantum semantics are outside the model: the flag and the penalty phase are stated per basis state of the choice register, and the mixers, which touch only the choice register, are not followed between layers.
- Circuits.FlagMarksExcess: the register value `(w + power_0) mod 2^n` is the Fourier-adder design's, resting on the phase fractions of `Circuits.AddTurns`. The code applies no quantum Fourier transform, so in the code as written this value is not what the flag test reads (see Findings).
- Qaoa.FlagMarksInfeasible: rests on the same Fourier-basis register value, which the code never establishes (no QFT).
- Qaoa.RegisterWrapsAround: the wrap-around is stated for the Fourier-basis register value, which the code never establishes (no QFT).
- Circuits.FlagTestBelow: for `n <= c` the slice `power_req_reg[c:]` is empty, and the lemma states only the arithmetic (every register value is below `2^c`). The circuit library rejects an `mcx` with no controls; `QAOA.New` reports the instances where the width is below `c` as `EmptyControls`, and the width never equals `c`.
- Floating point is not modelled. Reals are exact, π is half a turn, and `floor(log2(x)) + 1` is the exact bit length.
- A zero charging time is a precondition (`NonZero`). numpy yields `inf` with a warning rather than raising.
- Bitstrings shorter than `number_of_evs` are a precondition (`WellFormed`). numpy's `dot` raises on them.
- `best_known_solutions` for zero EVs is a precondition (`Enumerable`). `choices_from_number` then returns `[0]` and the dot raises.
- Scoring.ComparableNonNegative: assumes positive charging times. A negative time makes values negative.
- Qaoa.FlagMarksInfeasible: assumes non-negative powers. `QAOA.New` reports a negative power as `NegativeAmount`, so no circuit exists for such an instance.
- `p` is a `nat`. A negative `p` gives empty parameter lists in Python.
- The `verbose` print of the qubit count is not modelled (console output). The count is a field.
- Experiment drivers (main.py, a_penalty.py), the histogram drawing and the matplotlib style are not modelled. They are plotting and file I/O.
- IBMQ account, backend and noise-model setup, and the noise toggle, are not modelled. They are network access and global configuration.

## Findings

| source | as written | input that shows it | evidently intended | confidence | as-written member | corrected member |
|---|---|---|---|---|---|---|
| utils.py:189 | `key[:number_of_evs]` keeps the leftmost characters of a counts key, but EV qubits are the rightmost characters, which `bitstring_to_selection_choices` reads | one EV with time 1, power 1, budget 1; counts `{"10": 2048}`: the prefix `"1"` scores 1 though the state selects nothing (score 0) | keep the last `number_of_evs` characters | not executed | Ratio.LeftmostMisreads | Ratio.RightmostRatioMatches |
| qaoa.py:35-38 | the power register gets `bit_length(total_power)` qubits (one more if that equals `c`), but it must hold `weight + power_0` | powers `[2, 2, 3]`, budget 2: width 3, `power_0 = 1`; selecting all EVs puts `7 + 1 = 8` into 3 qubits, which wraps to 0, so the flag test reports the selection within budget and no penalty is applied | width `max(bit_length(total_power + power_0), c + 1)` | not executed | Qaoa.RegisterWrapsAround | Qaoa.SafeWidthFlagCorrect |
| circuits.py:81 | `PhaseOperator` builds `TotalPowerComputation` with `clean_up=True`, which undoes the adders before the penalty phases read the register | powers `[2, 1]`, budget 1, width 2: in the first layer weights 2 and 3 both get the phase `-2 * a * gamma`, so the penalty does not grow with the excess | build it with `clean_up=False`, so the register holds `w + power_0` during the phases and the outer `inverse()` removes the adders again | not executed | Circuits.PenaltyAfterCleanUp | Circuits.PenaltyWithoutCleanUp |
| circuits.py:76 | the flag is set by an `x` that nothing undoes, and the outer `inverse()` repeats the flag test, so each `PhaseOperator` leaves the flag inverted and the next layer starts with it raised | powers `[2, 1]`, budget 1, `p = 2`: in the second layer the feasible selection `[0, 1]` gets `-2 * a * gamma` and the infeasible `[1, 0]` and `[1, 1]` get 0 | apply `x(flag_reg)` again after circuits.py:88, so the flag enters every layer lowered | not executed | Circuits.PenaltyInLayer | Circuits.PenaltyInEveryLayer |
| qaoa.py:40-53 | the power register is never put into the Fourier basis, yet `Add` adds its amount only there | any selection: read in the computational basis the register stays 0, so the flag test fires and no penalty phase is applied | apply a QFT to the register before the adders and its inverse before the flag test | not executed | Circuits.PenaltyWithoutFourierBasis | Circuits.FlagMarksExcess |
