# Perceptron branch predictor

This project models the branch predictor in `src/my_predictor.h` and proves properties of it in Dafny.

The predictor keeps three things:

- a 64-bit global history of branch outcomes (`ghist`);
- a table of 2048 perceptrons;
- a two-entry record of recent conditional branch addresses (`pc_hist`).

Each perceptron holds 64 signed 8-bit weights and a signed 8-bit bias. To predict a conditional branch, the predictor hashes the branch address with the history word to pick a perceptron. It then predicts taken if the bias plus the dot product of the weights with the history is non-negative. Each history bit counts as +1 when set and -1 when clear.

On update, the selected perceptron is trained under either of two conditions:

- the prediction was wrong;
- the output's magnitude is at most the threshold THETA = (int)(1.93 * 64 + 14) = 137.

Training moves every weight one saturating step towards agreement with the outcome, and the bias one step towards the outcome. The outcome is then shifted into the history.

The project has two modules:

- `Perceptrons` (`perceptron.dfy`) holds:
  - the value model: `PerceptronState`, `Output`, `Trained`, `Clamp`;
  - the imperative class `Perceptron`, with an `int8` weight array updated in place. Its `Predict` and `Train` methods are proved against the value model.
- `Predictor` (`predictor.dfy`) holds:
  - the index hash and the history shift;
  - the training condition;
  - the class `BranchPredictor`, whose table of `Perceptron` objects, `pc_hist` array and history field are updated in place.

The global history is a sequence of 64 booleans. Element i is bit i of the `bitset`, and element 0 is the newest outcome. `ToWord` gives its `to_ullong` value. Branch addresses are 32-bit `unsigned int` (`bv32`) and are widened to 64 bits for the hash, as C++ promotes them.

The accumulator of `perceptron::predict` is an `int32` newtype, so the verifier's range checks show that the sum cannot overflow.

## Model

| member | source | states |
|---|---|---|
| Perceptrons.Clamp | src/my_predictor.h:47 | the clamp to [MIN_WEIGHT, MAX_WEIGHT] is the identity inside the range and gives the nearer bound outside it |
| Perceptrons.Trained | src/my_predictor.h:44-50 | training moves every weight one saturating step up when its history bit equals the outcome and down otherwise, and the bias one saturating step towards the outcome |
| Perceptrons.Dot | src/my_predictor.h:37-40 | the sum over n history bits of each weight times +1 (bit set) or -1 (bit clear) has magnitude at most 128 * n |
| Perceptrons.Output | src/my_predictor.h:35-42 | the value `perceptron::predict` returns, the bias plus the 64-bit dot product, lies within 65 * 128 in magnitude and so fits the 32-bit `int` accumulator |
| Perceptrons.Zero | src/my_predictor.h:29-33 | the constructed state has all 64 weights and the bias zero |
| Perceptrons.ZeroOutput | src/my_predictor.h:29-33 | a freshly constructed perceptron outputs 0 for every history, so it predicts taken |
| Perceptrons.DotTrainedMonotone | src/my_predictor.h:45-48 | training never moves the dot product for the trained history away from the outcome |
| Perceptrons.TrainingMovesOutputTowardOutcome | src/my_predictor.h:44-50 | training never moves the output for the trained history away from the outcome, and moves it strictly towards the outcome while the bias is not saturated |
| Perceptrons.TrainedTimesProgress | src/my_predictor.h:44-50 | after k trainings on one history and outcome, every weight is exactly min(127, w + k) where its bit agrees with the outcome and max(-128, w - k) where it does not, and the bias likewise towards the outcome |
| Perceptrons.RepeatedTrainingSaturates | src/my_predictor.h:44-50 | from any state, 255 trainings on one history and outcome saturate every weight and the bias, so the output has magnitude at least 127 * 65 with the outcome's sign |
| Perceptrons.Perceptron.constructor | src/my_predictor.h:29-33 | a new perceptron has 64 zero weights and a zero bias |
| Perceptrons.Perceptron.Predict | src/my_predictor.h:35-42 | the loop returns the bias plus the +/-1-weighted sum of the weights, within the output bound |
| Perceptrons.Perceptron.Train | src/my_predictor.h:44-50 | the weight array and the bias are updated in place to the trained state |
| Predictor.ToWord | src/my_predictor.h:78 | the `to_ullong` value of the history: zero for no outcomes, and bit 0 is set exactly when the newest outcome is taken |
| Predictor.HashIndex | src/my_predictor.h:78 | the address widened to 64 bits, exclusive-or the history word, modulo 2048, is always an index into the 2048-entry table |
| Predictor.Index | src/my_predictor.h:78 | the hash of address and history word always selects an entry of the 2048-entry table |
| Predictor.IndexSeparatesAddresses | src/my_predictor.h:78 | for one history, two addresses select the same perceptron exactly when their low 11 bits agree |
| Predictor.ToWordLowBits | src/my_predictor.h:78 | histories that agree in their k newest outcomes give history words that agree in their k low bits |
| Predictor.IndexWindow | src/my_predictor.h:78 | only the low 11 address bits and the 11 newest outcomes decide which perceptron is selected |
| Predictor.ShiftIn | src/my_predictor.h:113-114 | shifting in an outcome puts it at bit 0 and moves every other bit up by one, dropping bit 63 |
| Predictor.ShiftInMatchesRegister | src/my_predictor.h:113-114 | after the shift, the history word is the old word shifted left by one with the outcome in bit 0 |
| Predictor.ShouldTrain | src/my_predictor.h:108 | the perceptron is left untrained exactly when the output exceeds THETA in the direction of the outcome |
| Predictor.TrainingStopsOnceSaturated | src/my_predictor.h:108-110 | a branch that repeats one history and outcome stops training after at most 255 trainings, and the output then predicts the outcome |
| Predictor.BranchPredictor.constructor | src/my_predictor.h:64-69 | the table holds 2048 distinct zeroed perceptrons, and the recent addresses are zero |
| Predictor.BranchPredictor.Predict | src/my_predictor.h:71-100 | a conditional branch selects perceptron Index(address, history), is predicted taken iff that perceptron's output is non-negative, and pushes its address onto the recent addresses; any other branch is predicted taken and nothing changes; no perceptron and no history bit changes |
| Predictor.BranchPredictor.Update | src/my_predictor.h:102-116 | for a conditional branch, the selected perceptron is trained iff ShouldTrain holds of its output and the outcome is shifted into the history; every other perceptron and the recent addresses are unchanged; any other branch changes nothing |

## Left out

- The `branch_info`/`branch_update` harness types are modelled only by the fields the predictor uses: the address, the conditional flag, the direction prediction and the target prediction.
- The `my_update` downcast and the saved `bi` and `u` fields are replaced by a `Context` value that `Predict` returns and `Update` takes. `Update` branches on whether the last predicted branch was conditional. In the source, `u.index` stays stale after an unconditional branch, but `update` does not read it then.
- THETA is computed in integer hundredths, (193 * 64 + 1400) / 100 = 137, which equals the source's truncation of the double 137.52. No floating point is modelled.
- The alternative hashes left commented out at lines 74-75 and 80-84 are not modelled, because they are dead code.
- The `target` argument of `update` is not modelled, because the predictor ignores it.
- `pc_hist` is modelled as written to, but nothing reads it, because the path hash that would read it is commented out.
- The storage comment at lines 3-7 is not modelled.
- The training condition `std::abs(output) <= THETA` is modelled over unbounded integers. The output is at most 65 * 128 in magnitude, so `abs` cannot overflow, as the contract of Perceptrons.Output shows.
- A TAGE predictor is not modelled; its source is not among the modelled files.
