# Lotto feature encoder

This project models the feature encoder of a small lotto-prediction tool. The tool has a training script and a prediction script. Every lotto round draws six main numbers (`number1..number6`) out of 45 balls.

- **Presence encoding** (`make_presence`). Each round becomes a row of 45 slots holding 0 or 1. Slot `c` is 1 exactly when ball `c + 1` was drawn. The rows are filled in place in a zero-initialised `rounds x 45` array, and numbers outside 1..45 are skipped.
- **Sliding-window training pairs** (`build_features_targets`). For every round `i` from `window` on, the feature vector `X` is the row-major concatenation of the rows of rounds `i - window .. i - 1`, which is `window * 45` entries. The target `Y` is the row of round `i`. The default window is `WINDOW = 5`.
- **Inference features** (`load_recent_features`). The presence matrix is built again with the same marking rule. Its last `window` rows are flattened into a single feature row.

The Dafny model has two modules, one per script.

- `TrainLotto` (`train_lotto.dfy`):
  - `MakePresence` fills an `array2<int>` with nested loops.
  - `BuildFeaturesTargets` appends to the `X` and `Y` sequences in a loop.
  - Both are proved against specification functions. `FillRow` folds the marking step over a round's numbers, and `Presence`, `Features` and `Targets` are built from it.
  - Lemmas relate these functions to an independent meaning. `Drawn(draw, c)` is "ball `c + 1` is among the numbers of the round", and the lemmas also prove row-major layout, 0/1 entries and the target being outside its own window.
- `PredictLotto` (`predict_lotto.dfy`):
  - `LoadRecentFeatures` copies the rounds in a loop and fills its own array in place with the same nested loops. It then slices the array the way Python's `pres[-window:]` does and flattens the result.
  - Its contract ties the result to the kept tail of the training module's `Presence`. Before slicing, the method asserts that its whole array equals `Presence(rows)`. So its presence matrix agrees cell for cell with the one `make_presence` builds.
  - `InferenceMatchesTraining` proves that the inference row equals the feature row training would build for a hypothetical next round.

The window read by the prediction script comes from the saved model file, so `LoadRecentFeatures` takes any integer window. The slice `pres[-window:]` is modelled with Python's slicing rules (`TailStart`):
- A positive window keeps the last `window` rows, or all rows when there are fewer.
- A window of 0 keeps every row, because `-0 == 0` (`ZeroWindowKeepsAllRounds`).
- A negative window drops the first `-window` rows.

The module docstring at scripts/train_lotto_model.py:8 calls the features "counts … (length 45)". The code flattens `window * 45` one-hot entries instead (scripts/train_lotto_model.py:56-58). The model follows the code.

## Model

| member | source | states |
|---|---|---|
| TrainLotto.Mark | scripts/train_lotto_model.py:49-50 | one marking step keeps 45 slots and changes only slot `v - 1`, to 1, when `1 <= v <= 45`; any other number leaves the row as it was |
| TrainLotto.FillRow | scripts/train_lotto_model.py:45-50 | the row left by marking every number of a round in turn on a zero row always has 45 slots |
| TrainLotto.Presence | scripts/train_lotto_model.py:44-50 | the presence matrix has one row per round, each of 45 slots |
| TrainLotto.MakePresence | scripts/train_lotto_model.py:42-51 | returns a fresh `rounds x 45` array whose rows are the presence rows of the rounds; the in-range guard keeps every write `pres[i, v-1]` inside the array |
| TrainLotto.FillRowSlots | scripts/train_lotto_model.py:45-50 | slot `c` of a round's row is 1 exactly when ball `c + 1` is among its numbers, and 0 otherwise |
| TrainLotto.PresenceIsBinary | scripts/train_lotto_model.py:44-45 | the presence matrix has one row per round, each of exactly 45 entries, each 0 or 1 |
| TrainLotto.PresenceMeans | scripts/train_lotto_model.py:47-50 | for `1 <= v <= 45`, `pres[i][v-1]` is 1 iff `v` is one of round `i`'s numbers and 0 iff it is not |
| TrainLotto.FillRowInRangeOnly | scripts/train_lotto_model.py:48-50 | a row depends only on which in-range balls occur: order, repeated numbers and numbers outside 1..45 never change it |
| TrainLotto.OnesAtMostDraw | scripts/train_lotto_model.py:48-50 | a round marks at most as many slots as it has numbers (a repeated number sets the same slot), so six numbers give at most six ones |
| TrainLotto.OnesSet | scripts/train_lotto_model.py:50 | setting one slot to 1 raises the number of ones by at most one |
| TrainLotto.Features | scripts/train_lotto_model.py:55-59 | for every input, including zero pairs and a window of 0, there are `max(0, rounds - window)` feature rows |
| TrainLotto.Targets | scripts/train_lotto_model.py:55-60 | the targets are exactly the presence rows from round `window` on, and none when there are at most `window` rounds |
| TrainLotto.BuildFeaturesTargets | scripts/train_lotto_model.py:53-61 | `X` and `Y` are the sliding-window features and targets of the array's rows, with the window defaulting to 5; the method has no `modifies` clause, so `pres` is left unchanged |
| TrainLotto.FlattenAt | scripts/train_lotto_model.py:58 | flattening rows of 45 entries gives `rows * 45` entries, and entry `r * 45 + c` is row `r`, column `c` |
| TrainLotto.FlattenBinary | scripts/train_lotto_model.py:58 | flattening 0/1 rows yields only 0/1 entries |
| TrainLotto.FeatureLayout | scripts/train_lotto_model.py:55-60 | there are `max(0, rounds - window)` pairs; `X[k]` has `window * 45` entries, entry `j` being `pres[k + j / 45][j % 45]`; `Y[k] == pres[k + window]` |
| TrainLotto.FeaturesBinary | scripts/train_lotto_model.py:53-61 | every entry of `X` and `Y` is 0 or 1, and every target row has 45 slots |
| TrainLotto.FeatureExcludesTarget | scripts/train_lotto_model.py:56-60 | the target round is not inside its own feature window: replacing row `k + window` leaves `X[k]` unchanged |
| TrainLotto.TrainingPairMeans | scripts/train_lotto_model.py:42-61 | end to end, entry `w * 45 + v - 1` of `X[k]` says whether ball `v` was drawn in round `k + w`, and slot `v - 1` of `Y[k]` says whether it was drawn in round `k + window` |
| PredictLotto.TailStart | scripts/predict_lotto.py:34 | the start of `pres[-window:]` is Python's slice-start rule (`SliceStart`) applied to `-window`, and lies inside the matrix; a positive window keeps `min(window, rounds)` rows; a window of 0 or less starts at row `min(-window, rounds)` |
| PredictLotto.RecentFeature | scripts/predict_lotto.py:34-36 | the flattened tail has 45 entries per kept round |
| PredictLotto.LoadRecentFeatures | scripts/predict_lotto.py:24-37 | returns one row, the flattening of the presence matrix (the same cells that `make_presence` yields) from the row Python's `pres[-window:]` starts at |
| PredictLotto.RecentFeatureShape | scripts/predict_lotto.py:34-36 | for `window > 0`: with at least `window` rounds the row is the last `window` presence rows flattened (`window * 45` entries); with fewer it is all rounds (`rounds * 45` entries); every entry is 0 or 1 |
| PredictLotto.RecentFeatureBinary | scripts/predict_lotto.py:29-36 | for every window, positive, zero or negative, every entry of the inference row is 0 or 1 |
| PredictLotto.ZeroWindowKeepsAllRounds | scripts/predict_lotto.py:34 | a window of 0 keeps every round (`rounds * 45` entries), while training with window 0 builds one pair per round, each with an empty feature row |
| PredictLotto.RecentFeatureMeans | scripts/predict_lotto.py:29-36 | entry `w * 45 + v - 1` of the inference row says whether ball `v` was drawn in the `w`-th of the last `window` rounds |
| PredictLotto.InferenceMatchesTraining | scripts/predict_lotto.py:35-36 | with `rounds >= window > 0`, the inference row equals the `X` entry training would build for a next round at index `rounds`, whatever that round's numbers are |

## Left out

- Reading and sorting the CSV with pandas and parsing cells with `int(row.get(...))` (scripts/train_lotto_model.py:33-40,47; scripts/predict_lotto.py:41-42) are file I/O and library parsing. Each round is given as its sequence of integers, in the order the data frame yields them. `make_presence` indexes its array by the data frame's index label (scripts/train_lotto_model.py:46), and `load_recent_features` indexes by position (scripts/predict_lotto.py:30). Both match the model's positional index because `load_data` resets the index to `0..n-1` (scripts/train_lotto_model.py:39).
- Saving and loading the model with joblib and writing the JSON prediction file (scripts/train_lotto_model.py:86-88; scripts/predict_lotto.py:20-22,55-60) are file I/O.
- Logistic-regression training, `predict_proba`, evaluation metrics and the top-k `argsort` (scripts/train_lotto_model.py:75-84; scripts/predict_lotto.py:44-53) are excluded. They are floating-point work in a foreign library, and numpy leaves the tie order unspecified.
- The 80/20 split `int(len(X)*0.8)` (scripts/train_lotto_model.py:71) is floating-point arithmetic.
- TrainLotto.BuildFeaturesTargets: the window is a natural number. Python would also accept a negative window and index from the end, but the callers only pass `WINDOW = 5`.
- The numpy arrays built from the `X` and `Y` lists (scripts/train_lotto_model.py:61) are modelled as sequences of rows. Their 64-bit integer width does not matter for 0/1 entries.
- The web app (app.py, run_streamlit.py, pages/) is not part of this model. That covers the page setup, the visitor counter, the launcher and the games on its pages. The five-in-a-row game in pages/3_Gomoku & Bingo Game.py is a separate feature and shares no code with the lotto encoder.
