# Sequence handling of a sine-wave LSTM forecaster, in Dafny

`RNN/lstm.py` trains a recurrent network to predict the next sample of a
noisy sine wave from the 25 samples before it, and then lets the trained
network forecast the wave on its own. Around the numerical library calls it
does plain list and index work, and that work is modelled here:

- `windowing.dfy` (module `Windowing`): the loop that cuts the signal into
  every window of `maxlen` samples (an input) and the sample after it (its
  target).
- `split.dfy` (module `Split`): the unshuffled train/validation split, a cut
  of the example list into a prefix and a suffix.
- `batching.dfy` (module `Batching`): the batch count `n // batch_size + 1`,
  the Python slices `[b*batch_size : b*batch_size + batch_size]` with their
  clipping, and the loop that hands those slices to a step function.
- `training.dfy` (module `Training`): the epoch loop. Each epoch shuffles the
  training set, feeds its batches and the validation batches to the two step
  functions, appends one entry to each history list, and asks the
  early-stopping object whether to stop.
- `generation.dfy` (module `Generation`): the forecast loop. A buffer starts
  as window 0. Each step predicts a sample, shifts the buffer left by one with
  the prediction entering at the end, and records the prediction after
  `maxlen` placeholders.

Samples are of an arbitrary type `T`: nothing here computes with them. The
trained network is a parameter `predict: seq<T> -> T`. Everything outside the
file is passed in as well: the permutation `shuffle` draws each epoch
(`perm`), the metric values after each epoch (`trainMetric`, `valMetric`),
and the early-stopping object's answer (`stop`). That object is stateful,
but it is called once per epoch with that epoch's validation value. Its
answers are therefore a function of the values it has received so far, and
`stop` takes that sequence.

The metric accumulators `train_loss` and `val_loss` are created once and
never reset, so each epoch's value is a running mean over every epoch so
far. Resetting them per epoch would be the cleaner design, but the model
follows the code and keeps the reported values opaque.

## Model

| member | source | states |
|---|---|---|
| `Windowing.BuildExamples` | RNN/lstm.py:54-59 | the loop yields exactly `len(f) - maxlen` inputs and as many targets (none if the signal is not longer than a window); input `i` is `f[i .. i+maxlen)`, of length `maxlen`, and target `i` is `f[i+maxlen]` |
| `Windowing.WindowsOverlap` | RNN/lstm.py:57-59 | window `i+1` is window `i` shifted left by one with target `i` appended: they share `maxlen-1` samples and `x[i+1][maxlen-1] == t[i]` |
| `Windowing.SignalFromExamples` | RNN/lstm.py:57-59 | no sample is lost: window 0 followed by all targets is the whole signal |
| `Split.TemporalSplit` | RNN/lstm.py:64 | inputs and targets of different lengths are an error; otherwise `x_train ++ x_val == x` and `t_train ++ t_val == t`, both cut at the same index |
| `Split.SplitKeepsPairs` | RNN/lstm.py:64 | training example `i` is example `i`, validation example `j` is example `cut+j`, and each input stays beside its own target |
| `Split.ValidationWindows` | RNN/lstm.py:57-64 | after windowing and splitting, validation input `j` is the window of the signal starting at `cut+j` and its target is sample `cut+j+maxlen` |
| `Batching.Slice` | RNN/lstm.py:113 | Python slicing with non-negative bounds: the length is the clipped range and element `k` is `s[start+k]` |
| `Batching.BatchCount` | RNN/lstm.py:101-102 | `n // batch_size + 1` is the one batch count `c` with `(c-1)*batch_size <= n < c*batch_size` |
| `Batching.Batch` | RNN/lstm.py:111-113 | batch `b` holds at most `batch_size` elements, exactly the list's elements from its clipped start to its clipped end |
| `Batching.FeedBatches` | RNN/lstm.py:110-118 | the batch loop hands on `n // batch_size + 1` input slices and as many target slices; concatenated in order they give back the inputs and the targets, and each input slice has as many elements as its target slice |
| `Batching.BatchPrefix` | RNN/lstm.py:110-113 | the first `k` batches concatenated are the list up to where batch `k` starts |
| `Batching.BatchesCover` | RNN/lstm.py:110-118 | the batches concatenated in order are the whole list: each element is visited once, in order |
| `Batching.BatchesDisjoint` | RNN/lstm.py:111-112 | for `b1 < b2`, batch `b1` ends no later than batch `b2` starts, so batches do not overlap |
| `Batching.BatchSizes` | RNN/lstm.py:101-113 | every batch but the last is full; the last holds `n % batch_size` elements and is empty exactly when `batch_size` divides `n` |
| `Training.Shuffle` | RNN/lstm.py:108 | one permutation reorders inputs and targets alike: every shuffled pair is an original (input, target) pair, every original pair appears, and the multiset of (input, target) pairs is unchanged, so each pair occurs as often as before |
| `Training.PickMultiset` | RNN/lstm.py:108 | reading a list at two index lists with equal multisets yields equal multisets of elements |
| `Training.PermutedMultiset` | RNN/lstm.py:108 | reading a list through a permutation of its indices keeps its multiset |
| `Training.EpochsFrom` | RNN/lstm.py:107-126 | from epoch `e` on, the loop completes epochs up to the first one whose stop answer is true, or to the budget; no earlier answer was true |
| `Training.EpochsRun` | RNN/lstm.py:107-126 | the loop completes at most `epochs` epochs; if fewer, its last epoch's stop answer was true; every earlier answer was false |
| `Training.RunEpoch` | RNN/lstm.py:108-118 | one epoch hands to the step functions the batches of the shuffled training set and the batches of the unshuffled validation set |
| `Training.Train` | RNN/lstm.py:104-126 | the loop runs `EpochsRun` epochs, at most `epochs`; `hist['loss']` and `hist['val_loss']` get exactly one entry per completed epoch, so they have equal length; the loop stops at the first epoch whose stop answer is true; each epoch's step-function arguments are those of `RunEpoch` |
| `Training.FeedCovers` | RNN/lstm.py:108-118 | each epoch trains on the shuffled training set, batch after batch, with each (input, target) pair as often as in the training set (equal multisets), and validates on the validation set in temporal order, each example once |
| `Generation.Shift` | RNN/lstm.py:138 | `np.append(z, pred)[1:]` keeps a non-empty buffer's length, and the new buffer is `old[1..] + [pred]` |
| `Generation.Rollout` | RNN/lstm.py:134-139 | the buffer keeps the length of the seed through every step |
| `Generation.Predictions` | RNN/lstm.py:136-140 | after `k` steps exactly `k` predictions have been made |
| `Generation.Seed` | RNN/lstm.py:134 | `x[:1]` is the first `maxlen` samples of the signal, or nothing when the signal yields no window |
| `Generation.Recorded` | RNN/lstm.py:132-140 | `gen` holds `maxlen` placeholders, then prediction `k` at index `maxlen+k` |
| `Generation.Generate` | RNN/lstm.py:132-140 | after the loop `len(gen) == len(f)` (when `len(f) >= maxlen`); the first `maxlen` entries are placeholders and entry `maxlen+k` is the `k`-th prediction; the final buffer has length `maxlen` and is the buffer after `len(f) - maxlen` steps |
| `Generation.PredictionsPrefix` | RNN/lstm.py:136-140 | later steps only append to the predictions made so far |
| `Generation.RolloutIsLastWindow` | RNN/lstm.py:136-139 | after `k` steps the buffer is the `maxlen` values following the first `k` of "seed, then predictions" |
| `Generation.PredictionFromLastWindow` | RNN/lstm.py:137 | prediction `k` is the network applied to the `maxlen` values just before it in "seed, then predictions" |
| `Generation.BufferHoldsOnlyPredictions` | RNN/lstm.py:134-139 | after `k >= maxlen` steps the buffer holds only the last `maxlen` predictions |

## Left out

- The LSTM and Dense layers, `GradientTape`, the Adam/AMSGrad optimiser, the mean-squared-error loss and the `metrics.Mean` accumulators (RNN/lstm.py:17-32, 66-96): numerical library calls on floating point. The network is the parameter `predict`, the step functions only receive their arguments, and the metric results are the parameters `trainMetric` and `valMetric`.
- `sin` and `toy_problem` (RNN/lstm.py:34-43): floating-point trigonometry and random noise. The signal is any `seq<T>`.
- The randomness of `sklearn.utils.shuffle` (RNN/lstm.py:108): the permutation of each epoch is the parameter `perm`.
- The rule by which `train_test_split` turns `test_size=0.2` into a cut point (RNN/lstm.py:64): the cut is the parameter `cut`, and the library's refusal of an empty training set is not modelled (any `cut <= len(x)` is accepted).
- The `EarlyStopping` class (RNN/lstm.py:15, 105, 125): its module `callbacks` is not part of this model, so its decision rule is the parameter `stop`.
- Printing and plotting (RNN/lstm.py:46-49, 123, 143-150): output only.
- The reshapes `reshape(-1, maxlen, 1)` and `reshape(-1, 1)` (RNN/lstm.py:61-62, 139) and the `float32` cast only add unit axes or change the number format; inputs are `seq<seq<T>>` and targets `seq<T>`.
- Training.Train: the metric values are opaque per epoch; the model does not tie them to the losses of the batches fed in that epoch.
- Batching.FeedBatches: requires inputs and targets of equal length, which `shuffle` and `train_test_split` guarantee for every call in the script.
