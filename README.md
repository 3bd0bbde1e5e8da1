# CIF predictor (continuous integrate-and-fire), modelled in Dafny

This project models the exported CIF predictor of FunASR
(`funasr/export/models/predictor/cif.py`). It covers four parts:

- `sequence_mask`: builds the 0/1 validity matrix of a padded batch from per-row lengths.
- `CifPredictorV2.forward`, from the sigmoid output on. The scores are smoothed, de-noised and masked into per-frame weights (`alphas`). They are summed into `token_num`, and the scripted `cif` is applied.
- `CifPredictorV2.tail_process_fn`: the optional pre-step. It appends a synthetic tail weight and a zero hidden frame, and returns floor of the new weight sums.
- `cif`, the integrate-and-fire scan.
  - Each row carries a level (`integrate`) and a partial frame.
  - At each step the level grows by that frame's weight.
  - When it reaches the threshold, the row fires. The literal 1 is taken off the level, and the weight is split between the frame being emitted and the next one.
  - Finally each row's frames at the fired steps are kept, in time order, and right-padded with zero vectors. The padding width is the batch's largest rounded weight sum.

Modules:

- `Wrappers`: `Option` and `Result`.
- `Vectors`: exact real vectors, sums, weighted sums, and `torch.round`'s round-half-to-even.
- `SequenceMask`: `sequence_mask` and its errors.
- `Cif`:
  - the per-row specification (`Step`, `Run`, `FiredIndices`, `Selected`, `Pad`, `CifSpec`);
  - the imperative `cif`. `ScanTime` holds the loop over time, with one vectorised step per iteration in `AdvanceBatch`. `CompactRows` holds the loop over rows. `Cif` composes them and is proved equal to `CifSpec`.
- `CifProperties`: what the scan guarantees.
- `Predictor`: the alpha post-processing and `forward`.
- `TailProcess`: `tail_process_fn` as written, the corrected version, and the discrepancy between them.

Values are exact `real`s. Run-time errors of the torch calls are explicit `Failure` results:

| error | cause |
|---|---|
| `EmptyLengths` | `lengths.max()` of no lengths |
| `NegativeMaxlen` | `arange` with a negative bound |
| `EmptyBatch` | `.max()` over no rows |
| `EmptyTime` | `torch.stack` of no time steps |
| `NegativePadding` | `torch.zeros` of negative size, when a row fires more often than the padding width |

Tensor shape agreement is a precondition. A tensor of shape (B, T, d) is a `seq<seq<Vec>>`, and one of shape (B, T) is a `seq<seq<real>>`.

## Model

| member | source | states |
|---|---|---|
| Vectors.MaxOf | funasr/export/models/predictor/cif.py:11 | the maximum is one of the values and bounds all of them (`lengths.max()` here, `len_labels.max()` at line 112) |
| SequenceMask.Width | funasr/export/models/predictor/cif.py:10-12 | the column count is `maxlen` when given, else the largest length; it fails exactly when the lengths are empty without `maxlen` or the bound is negative |
| SequenceMask.SequenceMask | funasr/export/models/predictor/cif.py:9-17 | fails exactly when `Width` fails; otherwise one row per length, `Width` columns, entry [b][t] is 1 iff t < lengths[b] and 0 iff t >= lengths[b] |
| SequenceMask.PrefixMask | funasr/export/models/predictor/cif.py:12-14 | one row of `width` columns whose entry t is 1 iff t < length and 0 iff t >= length; for a length in [0, width] it is the prefix mask of that length |
| SequenceMask.MaskRowIsPrefix | funasr/export/models/predictor/cif.py:9-17 | with `maxlen` at least row b's length, the mask succeeds and row b is the prefix mask of that length, the hypothesis the predictor and tail lemmas take |
| SequenceMask.MaskRowIsOnesThenZeros | funasr/export/models/predictor/cif.py:12-14 | every row is a run of ones of the clamped length followed by zeros |
| SequenceMask.DefaultWidthHasFullRow | funasr/export/models/predictor/cif.py:10-14 | without `maxlen` some row is all ones |
| Cif.Initial | funasr/export/models/predictor/cif.py:80-81 | every row starts at level 0 with a zero frame |
| Cif.Step | funasr/export/models/predictor/cif.py:87-106 | the recorded fire is the old level plus alpha; `cur + remainds == alpha`; on a firing the level drops by exactly 1 and `cur` is `1 - level`, otherwise the level is kept and `cur == alpha` |
| Cif.StepConserves | funasr/export/models/predictor/cif.py:97-106 | on a firing the emitted frame is the old frame plus `(1 - level) * h` and the carried frame is `(alpha - (1 - level)) * h`, so together they are the old frame plus `alpha * h`; without a firing the frame accumulates and is not reset |
| Cif.Run | funasr/export/models/predictor/cif.py:86-106 | the scan records one fire and one frame per time step, frames of dimension d |
| Cif.FiredIndices | funasr/export/models/predictor/cif.py:115 | exactly the steps whose fire reaches the threshold, strictly ascending |
| Cif.FireCount | funasr/export/models/predictor/cif.py:115-116 | `l.size(0)`: at most one firing per step |
| Cif.Gather | funasr/export/models/predictor/cif.py:115 | `index_select` returns one frame per index, the frame at that index |
| Cif.Selected | funasr/export/models/predictor/cif.py:115 | one frame per firing, each the frame recorded at a step whose fire reached the threshold |
| Cif.Pad | funasr/export/models/predictor/cif.py:116-117 | the padded row has `width` entries: the selected frames, then zero vectors |
| Cif.LenLabels | funasr/export/models/predictor/cif.py:111 | one rounded whole-row alpha sum per row |
| Cif.RowTrace | funasr/export/models/predictor/cif.py:86-109 | row b's scan sees the first `len_time` alphas and records `len_time` fires and frames |
| Cif.CifSpec | funasr/export/models/predictor/cif.py:75-118 | no rows gives `EmptyBatch` and no time steps `EmptyTime`; on success there is one padded row of width `max(len_labels)` and one row of `len_time` fires per batch row |
| Cif.Column | funasr/export/models/predictor/cif.py:108-109 | `torch.stack(list, 1)`: column b has one entry per time step, the b-th entry of that step |
| Cif.AdvanceBatch | funasr/export/models/predictor/cif.py:87-106 | the vectorised updates of one time step take every row b exactly where `Step` takes it |
| Cif.ScanStart | funasr/export/models/predictor/cif.py:80-84 | before the loop every row is in the initial state and nothing is recorded, which is row b's `Run` over no frames |
| Cif.ScanTime | funasr/export/models/predictor/cif.py:79-106 | after the loop, column b of `list_fires` and `list_frames` is row b's `Run` trace |
| Cif.CompactRows | funasr/export/models/predictor/cif.py:113-117 | fails with the negative-padding error iff some row fires more than `max_label_len` times; otherwise each row is its fired frames padded to `max_label_len` |
| Cif.Cif | funasr/export/models/predictor/cif.py:75-118 | the imperative scan and compaction return exactly `CifSpec`: the errors for no rows, no time steps and negative padding, else the padded rows of selected frames and the fires |
| CifProperties.RunMass | funasr/export/models/predictor/cif.py:88-96 | total weight = number of firings + final level |
| CifProperties.NoFiredIndices | funasr/export/models/predictor/cif.py:115 | a row has no fired steps, and a fire count of zero, exactly when every fire stays below the threshold |
| CifProperties.ConservationStep | funasr/export/models/predictor/cif.py:97-106 | one step keeps emitted frames plus the running frame equal to the weighted content seen so far, now including `alpha * h` |
| CifProperties.RunConservation | funasr/export/models/predictor/cif.py:97-106 | the emitted frames plus the final un-emitted frame sum to the weighted content of the row |
| CifProperties.RunPrefix | funasr/export/models/predictor/cif.py:86-91 | the trace of a prefix of a row is the prefix of its trace |
| CifProperties.RunStepAt | funasr/export/models/predictor/cif.py:86-106 | the fire and frame recorded at step t, and the state after it, are `Step` applied to the state the first t steps leave |
| CifProperties.NoFireStep | funasr/export/models/predictor/cif.py:100-106 | a step that does not fire adds `alphas[t] * hidden[t]` to the running frame |
| CifProperties.FrameBetweenFirings | funasr/export/models/predictor/cif.py:97-106 | if no step in [i, j) fires, the frame after j steps is the frame after i steps plus the weighted frames i..j-1 |
| CifProperties.FiredStepFrame | funasr/export/models/predictor/cif.py:97-102 | a fired step t records the running frame plus `(1 - level) * hidden[t]` |
| CifProperties.CarryAfterFiring | funasr/export/models/predictor/cif.py:97-106 | after a fired step p the running frame is `(alphas[p] - (1 - level)) * hidden[p]` |
| CifProperties.FiredFrameContent | funasr/export/models/predictor/cif.py:86-106 | the frame emitted at a firing t whose previous firing is p (or none) is p's carry-over, plus the weighted frames strictly between p and t, plus `(1 - level) * hidden[t]` |
| CifProperties.FireCurve | funasr/export/models/predictor/cif.py:88-91 | `fires[t]` is the alpha sum through t less the firings before t |
| CifProperties.UnitThresholdLevel | funasr/export/models/predictor/cif.py:86-96 | with threshold 1 and alphas in [0, 1] the level stays in [0, 1) |
| CifProperties.UnitThresholdFireCount | funasr/export/models/predictor/cif.py:86-96 | with threshold 1 and alphas in [0, 1] a row fires floor(sum alphas) times |
| CifProperties.FiresThroughStep | funasr/export/models/predictor/cif.py:86-96 | ... and the firings through step t number floor of the alpha sum through t |
| CifProperties.FireCountNearRound | funasr/export/models/predictor/cif.py:93-96 | the fire count is at most the rounded weight and at most one below it |
| CifProperties.ZeroAlphasNeverFire | funasr/export/models/predictor/cif.py:90-93 | all-zero weights never fire and leave the level at 0 under a positive threshold |
| CifProperties.PaddedRowLayout | funasr/export/models/predictor/cif.py:114-117 | a padded row holds the frames at the fired steps in time order, then zero vectors up to the width |
| CifProperties.CifLayout | funasr/export/models/predictor/cif.py:108-118 | on success each output row is its fired frames in time order, then zero vectors up to `max(round(sum alphas))`, and `fires` has one entry per step |
| CifProperties.CifPaddingFailure | funasr/export/models/predictor/cif.py:111-116 | `cif` fails on the padding iff some row fires more often than the largest rounded alpha sum |
| CifProperties.PrefixSumBelow | funasr/export/models/predictor/cif.py:111 | with non-negative alphas the scanned prefix weighs at most the whole row that `len_labels` rounds |
| CifProperties.UnitRowFitsLabelLength | funasr/export/models/predictor/cif.py:111-116 | with threshold 1 a row's fire count fits its own rounded whole-row sum |
| CifProperties.CifSucceedsAtUnitThreshold | funasr/export/models/predictor/cif.py:108-118 | with threshold 1 and alphas in [0, 1] a non-empty batch never fails, and row b fires floor of its scanned sum |
| CifProperties.CifRowConservation | funasr/export/models/predictor/cif.py:97-117 | a successful output row (padding included) plus the final frame carries the row's whole weighted content |
| CifProperties.WorkedExample | funasr/export/models/predictor/cif.py:75-118 | alphas 0.3, 0.3, 0.5, 0.2 at threshold 1 fire once, at step 2, emitting `0.3 h0 + 0.3 h1 + 0.4 h2` and leaving level 0.3 and frame `0.1 h2 + 0.2 h3` |
| CifProperties.WorkedExampleWeight | funasr/export/models/predictor/cif.py:111 | the worked example's weight is 1.3 and rounds to 1 |
| Predictor.Relu | funasr/export/models/predictor/cif.py:43 | the result is non-negative, at least its argument, and is either the argument or 0 |
| Predictor.Denoised | funasr/export/models/predictor/cif.py:43 | the de-noised score is non-negative and at least `score * smooth_factor - noise_threshold` |
| Predictor.Alpha | funasr/export/models/predictor/cif.py:43-45 | a weight is 0 where the mask is 0, non-negative where the mask is, and the de-noised score where the mask is 1 |
| Predictor.ScoreAlphas | funasr/export/models/predictor/cif.py:43-47 | the weights have the scores' shape, are 0 wherever the mask is 0, and are non-negative wherever the mask is |
| Predictor.TokenNum | funasr/export/models/predictor/cif.py:49 | one entry per row |
| Predictor.AlphasBelowOne | funasr/export/models/predictor/cif.py:42-45 | sigmoid scores, a smoothing factor in [0, 1], a non-negative noise threshold and a 0/1 mask give weights in [0, 1) |
| Predictor.MaskedRowSum | funasr/export/models/predictor/cif.py:44-49 | one row under a prefix mask of length l sums to the de-noised scores of its first l frames |
| Predictor.TokenNumOverValidFrames | funasr/export/models/predictor/cif.py:44-49 | under a prefix mask of length l, `token_num[b]` is the sum of the de-noised scores over the first l frames |
| Predictor.ForwardSpec | funasr/export/models/predictor/cif.py:42-53 | `forward` succeeds exactly when `cif` on the post-processed alphas does and otherwise returns its error; on success it returns those alphas, `token_num[b]` equal to row b's alpha sum, and one embedding row and one fire row per batch row |
| Predictor.Forward | funasr/export/models/predictor/cif.py:42-53 | `forward` returns the `cif` outputs, `token_num` and the alphas, or `cif`'s error |
| Predictor.ForwardAtUnitThreshold | funasr/export/models/predictor/cif.py:42-53 | at threshold 1 `forward` succeeds on a non-empty batch; row b fires floor(token_num[b]) times, and those frames open row b of the embeddings |
| TailProcess.Boundary | funasr/export/models/predictor/cif.py:59-63 | the boundary vector is one longer than the mask |
| TailProcess.BoundaryOfPrefixMask | funasr/export/models/predictor/cif.py:59-64 | for a prefix mask of length l, with l = T included, the boundary is 1 at l and 0 elsewhere |
| TailProcess.BoundarySum | funasr/export/models/predictor/cif.py:61-64 | for any mask the boundary sums to 1 |
| TailProcess.ZeroFrameAppended | funasr/export/models/predictor/cif.py:67-68 | every hidden row keeps its frames and gains exactly one zero frame at the end |
| TailProcess.FloorSums | funasr/export/models/predictor/cif.py:69-70 | each entry is the largest integer not above its row's weight |
| TailProcess.TailProcessFn | funasr/export/models/predictor/cif.py:55-72 | as written, one output row per input row for hidden, alphas and `token_num_floor` |
| TailProcess.TailLayout | funasr/export/models/predictor/cif.py:65-72 | as written, the alphas are a prefix of the new alphas (their length is that of the alphas plus T + 1); hidden frames are kept and exactly one zero frame is appended; `token_num_floor = floor(sum alphas + tail_threshold)` |
| TailProcess.TailPlacement | funasr/export/models/predictor/cif.py:64-65 | as written, the appended block holds `tail_threshold` at offset l of a prefix mask and 0 elsewhere |
| TailProcess.TailWeightNotScanned | funasr/export/models/predictor/cif.py:65-68 | as written, with a non-empty prefix mask, the first T+1 new alphas (all that a scan over the T+1 frames reads) are the old ones and a 0 |
| TailProcess.TailWeightScannedWhenMaskEmpty | funasr/export/models/predictor/cif.py:59-65 | as written, for an all-zero mask row the first T+1 new alphas are the old ones and `tail_threshold`, so the tail weight is scanned on the appended frame |
| TailProcess.TailCounterexample | funasr/export/models/predictor/cif.py:55-72 | as written, one frame of weight 0.5 with tail 0.5 gives `token_num_floor` 1 while `cif` fires 0 times |
| TailProcess.CorrectedRow | funasr/export/models/predictor/cif.py:61-65 | corrected: a row of T weights becomes T+1 weights |
| TailProcess.CorrectedRowEntries | funasr/export/models/predictor/cif.py:59-65 | corrected: for a prefix mask of length l the weights are kept except that `tail_threshold` is added at position l |
| TailProcess.CorrectedRowSum | funasr/export/models/predictor/cif.py:61-70 | corrected: whatever the mask, the row weighs `tail_threshold` more than before |
| TailProcess.CorrectedRowLayout | funasr/export/models/predictor/cif.py:59-70 | corrected: both of the above for one row under a prefix mask |
| TailProcess.TailProcessCorrected | funasr/export/models/predictor/cif.py:61-70 | corrected: one output row per input row |
| TailProcess.CorrectedTailLayout | funasr/export/models/predictor/cif.py:61-70 | corrected: T+1 weights, unchanged except `tail_threshold` added at position l; one zero frame appended; `token_num_floor = floor(sum alphas + tail_threshold)` |
| TailProcess.CorrectedTailFiresTokenNumFloor | funasr/export/models/predictor/cif.py:55-72 | corrected: with zero-weighted padding, weights in [0, 1] and a tail in [0, 1], `cif` at threshold 1 succeeds and fires exactly `token_num_floor` times per row |
| Vectors.RoundHalfEven | funasr/export/models/predictor/cif.py:111 | `torch.round` is within 1/2 of its argument, is floor or floor + 1, and breaks ties to the even integer |

## Left out

- The trained layers `pad`, `cif_conv1d` and `cif_output`, and `torch.sigmoid` (lines 35-42) are learned projections and a transcendental function. Their output is the input `scores` of `Predictor.Forward`. `Predictor.AlphasBelowOne` assumes those scores lie in (0, 1).
- Floating point is not modelled. Every value is an exact real, so rounding in the additions is absent.
- dtypes, devices, `detach` and `torch.tensor([threshold])` have no effect on values and are not modelled.
- Tensor aliasing is not modelled. The in-place `integrate += alpha` and `frame += ...` versus the copies made by `torch.where` are not distinguished. The model records, as the code's own lists end up holding, the level right after adding alpha and the frame right after adding `cur * h`.
- The `nonzero(...).squeeze()` shape quirk is not modelled. The selection is the ordered list of fired steps.
- `torch.jit.script`, tracing, export, and the test drivers at lines 121-168 are tooling and file I/O, and are not modelled.
- Shape errors of mismatched tensors are not modelled: agreeing shapes are preconditions (`WellShaped`, `Inputs`, `TailInputs`). The singleton axis of the (B, 1, T) forward mask is flattened, so the mask enters as (B, T).
- Cif.Cif: `len_time` is read as the frame count of the first row, and a batch of no rows is reported as `EmptyBatch` even when there are also no time steps. In the source both would raise; which error comes first is not modelled.
- SequenceMask.SequenceMask: negative lengths are not rejected, because the code does not reject them; such a row is all zeros.
- TailProcess.TailProcessFn: the `mask=None` default (line 55) is not modelled. With it, the concatenation at line 61 raises, so the model takes the mask as a required argument. The `token_num` argument is overwritten at line 69 and is dropped.
- Predictor.Forward: the mask is used as given; whether it is 0/1 is a hypothesis of the lemmas (`BinaryMask`), as when the mask comes from `sequence_mask`.

## Findings

| source | as written | input that shows it | evidently intended | confidence | as-written member | corrected member |
|---|---|---|---|---|---|---|
| funasr/export/models/predictor/cif.py:65 | the scaled boundary (T+1 entries) is concatenated after the T alphas, giving 2T+1 weights for T+1 frames; for every row with a non-empty prefix mask, a scan over the new frames reads the old alphas and a 0, so the tail weight is never integrated (an all-zero mask row is the exception: its tail weight lands on the appended frame) | one frame, alphas [0.5], mask [1], tail_threshold 0.5: `token_num_floor` is 1, but `cif` at threshold 1 fires 0 times | append one zero weight and add the scaled boundary elementwise, so the tail weight lands on the first padded frame and the scan fires `token_num_floor` times | high; not executed | TailProcess.TailCounterexample | TailProcess.CorrectedTailFiresTokenNumFloor |
