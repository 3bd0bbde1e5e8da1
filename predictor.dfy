/**
  `CifPredictorV2.forward` after its trained layers: the sigmoid scores are
  smoothed, de-noised and masked into per-frame weights (alphas), summed into
  the token number, and handed with the hidden frames to `cif`.
 */
module Predictor {
  import opened Wrappers
  import opened Vectors
  import opened Cif
  import CifProperties
  import SequenceMask

  /** The four scalars the predictor copies from the trained model. */
  datatype Config = Config(threshold: real, smoothFactor: real, noiseThreshold: real, tailThreshold: real)

  function Relu(x: real): (r: real)
    ensures r >= 0.0 && r >= x
    ensures r == x || r == 0.0
  {
    if x > 0.0 then x else 0.0
  }

  /** A batch of per-frame scalars shaped like the hidden frames' first two axes. */
  predicate FrameShaped(hidden: seq<seq<Vec>>, xs: seq<seq<real>>) {
    |xs| == |hidden| && forall b :: 0 <= b < |xs| ==> |xs[b]| == |hidden[b]|
  }

  /** The inputs of `forward` agree in shape: `hidden` is (B, T, d), and the sigmoid
      scores and the (transposed, squeezed) mask are (B, T). */
  predicate Inputs(hidden: seq<seq<Vec>>, scores: seq<seq<real>>, mask: seq<seq<real>>, d: nat) {
    (forall b :: 0 <= b < |hidden| ==> |hidden[b]| == |hidden[0]| && Dim(hidden[b], d)) &&
    FrameShaped(hidden, scores) && FrameShaped(hidden, mask)
  }

  /** The de-noised score `relu(score * smooth_factor - noise_threshold)`. */
  function Denoised(score: real, smoothFactor: real, noiseThreshold: real): (a: real)
    ensures a >= 0.0 && a >= score * smoothFactor - noiseThreshold
  {
    Relu(score * smoothFactor - noiseThreshold)
  }

  /** One weight: the de-noised score times the mask. */
  function Alpha(score: real, mask: real, smoothFactor: real, noiseThreshold: real): (a: real)
    ensures mask == 0.0 ==> a == 0.0
    ensures mask >= 0.0 ==> a >= 0.0
    ensures mask == 1.0 ==> a == Denoised(score, smoothFactor, noiseThreshold)
  {
    Denoised(score, smoothFactor, noiseThreshold) * mask
  }

  /** The weights of a batch, entry by entry. */
  function ScoreAlphas(scores: seq<seq<real>>, mask: seq<seq<real>>, smoothFactor: real, noiseThreshold: real)
    : (alphas: seq<seq<real>>)
    requires |mask| == |scores| && forall b :: 0 <= b < |scores| ==> |mask[b]| == |scores[b]|
    ensures |alphas| == |scores|
    ensures forall b :: 0 <= b < |scores| ==> |alphas[b]| == |scores[b]|
    ensures forall b, t :: 0 <= b < |scores| && 0 <= t < |scores[b]| && mask[b][t] == 0.0 ==> alphas[b][t] == 0.0
    ensures forall b, t :: 0 <= b < |scores| && 0 <= t < |scores[b]| && mask[b][t] >= 0.0 ==> alphas[b][t] >= 0.0
  {
    seq(|scores|, b requires 0 <= b < |scores| =>
      seq(|scores[b]|, t requires 0 <= t < |scores[b]| =>
        Alpha(scores[b][t], mask[b][t], smoothFactor, noiseThreshold)))
  }

  /** `token_num = alphas.sum(-1)`. */
  function TokenNum(alphas: seq<seq<real>>): (n: seq<real>)
    ensures |n| == |alphas|
  {
    seq(|alphas|, b requires 0 <= b < |alphas| => Sum(alphas[b]))
  }

  /** The four tensors `forward` returns. */
  datatype ForwardOutput = ForwardOutput(acousticEmbeds: seq<seq<Vec>>, tokenNum: seq<real>,
                                         alphas: seq<seq<real>>, cifPeak: seq<seq<real>>)

  function ForwardSpec(cfg: Config, hidden: seq<seq<Vec>>, scores: seq<seq<real>>, mask: seq<seq<real>>, d: nat)
    : (r: Result<ForwardOutput, CifError>)
    requires Inputs(hidden, scores, mask, d)
    ensures var alphas := ScoreAlphas(scores, mask, cfg.smoothFactor, cfg.noiseThreshold);
            WellShaped(hidden, alphas, d) && (r.Success? <==> CifSpec(hidden, alphas, cfg.threshold, d).Success?)
    ensures r.Failure? ==> r.error == CifSpec(hidden, ScoreAlphas(scores, mask, cfg.smoothFactor, cfg.noiseThreshold), cfg.threshold, d).error
    ensures r.Success? ==>
              |r.value.acousticEmbeds| == |r.value.cifPeak| == |r.value.tokenNum| == |r.value.alphas| == |hidden| &&
              r.value.alphas == ScoreAlphas(scores, mask, cfg.smoothFactor, cfg.noiseThreshold) &&
              forall b :: 0 <= b < |hidden| ==> r.value.tokenNum[b] == Sum(r.value.alphas[b])
  {
    var alphas := ScoreAlphas(scores, mask, cfg.smoothFactor, cfg.noiseThreshold);
    assert WellShaped(hidden, alphas, d);
    var tokenNum := TokenNum(alphas);
    assert forall b :: 0 <= b < |hidden| ==> tokenNum[b] == Sum(alphas[b]);
    match CifSpec(hidden, alphas, cfg.threshold, d)
    case Failure(e) => Failure(e)
    case Success(o) => Success(ForwardOutput(o.embeds, tokenNum, alphas, o.fires))
  }

  /** The source's `forward`, from the sigmoid scores on. */
  method Forward(cfg: Config, hidden: seq<seq<Vec>>, scores: seq<seq<real>>, mask: seq<seq<real>>, d: nat)
    returns (r: Result<ForwardOutput, CifError>)
    requires Inputs(hidden, scores, mask, d)
    ensures r == ForwardSpec(cfg, hidden, scores, mask, d)
  {
    var alphas := ScoreAlphas(scores, mask, cfg.smoothFactor, cfg.noiseThreshold);
    var tokenNum := TokenNum(alphas);
    var peaks := Cif.Cif(hidden, alphas, cfg.threshold, d);
    match peaks
    case Failure(e) =>
      r := Failure(e);
    case Success(o) =>
      r := Success(ForwardOutput(o.embeds, tokenNum, alphas, o.fires));
  }

  /** A sigmoid score lies strictly inside (0, 1). */
  predicate SigmoidRange(scores: seq<seq<real>>) {
    forall b, t :: 0 <= b < |scores| && 0 <= t < |scores[b]| ==> 0.0 < scores[b][t] < 1.0
  }

  /** Every entry of the mask is 0 or 1. */
  predicate BinaryMask(mask: seq<seq<real>>) {
    forall b, t :: 0 <= b < |mask| && 0 <= t < |mask[b]| ==> mask[b][t] == 0.0 || mask[b][t] == 1.0
  }

  /** With a smoothing factor in [0, 1] and a non-negative noise threshold, every
      weight lies in [0, 1). */
  lemma AlphasBelowOne(scores: seq<seq<real>>, mask: seq<seq<real>>, smoothFactor: real, noiseThreshold: real)
    requires |mask| == |scores| && forall b :: 0 <= b < |scores| ==> |mask[b]| == |scores[b]|
    requires SigmoidRange(scores) && BinaryMask(mask)
    requires 0.0 <= smoothFactor <= 1.0 && noiseThreshold >= 0.0
    ensures var alphas := ScoreAlphas(scores, mask, smoothFactor, noiseThreshold);
            forall b, t :: 0 <= b < |alphas| && 0 <= t < |alphas[b]| ==> 0.0 <= alphas[b][t] < 1.0
  {
    var alphas := ScoreAlphas(scores, mask, smoothFactor, noiseThreshold);
    forall b, t | 0 <= b < |alphas| && 0 <= t < |alphas[b]|
      ensures 0.0 <= alphas[b][t] < 1.0
    {
      var s := scores[b][t];
      assert s * smoothFactor <= s by {
        assert s * (1.0 - smoothFactor) >= 0.0;
      }
    }
  }

  /** One row under a prefix mask of length `l`: its weights sum to the de-noised
      scores of its first `l` frames. */
  lemma MaskedRowSum(s: seq<real>, m: seq<real>, smoothFactor: real, noiseThreshold: real, l: nat)
    requires |m| == |s| && SequenceMask.PrefixOf(m, l)
    ensures Sum(seq(|s|, t requires 0 <= t < |s| => Alpha(s[t], m[t], smoothFactor, noiseThreshold))) ==
            Sum(seq(l, t requires 0 <= t < l => Denoised(s[t], smoothFactor, noiseThreshold)))
  {
    var row := seq(|s|, t requires 0 <= t < |s| => Alpha(s[t], m[t], smoothFactor, noiseThreshold));
    var valid := seq(l, t requires 0 <= t < l => Denoised(s[t], smoothFactor, noiseThreshold));
    var padded := row[l..];
    assert row[..l] == valid by {
      forall t | 0 <= t < l ensures row[..l][t] == valid[t] {
        assert m[t] == 1.0;
        assert row[..l][t] == row[t] == Alpha(s[t], m[t], smoothFactor, noiseThreshold);
        assert valid[t] == Denoised(s[t], smoothFactor, noiseThreshold);
      }
    }
    assert row == valid + padded by {
      assert row == row[..l] + row[l..];
    }
    forall t | 0 <= t < |padded| ensures padded[t] == 0.0 {
      assert padded[t] == row[l + t];
      assert m[l + t] == 0.0;
    }
    SumAppend(valid, padded);
    SumOfZeros(padded);
  }

  /** For a mask row that is a prefix of `l` ones, the token number is the sum of
      the de-noised scores over the first `l` frames: padding contributes nothing. */
  lemma TokenNumOverValidFrames(scores: seq<seq<real>>, mask: seq<seq<real>>, smoothFactor: real,
                                noiseThreshold: real, b: nat, l: nat)
    requires |mask| == |scores| && forall b :: 0 <= b < |scores| ==> |mask[b]| == |scores[b]|
    requires b < |scores| && SequenceMask.PrefixOf(mask[b], l)
    ensures TokenNum(ScoreAlphas(scores, mask, smoothFactor, noiseThreshold))[b] ==
            Sum(seq(l, t requires 0 <= t < l => Denoised(scores[b][t], smoothFactor, noiseThreshold)))
  {
    MaskedRowSum(scores[b], mask[b], smoothFactor, noiseThreshold, l);
    assert ScoreAlphas(scores, mask, smoothFactor, noiseThreshold)[b] ==
           seq(|scores[b]|, t requires 0 <= t < |scores[b]| => Alpha(scores[b][t], mask[b][t], smoothFactor, noiseThreshold));
  }

  /** At threshold 1, with sigmoid scores, a binary mask, a smoothing factor in
      [0, 1] and a non-negative noise threshold, `forward` on a non-empty batch
      succeeds; row b fires exactly floor(token_num[b]) times, and those fired
      frames, in time order, open row b of the embeddings. */
  lemma ForwardAtUnitThreshold(cfg: Config, hidden: seq<seq<Vec>>, scores: seq<seq<real>>, mask: seq<seq<real>>, d: nat)
    requires Inputs(hidden, scores, mask, d) && |hidden| > 0 && |hidden[0]| > 0
    requires cfg.threshold == 1.0 && 0.0 <= cfg.smoothFactor <= 1.0 && cfg.noiseThreshold >= 0.0
    requires SigmoidRange(scores) && BinaryMask(mask)
    ensures ForwardSpec(cfg, hidden, scores, mask, d).Success?
    ensures var o := ForwardSpec(cfg, hidden, scores, mask, d).value;
            forall b :: 0 <= b < |hidden| ==>
              var tr := RowTrace(hidden, o.alphas, 1.0, d, b);
              FireCount(tr.fires, 1.0) == o.tokenNum[b].Floor &&
              o.acousticEmbeds[b][..FireCount(tr.fires, 1.0)] == Selected(tr.fires, tr.frames, 1.0)
  {
    var alphas := ScoreAlphas(scores, mask, cfg.smoothFactor, cfg.noiseThreshold);
    AlphasBelowOne(scores, mask, cfg.smoothFactor, cfg.noiseThreshold);
    forall b | 0 <= b < |alphas| ensures CifProperties.UnitAlphas(alphas[b]) {
    }
    CifProperties.CifSucceedsAtUnitThreshold(hidden, alphas, d);
    var o := ForwardSpec(cfg, hidden, scores, mask, d).value;
    forall b | 0 <= b < |hidden|
      ensures var tr := RowTrace(hidden, o.alphas, 1.0, d, b);
              FireCount(tr.fires, 1.0) == o.tokenNum[b].Floor &&
              o.acousticEmbeds[b][..FireCount(tr.fires, 1.0)] == Selected(tr.fires, tr.frames, 1.0)
    {
      assert alphas[b][..|hidden[0]|] == alphas[b];
      CifProperties.CifLayout(hidden, alphas, 1.0, d, b);
    }
  }
}
