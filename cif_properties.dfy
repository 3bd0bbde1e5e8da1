/**
  What the integrate-and-fire scan guarantees: conservation of weight and of
  weighted content, the fire count as the floor of the alpha sum when the
  threshold is 1, the fire curve, the time order and padding of the compacted
  rows, and when the padding can and cannot fail.
 */
module CifProperties {
  import opened Wrappers
  import opened Vectors
  import opened Cif

  lemma FiredIndicesSnoc(fires: seq<real>, x: real, threshold: real)
    ensures FiredIndices(fires + [x], threshold) ==
              FiredIndices(fires, threshold) + (if x >= threshold then [|fires|] else [])
  {
    assert (fires + [x])[..|fires|] == fires;
  }

  /** Gathering from a longer row at the same positions, plus possibly the new last one. */
  lemma GatherSnoc(frames: seq<Vec>, y: Vec, idx: seq<nat>, fired: bool)
    requires forall i :: 0 <= i < |idx| ==> idx[i] < |frames|
    ensures var idx' := idx + (if fired then [|frames|] else []);
            (forall i :: 0 <= i < |idx'| ==> idx'[i] < |frames + [y]|) &&
            Gather(frames + [y], idx') == Gather(frames, idx) + (if fired then [y] else [])
  {
    var idx' := idx + (if fired then [|frames|] else []);
    var lhs := Gather(frames + [y], idx');
    var rhs := Gather(frames, idx) + (if fired then [y] else []);
    assert |lhs| == |rhs|;
    forall i | 0 <= i < |lhs| ensures lhs[i] == rhs[i] {
      if i < |idx| {
        assert idx'[i] == idx[i];
      }
    }
  }

  lemma SelectedSnoc(fires: seq<real>, frames: seq<Vec>, x: real, y: Vec, threshold: real)
    requires |fires| == |frames|
    ensures Selected(fires + [x], frames + [y], threshold) ==
              Selected(fires, frames, threshold) + (if x >= threshold then [y] else [])
  {
    FiredIndicesSnoc(fires, x, threshold);
    var idx := FiredIndices(fires, threshold);
    var idx' := FiredIndices(fires + [x], threshold);
    GatherSnoc(frames, y, idx, x >= threshold);
  }

  /** The last state's level plus the number of firings is the total weight. */
  lemma {:induction false} RunMass(alphas: seq<real>, hidden: seq<Vec>, threshold: real, d: nat)
    requires |alphas| == |hidden| && Dim(hidden, d)
    ensures var r := Run(alphas, hidden, threshold, d);
            Sum(alphas) == FireCount(r.fires, threshold) as real + r.last.integrate
    decreases |alphas|
  {
    if |alphas| > 0 {
      var n := |alphas| - 1;
      assert Dim(hidden[..n], d);
      var p := Run(alphas[..n], hidden[..n], threshold, d);
      var o := Step(p.last, alphas[n], hidden[n], threshold);
      RunMass(alphas[..n], hidden[..n], threshold, d);
      FiredIndicesSnoc(p.fires, o.fire, threshold);
    }
  }

  /** One step keeps the frames emitted so far plus the running frame equal to the
      weighted content seen so far, now including `alpha * h`. */
  lemma ConservationStep(before: seq<Vec>, s: State, alpha: real, h: Vec, threshold: real, d: nat)
    requires Dim(before, d) && |s.frame| == d && |h| == d
    ensures var o := Step(s, alpha, h, threshold);
            var emitted := before + (if o.fire >= threshold then [o.frame] else []);
            Dim(emitted, d) &&
            Add(VSum(emitted, d), o.next.frame) == Add(Add(VSum(before, d), s.frame), Scale(alpha, h))
  {
    var o := Step(s, alpha, h, threshold);
    var emitted := before + (if o.fire >= threshold then [o.frame] else []);
    StepConserves(s, alpha, h, threshold);
    var contribution := Scale(alpha, h);
    if o.fire >= threshold {
      assert emitted == before + [o.frame];
      assert emitted[..|emitted| - 1] == before;
      assert VSum(emitted, d) == Add(VSum(before, d), o.frame);
      AddAssoc(VSum(before, d), o.frame, o.next.frame);
      AddAssoc(VSum(before, d), s.frame, contribution);
    } else {
      assert emitted == before;
      AddAssoc(VSum(before, d), s.frame, contribution);
    }
  }

  /** Conservation of content: the frames emitted at the fired steps plus the
      final un-emitted frame add up to `sum_t alphas[t] * hidden[t]`. */
  lemma {:induction false} RunConservation(alphas: seq<real>, hidden: seq<Vec>, threshold: real, d: nat)
    requires |alphas| == |hidden| && Dim(hidden, d)
    ensures var r := Run(alphas, hidden, threshold, d);
            var emitted := Selected(r.fires, r.frames, threshold);
            Dim(emitted, d) && Add(VSum(emitted, d), r.last.frame) == WeightedSum(alphas, hidden, d)
    decreases |alphas|
  {
    var r := Run(alphas, hidden, threshold, d);
    if |alphas| == 0 {
      assert r == Trace([], [], Initial(d));
      assert Selected(r.fires, r.frames, threshold) == [];
      AddZeros(Zeros(d));
    } else {
      var n := |alphas| - 1;
      assert Dim(hidden[..n], d);
      var p := Run(alphas[..n], hidden[..n], threshold, d);
      var o := Step(p.last, alphas[n], hidden[n], threshold);
      assert r == Trace(p.fires + [o.fire], p.frames + [o.frame], o.next);
      assert WeightedSum(alphas, hidden, d) ==
             Add(WeightedSum(alphas[..n], hidden[..n], d), Scale(alphas[n], hidden[n]));
      var before := Selected(p.fires, p.frames, threshold);
      assert Dim(before, d) && Add(VSum(before, d), p.last.frame) == WeightedSum(alphas[..n], hidden[..n], d) by {
        RunConservation(alphas[..n], hidden[..n], threshold, d);
      }
      assert Selected(r.fires, r.frames, threshold) ==
             before + (if o.fire >= threshold then [o.frame] else []) by {
        SelectedSnoc(p.fires, p.frames, o.fire, o.frame, threshold);
      }
      var emitted := Selected(r.fires, r.frames, threshold);
      ConservationStep(before, p.last, alphas[n], hidden[n], threshold, d);
      assert Dim(emitted, d);
      assert Add(VSum(emitted, d), r.last.frame) ==
             Add(Add(VSum(before, d), p.last.frame), Scale(alphas[n], hidden[n]));
    }
  }

  /** The trace of a prefix of the row is the prefix of the trace. */
  lemma {:induction false} RunPrefix(alphas: seq<real>, hidden: seq<Vec>, threshold: real, d: nat, k: nat)
    requires |alphas| == |hidden| && Dim(hidden, d) && k <= |alphas|
    ensures Dim(hidden[..k], d)
    ensures Run(alphas[..k], hidden[..k], threshold, d).fires == Run(alphas, hidden, threshold, d).fires[..k]
    ensures Run(alphas[..k], hidden[..k], threshold, d).frames == Run(alphas, hidden, threshold, d).frames[..k]
    decreases |alphas|
  {
    assert Dim(hidden[..k], d);
    if k == |alphas| {
      assert alphas[..k] == alphas && hidden[..k] == hidden;
    } else {
      var n := |alphas| - 1;
      assert Dim(hidden[..n], d);
      RunPrefix(alphas[..n], hidden[..n], threshold, d, k);
      assert alphas[..n][..k] == alphas[..k];
      assert hidden[..n][..k] == hidden[..k];
    }
  }

  /** Step t of a row, read off the whole row's trace: the recorded frame and the
      state after it are `Step` applied to the state the first t steps leave. */
  lemma RunStepAt(alphas: seq<real>, hidden: seq<Vec>, threshold: real, d: nat, t: nat)
    requires |alphas| == |hidden| && Dim(hidden, d) && t < |alphas|
    ensures Dim(hidden[..t], d) && Dim(hidden[..t + 1], d)
    ensures var p := Run(alphas[..t], hidden[..t], threshold, d);
            var o := Step(p.last, alphas[t], hidden[t], threshold);
            Run(alphas, hidden, threshold, d).fires[t] == o.fire &&
            Run(alphas, hidden, threshold, d).frames[t] == o.frame &&
            Run(alphas[..t + 1], hidden[..t + 1], threshold, d).last == o.next
  {
    RunPrefix(alphas, hidden, threshold, d, t + 1);
    RowAdvance(alphas, hidden, threshold, d, t);
  }

  /** A step that does not fire adds its weighted frame to the running frame. */
  lemma NoFireStep(alphas: seq<real>, hidden: seq<Vec>, threshold: real, d: nat, n: nat)
    requires |alphas| == |hidden| && Dim(hidden, d) && n < |alphas|
    requires Run(alphas, hidden, threshold, d).fires[n] < threshold
    ensures Dim(hidden[..n], d) && Dim(hidden[..n + 1], d)
    ensures Run(alphas[..n + 1], hidden[..n + 1], threshold, d).last.frame ==
            Add(Run(alphas[..n], hidden[..n], threshold, d).last.frame, Scale(alphas[n], hidden[n]))
  {
    RunStepAt(alphas, hidden, threshold, d, n);
    var p := Run(alphas[..n], hidden[..n], threshold, d);
    StepConserves(p.last, alphas[n], hidden[n], threshold);
  }

  /** The weighted sum of a slice grows by one term as the slice does. */
  lemma WeightedSliceSnoc(alphas: seq<real>, hidden: seq<Vec>, d: nat, i: nat, n: nat)
    requires |alphas| == |hidden| && Dim(hidden, d) && i <= n < |alphas|
    ensures Dim(hidden[i..n], d) && Dim(hidden[i..n + 1], d)
    ensures WeightedSum(alphas[i..n + 1], hidden[i..n + 1], d) ==
            Add(WeightedSum(alphas[i..n], hidden[i..n], d), Scale(alphas[n], hidden[n]))
  {
    assert Dim(hidden[i..n], d) && Dim(hidden[i..n + 1], d);
    assert alphas[i..n + 1][..n - i] == alphas[i..n];
    assert hidden[i..n + 1][..n - i] == hidden[i..n];
  }

  /** Between firings the frame accumulates: if no step in [i, j) fires, the frame
      after j steps is the frame after i steps plus `sum_{i <= t < j} alphas[t] * hidden[t]`. */
  lemma {:induction false} FrameBetweenFirings(alphas: seq<real>, hidden: seq<Vec>, threshold: real, d: nat,
                                               i: nat, j: nat)
    requires |alphas| == |hidden| && Dim(hidden, d) && i <= j <= |alphas|
    requires forall t :: i <= t < j ==> Run(alphas, hidden, threshold, d).fires[t] < threshold
    ensures Dim(hidden[..i], d) && Dim(hidden[..j], d) && Dim(hidden[i..j], d)
    ensures Run(alphas[..j], hidden[..j], threshold, d).last.frame ==
            Add(Run(alphas[..i], hidden[..i], threshold, d).last.frame, WeightedSum(alphas[i..j], hidden[i..j], d))
    decreases j - i
  {
    assert Dim(hidden[..i], d) && Dim(hidden[..j], d) && Dim(hidden[i..j], d);
    var base := Run(alphas[..i], hidden[..i], threshold, d).last.frame;
    if j == i {
      assert alphas[i..j] == [];
      AddZeros(base);
    } else {
      var n := j - 1;
      FrameBetweenFirings(alphas, hidden, threshold, d, i, n);
      NoFireStep(alphas, hidden, threshold, d, n);
      WeightedSliceSnoc(alphas, hidden, d, i, n);
      AddAssoc(base, WeightedSum(alphas[i..n], hidden[i..n], d), Scale(alphas[n], hidden[n]));
    }
  }

  /** A fired step t records the running frame topped up with `(1 - level) * hidden[t]`. */
  lemma FiredStepFrame(alphas: seq<real>, hidden: seq<Vec>, threshold: real, d: nat, t: nat)
    requires |alphas| == |hidden| && Dim(hidden, d) && t < |alphas|
    requires Run(alphas, hidden, threshold, d).fires[t] >= threshold
    ensures Dim(hidden[..t], d)
    ensures var q := Run(alphas[..t], hidden[..t], threshold, d).last;
            Run(alphas, hidden, threshold, d).frames[t] == Add(q.frame, Scale(1.0 - q.integrate, hidden[t]))
  {
    RunStepAt(alphas, hidden, threshold, d, t);
    var q := Run(alphas[..t], hidden[..t], threshold, d);
    StepConserves(q.last, alphas[t], hidden[t], threshold);
  }

  /** After a fired step p the running frame is the carry-over `(alphas[p] - (1 - level)) * hidden[p]`. */
  lemma CarryAfterFiring(alphas: seq<real>, hidden: seq<Vec>, threshold: real, d: nat, p: nat)
    requires |alphas| == |hidden| && Dim(hidden, d) && p < |alphas|
    requires Run(alphas, hidden, threshold, d).fires[p] >= threshold
    ensures Dim(hidden[..p], d) && Dim(hidden[..p + 1], d)
    ensures Run(alphas[..p + 1], hidden[..p + 1], threshold, d).last.frame ==
            Scale(alphas[p] - (1.0 - Run(alphas[..p], hidden[..p], threshold, d).last.integrate), hidden[p])
  {
    RunStepAt(alphas, hidden, threshold, d, p);
    var q := Run(alphas[..p], hidden[..p], threshold, d);
    StepConserves(q.last, alphas[p], hidden[p], threshold);
  }

  /** What a fired step emits: if step p fired (or p = -1, the start) and no step
      strictly between p and t fires, the frame recorded at a fired step t is the
      carry-over of p, plus the weighted frames between them, plus `(1 - level) * hidden[t]`. */
  lemma FiredFrameContent(alphas: seq<real>, hidden: seq<Vec>, threshold: real, d: nat, p: int, t: nat)
    requires |alphas| == |hidden| && Dim(hidden, d) && -1 <= p < t < |alphas|
    requires p >= 0 ==> Run(alphas, hidden, threshold, d).fires[p] >= threshold
    requires Run(alphas, hidden, threshold, d).fires[t] >= threshold
    requires forall s :: p < s < t ==> Run(alphas, hidden, threshold, d).fires[s] < threshold
    ensures Dim(hidden[..t], d) && Dim(hidden[p + 1..t], d)
    ensures var carry := if p < 0 then Zeros(d)
                         else Scale(alphas[p] - (1.0 - Run(alphas[..p], hidden[..p], threshold, d).last.integrate), hidden[p]);
            var level := Run(alphas[..t], hidden[..t], threshold, d).last.integrate;
            Run(alphas, hidden, threshold, d).frames[t] ==
              Add(Add(carry, WeightedSum(alphas[p + 1..t], hidden[p + 1..t], d)), Scale(1.0 - level, hidden[t]))
  {
    FrameBetweenFirings(alphas, hidden, threshold, d, p + 1, t);
    FiredStepFrame(alphas, hidden, threshold, d, t);
    if p >= 0 {
      CarryAfterFiring(alphas, hidden, threshold, d, p);
    } else {
      assert alphas[..0] == [] && hidden[..0] == [];
    }
  }

  /** The fire curve: `fires[t]` is the alpha sum through step t less the firings before t. */
  lemma FireCurve(alphas: seq<real>, hidden: seq<Vec>, threshold: real, d: nat, t: nat)
    requires |alphas| == |hidden| && Dim(hidden, d) && t < |alphas|
    ensures var fires := Run(alphas, hidden, threshold, d).fires;
            fires[t] == Sum(alphas[..t + 1]) - FireCount(fires[..t], threshold) as real
  {
    RunStepAt(alphas, hidden, threshold, d, t);
    RunPrefix(alphas, hidden, threshold, d, t);
    RunMass(alphas[..t], hidden[..t], threshold, d);
    assert alphas[..t + 1][..t] == alphas[..t];
  }

  predicate UnitAlphas(alphas: seq<real>) {
    forall t :: 0 <= t < |alphas| ==> 0.0 <= alphas[t] <= 1.0
  }

  /** With threshold 1 and every alpha in [0, 1] the level stays in [0, 1). */
  lemma {:induction false} UnitThresholdLevel(alphas: seq<real>, hidden: seq<Vec>, d: nat)
    requires |alphas| == |hidden| && Dim(hidden, d) && UnitAlphas(alphas)
    ensures 0.0 <= Run(alphas, hidden, 1.0, d).last.integrate < 1.0
    decreases |alphas|
  {
    if |alphas| > 0 {
      var n := |alphas| - 1;
      assert Dim(hidden[..n], d);
      UnitThresholdLevel(alphas[..n], hidden[..n], d);
    }
  }

  /** With threshold 1 and every alpha in [0, 1] the row fires floor(sum alphas) times. */
  lemma UnitThresholdFireCount(alphas: seq<real>, hidden: seq<Vec>, d: nat)
    requires |alphas| == |hidden| && Dim(hidden, d) && UnitAlphas(alphas)
    ensures FireCount(Run(alphas, hidden, 1.0, d).fires, 1.0) == Sum(alphas).Floor
  {
    RunMass(alphas, hidden, 1.0, d);
    UnitThresholdLevel(alphas, hidden, d);
  }

  /** ... and so, step by step, the firings through step t are floor of the sum through t. */
  lemma FiresThroughStep(alphas: seq<real>, hidden: seq<Vec>, d: nat, t: nat)
    requires |alphas| == |hidden| && Dim(hidden, d) && UnitAlphas(alphas) && t < |alphas|
    ensures FireCount(Run(alphas, hidden, 1.0, d).fires[..t + 1], 1.0) == Sum(alphas[..t + 1]).Floor
  {
    RunPrefix(alphas, hidden, 1.0, d, t + 1);
    UnitThresholdFireCount(alphas[..t + 1], hidden[..t + 1], d);
  }

  /** The fire count and `torch.round` of the weight differ by at most one. */
  lemma FireCountNearRound(alphas: seq<real>, hidden: seq<Vec>, d: nat)
    requires |alphas| == |hidden| && Dim(hidden, d) && UnitAlphas(alphas)
    ensures var n := FireCount(Run(alphas, hidden, 1.0, d).fires, 1.0);
            n <= RoundHalfEven(Sum(alphas)) <= n + 1
  {
    UnitThresholdFireCount(alphas, hidden, d);
  }

  /** A row whose alphas are all zero never fires when the threshold is positive. */
  lemma {:induction false} ZeroAlphasNeverFire(alphas: seq<real>, hidden: seq<Vec>, threshold: real, d: nat)
    requires |alphas| == |hidden| && Dim(hidden, d) && threshold > 0.0
    requires forall t :: 0 <= t < |alphas| ==> alphas[t] == 0.0
    ensures var r := Run(alphas, hidden, threshold, d);
            FireCount(r.fires, threshold) == 0 && r.last.integrate == 0.0
    decreases |alphas|
  {
    if |alphas| > 0 {
      var n := |alphas| - 1;
      assert Dim(hidden[..n], d);
      var p := Run(alphas[..n], hidden[..n], threshold, d);
      var o := Step(p.last, alphas[n], hidden[n], threshold);
      ZeroAlphasNeverFire(alphas[..n], hidden[..n], threshold, d);
      assert o.fire == 0.0;
      assert Run(alphas, hidden, threshold, d).fires == p.fires + [o.fire];
      assert FiredIndices(p.fires + [o.fire], threshold) == [] by {
        FiredIndicesSnoc(p.fires, o.fire, threshold);
      }
    }
  }

  /** A padded row: the selected frames, in time order, then zero vectors. */
  lemma PaddedRowLayout(fires: seq<real>, frames: seq<Vec>, threshold: real, width: int, d: nat)
    requires |fires| == |frames| && FireCount(fires, threshold) <= width
    ensures var row := Pad(Selected(fires, frames, threshold), width, d);
            var idx := FiredIndices(fires, threshold);
            |row| == width &&
            (forall i :: 0 <= i < |idx| ==> row[i] == frames[idx[i]] && fires[idx[i]] >= threshold) &&
            (forall i, j :: 0 <= i < j < |idx| ==> idx[i] < idx[j]) &&
            (forall i :: |idx| <= i < width ==> row[i] == Zeros(d))
  {
  }

  /** When `cif` succeeds, each output row is its frames at the fired steps, in time order,
      padded with zero vectors to the batch's largest rounded alpha sum, and `fires` has one
      entry per time step. */
  lemma CifLayout(hidden: seq<seq<Vec>>, alphas: seq<seq<real>>, threshold: real, d: nat, b: nat)
    requires WellShaped(hidden, alphas, d) && b < |hidden|
    requires CifSpec(hidden, alphas, threshold, d).Success?
    ensures var out := CifSpec(hidden, alphas, threshold, d).value;
            var tr := RowTrace(hidden, alphas, threshold, d, b);
            var idx := FiredIndices(tr.fires, threshold);
            var width := MaxOf(LenLabels(alphas));
            |out.embeds| == |out.fires| == |hidden| &&
            out.fires[b] == tr.fires && |out.fires[b]| == |hidden[b]| &&
            |out.embeds[b]| == width &&
            (forall i :: 0 <= i < |idx| ==> out.embeds[b][i] == tr.frames[idx[i]] && tr.fires[idx[i]] >= threshold) &&
            (forall i :: |idx| <= i < width ==> out.embeds[b][i] == Zeros(d))
  {
    var tr := RowTrace(hidden, alphas, threshold, d, b);
    PaddedRowLayout(tr.fires, tr.frames, threshold, MaxOf(LenLabels(alphas)), d);
  }

  /** Row b of a successful `cif` is row b's selection, padded to the batch width. */
  lemma CifSpecRow(hidden: seq<seq<Vec>>, alphas: seq<seq<real>>, threshold: real, d: nat, b: nat)
    requires WellShaped(hidden, alphas, d) && b < |hidden|
    requires CifSpec(hidden, alphas, threshold, d).Success?
    ensures var tr := RowTrace(hidden, alphas, threshold, d, b);
            var emitted := Selected(tr.fires, tr.frames, threshold);
            var width := MaxOf(LenLabels(alphas));
            |emitted| <= width &&
            CifSpec(hidden, alphas, threshold, d).value.embeds[b] == emitted + seq(width - |emitted|, _ => Zeros(d))
  {
  }

  /** `cif` fails on the padding exactly when some row fires more often than the
      largest rounded alpha sum of the batch. */
  lemma CifPaddingFailure(hidden: seq<seq<Vec>>, alphas: seq<seq<real>>, threshold: real, d: nat)
    requires WellShaped(hidden, alphas, d) && |hidden| > 0 && |hidden[0]| > 0
    ensures CifSpec(hidden, alphas, threshold, d) == Failure(NegativePadding) <==>
              exists b :: 0 <= b < |hidden| &&
                FireCount(RowTrace(hidden, alphas, threshold, d, b).fires, threshold) > MaxOf(LenLabels(alphas))
  {
  }

  lemma FloorMonotone(x: real, y: real)
    requires x <= y
    ensures x.Floor <= y.Floor
  {
  }

  /** With non-negative weights a prefix sums to no more than the whole row. */
  lemma PrefixSumBelow(a: seq<real>, k: nat)
    requires k <= |a| && forall i :: 0 <= i < |a| ==> a[i] >= 0.0
    ensures Sum(a[..k]) <= Sum(a)
  {
    var pre, post := a[..k], a[k..];
    assert a == pre + post;
    SumAppend(pre, post);
    assert forall i :: 0 <= i < |post| ==> post[i] >= 0.0;
    SumNonNegative(post);
  }

  /** A row that fires floor of its scanned sum fits the width `round(sum of the whole row)`. */
  lemma UnitRowFitsLabelLength(a: seq<real>, h: seq<Vec>, d: nat)
    requires |h| <= |a| && Dim(h, d) && UnitAlphas(a)
    ensures FireCount(Run(a[..|h|], h, 1.0, d).fires, 1.0) == Sum(a[..|h|]).Floor
    ensures FireCount(Run(a[..|h|], h, 1.0, d).fires, 1.0) <= RoundHalfEven(Sum(a))
  {
    var T := |h|;
    assert UnitAlphas(a[..T]);
    UnitThresholdFireCount(a[..T], h, d);
    PrefixSumBelow(a, T);
    FloorMonotone(Sum(a[..T]), Sum(a));
  }

  /** With threshold 1 and every alpha in [0, 1], `cif` of a non-empty batch never
      fails, and row b holds exactly floor of its scanned alpha sum fired frames. */
  lemma CifSucceedsAtUnitThreshold(hidden: seq<seq<Vec>>, alphas: seq<seq<real>>, d: nat)
    requires WellShaped(hidden, alphas, d) && |hidden| > 0 && |hidden[0]| > 0
    requires forall b :: 0 <= b < |alphas| ==> UnitAlphas(alphas[b])
    ensures CifSpec(hidden, alphas, 1.0, d).Success?
    ensures forall b :: 0 <= b < |hidden| ==>
              FireCount(RowTrace(hidden, alphas, 1.0, d, b).fires, 1.0) == Sum(alphas[b][..|hidden[0]|]).Floor
  {
    var width := MaxOf(LenLabels(alphas));
    forall b | 0 <= b < |hidden|
      ensures FireCount(RowTrace(hidden, alphas, 1.0, d, b).fires, 1.0) == Sum(alphas[b][..|hidden[0]|]).Floor
      ensures FireCount(RowTrace(hidden, alphas, 1.0, d, b).fires, 1.0) <= width
    {
      UnitRowFitsLabelLength(alphas[b], hidden[b], d);
      assert LenLabels(alphas)[b] == RoundHalfEven(Sum(alphas[b]));
    }
  }

  /** Padding adds nothing: a successful row plus the final un-emitted frame carries
      exactly the weighted content of the row's scanned frames. */
  lemma CifRowConservation(hidden: seq<seq<Vec>>, alphas: seq<seq<real>>, threshold: real, d: nat, b: nat)
    requires WellShaped(hidden, alphas, d) && b < |hidden|
    requires CifSpec(hidden, alphas, threshold, d).Success?
    ensures var row := CifSpec(hidden, alphas, threshold, d).value.embeds[b];
            var tr := RowTrace(hidden, alphas, threshold, d, b);
            Dim(row, d) && Add(VSum(row, d), tr.last.frame) == WeightedSum(alphas[b][..|hidden[0]|], hidden[b], d)
  {
    var tr := RowTrace(hidden, alphas, threshold, d, b);
    var emitted := Selected(tr.fires, tr.frames, threshold);
    var width := MaxOf(LenLabels(alphas));
    var row := CifSpec(hidden, alphas, threshold, d).value.embeds[b];
    assert row == emitted + seq(width - |emitted|, _ => Zeros(d)) by {
      CifSpecRow(hidden, alphas, threshold, d, b);
    }
    assert Dim(emitted, d) && Add(VSum(emitted, d), tr.last.frame) == WeightedSum(alphas[b][..|hidden[0]|], hidden[b], d) by {
      RunConservation(alphas[b][..|hidden[0]|], hidden[b], threshold, d);
    }
    VSumPadded(emitted, width - |emitted|, d);
  }

  /** The four steps of the worked example below. */
  lemma WorkedExampleSteps()
    ensures var s0 := Step(Initial(2), 0.3, [1.0, 0.0], 1.0);
            s0.fire == 0.3 && s0.frame == [0.3, 0.0] && s0.next == State(0.3, [0.3, 0.0])
    ensures var s1 := Step(State(0.3, [0.3, 0.0]), 0.3, [2.0, 0.0], 1.0);
            s1.fire == 0.6 && s1.frame == [0.9, 0.0] && s1.next == State(0.6, [0.9, 0.0])
    ensures var s2 := Step(State(0.6, [0.9, 0.0]), 0.5, [3.0, 0.0], 1.0);
            s2.fire == 1.1 && s2.cur == 0.4 && s2.remainds == 0.1 &&
            s2.frame == [2.1, 0.0] && s2.next == State(0.1, [0.3, 0.0])
    ensures var s3 := Step(State(0.1, [0.3, 0.0]), 0.2, [4.0, 0.0], 1.0);
            s3.fire == 0.3 && s3.frame == [1.1, 0.0] && s3.next == State(0.3, [1.1, 0.0])
  {
    var s0 := Step(Initial(2), 0.3, [1.0, 0.0], 1.0);
    assert s0.frame[0] == 0.3 && s0.frame[1] == 0.0;
    assert s0.frame == [0.3, 0.0];
    var s1 := Step(State(0.3, [0.3, 0.0]), 0.3, [2.0, 0.0], 1.0);
    assert s1.frame[0] == 0.9 && s1.frame[1] == 0.0;
    assert s1.frame == [0.9, 0.0];
    var s2 := Step(State(0.6, [0.9, 0.0]), 0.5, [3.0, 0.0], 1.0);
    assert s2.frame[0] == 2.1 && s2.frame[1] == 0.0;
    assert s2.frame == [2.1, 0.0];
    assert s2.next.frame[0] == 0.3 && s2.next.frame[1] == 0.0;
    assert s2.next.frame == [0.3, 0.0];
    var s3 := Step(State(0.1, [0.3, 0.0]), 0.2, [4.0, 0.0], 1.0);
    assert s3.frame[0] == 1.1 && s3.frame[1] == 0.0;
    assert s3.frame == [1.1, 0.0];
  }

  lemma WorkedExampleFirstTwo()
    ensures Run([0.3, 0.3], [[1.0, 0.0], [2.0, 0.0]], 1.0, 2) ==
              Trace([0.3, 0.6], [[0.3, 0.0], [0.9, 0.0]], State(0.6, [0.9, 0.0]))
  {
    var a := [0.3, 0.3];
    var h := [[1.0, 0.0], [2.0, 0.0]];
    WorkedExampleSteps();
    assert a[..1] == [0.3] && h[..1] == [[1.0, 0.0]];
    assert Run(a[..1], h[..1], 1.0, 2) == Trace([0.3], [[0.3, 0.0]], State(0.3, [0.3, 0.0]));
  }

  lemma WorkedExampleFirstThree()
    ensures Run([0.3, 0.3, 0.5], [[1.0, 0.0], [2.0, 0.0], [3.0, 0.0]], 1.0, 2) ==
              Trace([0.3, 0.6, 1.1], [[0.3, 0.0], [0.9, 0.0], [2.1, 0.0]], State(0.1, [0.3, 0.0]))
  {
    var a := [0.3, 0.3, 0.5];
    var h := [[1.0, 0.0], [2.0, 0.0], [3.0, 0.0]];
    WorkedExampleSteps();
    WorkedExampleFirstTwo();
    assert a[..2] == [0.3, 0.3] && h[..2] == [[1.0, 0.0], [2.0, 0.0]];
  }

  lemma WorkedExampleRun()
    ensures Run([0.3, 0.3, 0.5, 0.2], [[1.0, 0.0], [2.0, 0.0], [3.0, 0.0], [4.0, 0.0]], 1.0, 2) ==
              Trace([0.3, 0.6, 1.1, 0.3], [[0.3, 0.0], [0.9, 0.0], [2.1, 0.0], [1.1, 0.0]], State(0.3, [1.1, 0.0]))
  {
    var a := [0.3, 0.3, 0.5, 0.2];
    var h := [[1.0, 0.0], [2.0, 0.0], [3.0, 0.0], [4.0, 0.0]];
    WorkedExampleSteps();
    WorkedExampleFirstThree();
    assert a[..3] == [0.3, 0.3, 0.5] && h[..3] == [[1.0, 0.0], [2.0, 0.0], [3.0, 0.0]];
  }

  /** A row fires nowhere exactly when its level never reaches the threshold. */
  lemma NoFiredIndices(fires: seq<real>, threshold: real)
    ensures FiredIndices(fires, threshold) == [] <==> forall t :: 0 <= t < |fires| ==> fires[t] < threshold
    ensures FireCount(fires, threshold) == 0 <==> forall t :: 0 <= t < |fires| ==> fires[t] < threshold
  {
    var idx := FiredIndices(fires, threshold);
    if |idx| > 0 {
      assert fires[idx[0]] >= threshold;
    }
  }

  lemma WorkedExampleFiredIndices()
    ensures FiredIndices([0.3, 0.6, 1.1, 0.3], 1.0) == [2]
  {
    var f2 := [0.3, 0.6];
    var f3 := f2 + [1.1];
    var f4 := f3 + [0.3];
    assert FiredIndices(f3, 1.0) == [2] by {
      NoFiredIndices(f2, 1.0);
      FiredIndicesSnoc(f2, 1.1, 1.0);
    }
    assert FiredIndices(f4, 1.0) == [2] by {
      FiredIndicesSnoc(f3, 0.3, 1.0);
    }
    assert f4 == [0.3, 0.6, 1.1, 0.3];
  }

  /** The worked example: alphas 0.3, 0.3, 0.5, 0.2 over frames (t + 1, 0) with threshold 1
      fire once, at t = 2, emitting 0.3 h0 + 0.3 h1 + 0.4 h2 = (2.1, 0); 0.1 h2 + 0.2 h3 =
      (1.1, 0) stays un-emitted with level 0.3, and the token number 1.3 rounds to the one firing. */
  lemma WorkedExample()
    ensures var r := Run([0.3, 0.3, 0.5, 0.2], [[1.0, 0.0], [2.0, 0.0], [3.0, 0.0], [4.0, 0.0]], 1.0, 2);
            FiredIndices(r.fires, 1.0) == [2] &&
            Selected(r.fires, r.frames, 1.0) == [[2.1, 0.0]] &&
            r.last == State(0.3, [1.1, 0.0])
    ensures Sum([0.3, 0.3, 0.5, 0.2]) == 1.3 && RoundHalfEven(1.3) == 1
  {
    WorkedExampleRun();
    WorkedExampleFiredIndices();
    WorkedExampleWeight();
    var fires := [0.3, 0.6, 1.1, 0.3];
    var frames := [[0.3, 0.0], [0.9, 0.0], [2.1, 0.0], [1.1, 0.0]];
    assert Gather(frames, [2]) == [[2.1, 0.0]];
  }

  /** The worked example's weight and its rounding. */
  lemma WorkedExampleWeight()
    ensures Sum([0.3, 0.3, 0.5, 0.2]) == 1.3 && RoundHalfEven(1.3) == 1
  {
    var a1, a2, a3, a := [0.3], [0.3, 0.3], [0.3, 0.3, 0.5], [0.3, 0.3, 0.5, 0.2];
    assert a1[..0] == [];
    assert Sum(a1) == 0.3;
    assert a2[..1] == a1;
    assert Sum(a2) == 0.6;
    assert a3[..2] == a2;
    assert Sum(a3) == 1.1;
    assert a[..3] == a3;
    assert (1.3).Floor == 1;
  }
}
