/**
  `CifPredictorV2.tail_process_fn`: a pre-step for `cif` that appends one zero
  hidden frame and a synthetic weight `tail_threshold` at the first padded
  position of each row, so that trailing content that never reached the
  threshold is still emitted; it returns floor of the new weight sums.
 */
module TailProcess {
  import opened Vectors
  import opened Cif
  import CifProperties
  import SequenceMask

  /** `mask_2 - mask_1` = `cat([1], m) - cat(m, [0])`: one entry longer than the mask. */
  function Boundary(m: seq<real>): (v: seq<real>)
    ensures |v| == |m| + 1
  {
    Sub([1.0] + m, m + [0.0])
  }

  /** For a prefix mask of length l (l = |m| included) the boundary vector is the
      indicator of position l. */
  lemma BoundaryOfPrefixMask(m: seq<real>, l: nat)
    requires SequenceMask.PrefixOf(m, l)
    ensures forall i :: 0 <= i < |m| + 1 ==> Boundary(m)[i] == if i == l then 1.0 else 0.0
  {
    var v := Boundary(m);
    forall i | 0 <= i < |m| + 1
      ensures v[i] == if i == l then 1.0 else 0.0
    {
      assert v[i] == ([1.0] + m)[i] - (m + [0.0])[i];
      if i > 0 {
        assert ([1.0] + m)[i] == m[i - 1];
      }
      if i < |m| {
        assert (m + [0.0])[i] == m[i];
      }
    }
  }

  /** Whatever the mask, its boundary vector sums to one (the sums telescope). */
  lemma BoundarySum(m: seq<real>)
    ensures Sum(Boundary(m)) == 1.0
  {
    SumSub([1.0] + m, m + [0.0]);
    SumAppend([1.0], m);
    SumAppend(m, [0.0]);
    assert [1.0][..0] == [] && [0.0][..0] == [];
  }

  /** The three returned tensors. */
  datatype TailOutput = TailOutput(hidden: seq<seq<Vec>>, alphas: seq<seq<real>>, tokenNumFloor: seq<int>)

  /** `hidden` is (B, T, d) and `alphas` and `mask` have B rows. */
  predicate TailInputs(hidden: seq<seq<Vec>>, alphas: seq<seq<real>>, mask: seq<seq<real>>, d: nat) {
    |alphas| == |hidden| && |mask| == |hidden| &&
    forall b :: 0 <= b < |hidden| ==> Dim(hidden[b], d)
  }

  /** `torch.cat([hidden, zeros(b, 1, d)], dim=1)`: every row keeps its frames and gains one zero frame. */
  function ZeroFrameAppended(hidden: seq<seq<Vec>>, d: nat): (h: seq<seq<Vec>>)
    ensures |h| == |hidden|
    ensures forall b :: 0 <= b < |hidden| ==>
              |h[b]| == |hidden[b]| + 1 && h[b][..|hidden[b]|] == hidden[b] && h[b][|hidden[b]|] == Zeros(d)
  {
    seq(|hidden|, b requires 0 <= b < |hidden| => hidden[b] + [Zeros(d)])
  }

  /** `torch.floor(alphas.sum(dim=-1))`: the largest integer not above each row's weight. */
  function FloorSums(alphas: seq<seq<real>>): (n: seq<int>)
    ensures |n| == |alphas|
    ensures forall b :: 0 <= b < |alphas| ==> n[b] as real <= Sum(alphas[b]) < n[b] as real + 1.0
  {
    seq(|alphas|, b requires 0 <= b < |alphas| => Sum(alphas[b]).Floor)
  }

  /** `tail_process_fn` as written: the scaled boundary is CONCATENATED onto the
      alphas (line 65), so a row of T alphas becomes 2T+1 long while hidden gets
      T+1 frames. The `token_num` argument is overwritten and plays no part. */
  function TailProcessFn(hidden: seq<seq<Vec>>, alphas: seq<seq<real>>, mask: seq<seq<real>>,
                         tailThreshold: real, d: nat): (r: TailOutput)
    requires TailInputs(hidden, alphas, mask, d)
    ensures |r.hidden| == |r.alphas| == |r.tokenNumFloor| == |hidden|
  {
    var a := seq(|alphas|, b requires 0 <= b < |alphas| => alphas[b] + Scale(tailThreshold, Boundary(mask[b])));
    TailOutput(ZeroFrameAppended(hidden, d), a, FloorSums(a))
  }

  /** As written: the alphas are a prefix of the new alphas, followed by the scaled
      boundary; the hidden frames are kept and one zero frame follows; and
      `token_num_floor` is floor(sum alphas + tail_threshold). */
  lemma TailLayout(hidden: seq<seq<Vec>>, alphas: seq<seq<real>>, mask: seq<seq<real>>,
                   tailThreshold: real, d: nat, b: nat)
    requires TailInputs(hidden, alphas, mask, d) && b < |hidden|
    ensures var r := TailProcessFn(hidden, alphas, mask, tailThreshold, d);
            |r.alphas[b]| == |alphas[b]| + |mask[b]| + 1 &&
            r.alphas[b][..|alphas[b]|] == alphas[b] &&
            |r.hidden[b]| == |hidden[b]| + 1 &&
            r.hidden[b][..|hidden[b]|] == hidden[b] &&
            r.hidden[b][|hidden[b]|] == Zeros(d) &&
            r.tokenNumFloor[b] == (Sum(alphas[b]) + tailThreshold).Floor
  {
    var tail := Scale(tailThreshold, Boundary(mask[b]));
    var r := TailProcessFn(hidden, alphas, mask, tailThreshold, d);
    assert r.alphas[b] == alphas[b] + tail;
    SumAppend(alphas[b], tail);
    SumScale(tailThreshold, Boundary(mask[b]));
    BoundarySum(mask[b]);
  }

  /** As written, for a prefix mask of length l the appended block holds
      `tail_threshold` at offset l and zero elsewhere. */
  lemma TailPlacement(hidden: seq<seq<Vec>>, alphas: seq<seq<real>>, mask: seq<seq<real>>,
                      tailThreshold: real, d: nat, b: nat, l: nat)
    requires TailInputs(hidden, alphas, mask, d) && b < |hidden| && SequenceMask.PrefixOf(mask[b], l)
    ensures var r := TailProcessFn(hidden, alphas, mask, tailThreshold, d);
            forall j :: |alphas[b]| <= j < |r.alphas[b]| ==>
              r.alphas[b][j] == if j == |alphas[b]| + l then tailThreshold else 0.0
  {
    BoundaryOfPrefixMask(mask[b], l);
  }

  /** The discrepancy. When the mask has as many columns as there are frames and
      row b is a non-empty prefix mask, the scan over the T+1 returned frames
      reads the first T+1 returned alphas: the original ones and a zero. The
      synthetic weight sits past the scanned range. */
  lemma TailWeightNotScanned(hidden: seq<seq<Vec>>, alphas: seq<seq<real>>, mask: seq<seq<real>>,
                             tailThreshold: real, d: nat, b: nat, l: nat)
    requires TailInputs(hidden, alphas, mask, d) && b < |hidden|
    requires |alphas[b]| == |mask[b]| && SequenceMask.PrefixOf(mask[b], l) && l > 0
    ensures var r := TailProcessFn(hidden, alphas, mask, tailThreshold, d);
            r.alphas[b][..|alphas[b]| + 1] == alphas[b] + [0.0]
  {
    TailPlacement(hidden, alphas, mask, tailThreshold, d, b, l);
    TailLayout(hidden, alphas, mask, tailThreshold, d, b);
    var r := TailProcessFn(hidden, alphas, mask, tailThreshold, d);
    var n := |alphas[b]|;
    assert r.alphas[b][n] == 0.0;
    assert r.alphas[b][..n + 1] == r.alphas[b][..n] + [r.alphas[b][n]];
  }

  /** The one exception: for an all-zero mask row (l = 0) the boundary is 1 at
      offset 0 of the appended block, so the scan does read `tail_threshold`, on
      the appended zero frame. */
  lemma TailWeightScannedWhenMaskEmpty(hidden: seq<seq<Vec>>, alphas: seq<seq<real>>, mask: seq<seq<real>>,
                                       tailThreshold: real, d: nat, b: nat)
    requires TailInputs(hidden, alphas, mask, d) && b < |hidden|
    requires |alphas[b]| == |mask[b]| && SequenceMask.PrefixOf(mask[b], 0)
    ensures var r := TailProcessFn(hidden, alphas, mask, tailThreshold, d);
            r.alphas[b][..|alphas[b]| + 1] == alphas[b] + [tailThreshold]
  {
    TailPlacement(hidden, alphas, mask, tailThreshold, d, b, 0);
    TailLayout(hidden, alphas, mask, tailThreshold, d, b);
    var r := TailProcessFn(hidden, alphas, mask, tailThreshold, d);
    var n := |alphas[b]|;
    assert r.alphas[b][n] == tailThreshold;
    assert r.alphas[b][..n + 1] == r.alphas[b][..n] + [r.alphas[b][n]];
  }

  /** A concrete case: one frame of weight 0.5, mask [1], tail_threshold 0.5.
      `token_num_floor` promises one token, but `cif` at threshold 1 on the
      returned tensors fires zero times. */
  lemma TailCounterexample()
    ensures var r := TailProcessFn([[[1.0]]], [[0.5]], [[1.0]], 0.5, 1);
            r.tokenNumFloor == [1] &&
            WellShaped(r.hidden, r.alphas, 1) &&
            FireCount(RowTrace(r.hidden, r.alphas, 1.0, 1, 0).fires, 1.0) == 0
  {
    var h, a, m := [[[1.0]]], [[0.5]], [[1.0]];
    assert TailInputs(h, a, m, 1);
    assert SequenceMask.PrefixOf(m[0], 1);
    var r := TailProcessFn(h, a, m, 0.5, 1);
    TailLayout(h, a, m, 0.5, 1, 0);
    assert (0.5 + 0.5).Floor == 1;
    assert r.tokenNumFloor == [1];
    TailWeightNotScanned(h, a, m, 0.5, 1, 0, 1);
    assert Dim(r.hidden[0], 1);
    assert WellShaped(r.hidden, r.alphas, 1);
    var scanned := r.alphas[0][..2];
    assert scanned == [0.5, 0.0];
    assert Sum(scanned) == 0.5 by {
      assert scanned[..1] == [0.5];
      assert scanned[..1][..0] == [];
    }
    CifProperties.UnitThresholdFireCount(scanned, r.hidden[0], 1);
  }

  /** One corrected row of weights: a zero appended, then the scaled boundary added. */
  function CorrectedRow(a: seq<real>, m: seq<real>, tailThreshold: real): (row: seq<real>)
    requires |m| == |a|
    ensures |row| == |a| + 1
  {
    Add(a + [0.0], Scale(tailThreshold, Boundary(m)))
  }

  /** The evidently intended tail step (the synthetic frame gets its weight in
      place): append a zero weight, then ADD the scaled boundary elementwise, so
      alphas and hidden both get T+1 entries. */
  function TailProcessCorrected(hidden: seq<seq<Vec>>, alphas: seq<seq<real>>, mask: seq<seq<real>>,
                                tailThreshold: real, d: nat): (r: TailOutput)
    requires TailInputs(hidden, alphas, mask, d)
    requires forall b :: 0 <= b < |alphas| ==> |mask[b]| == |alphas[b]|
    ensures |r.hidden| == |r.alphas| == |r.tokenNumFloor| == |hidden|
  {
    var a := seq(|alphas|, b requires 0 <= b < |alphas| => CorrectedRow(alphas[b], mask[b], tailThreshold));
    TailOutput(ZeroFrameAppended(hidden, d), a, FloorSums(a))
  }

  /** The corrected row's entries: `tail_threshold` lands at position l. */
  lemma CorrectedRowEntries(a: seq<real>, m: seq<real>, tailThreshold: real, l: nat)
    requires |m| == |a| && SequenceMask.PrefixOf(m, l)
    ensures var row := CorrectedRow(a, m, tailThreshold);
            (forall t :: 0 <= t < |a| && t != l ==> row[t] == a[t]) &&
            (l < |a| ==> row[l] == a[l] + tailThreshold) &&
            row[|a|] == (if l == |a| then tailThreshold else 0.0)
  {
    var row := CorrectedRow(a, m, tailThreshold);
    BoundaryOfPrefixMask(m, l);
    forall t | 0 <= t <= |a|
      ensures row[t] == (a + [0.0])[t] + (if t == l then tailThreshold else 0.0)
    {
      assert row[t] == (a + [0.0])[t] + tailThreshold * Boundary(m)[t];
    }
    assert (a + [0.0])[|a|] == 0.0;
    assert forall t :: 0 <= t < |a| ==> (a + [0.0])[t] == a[t];
  }

  /** The corrected row's weight: `tail_threshold` more than the row's. */
  lemma CorrectedRowSum(a: seq<real>, m: seq<real>, tailThreshold: real)
    requires |m| == |a|
    ensures Sum(CorrectedRow(a, m, tailThreshold)) == Sum(a) + tailThreshold
  {
    var base := a + [0.0];
    var tail := Scale(tailThreshold, Boundary(m));
    SumAdd(base, tail);
    SumAppend(a, [0.0]);
    assert [0.0][..0] == [];
    SumScale(tailThreshold, Boundary(m));
    BoundarySum(m);
  }

  lemma CorrectedRowLayout(a: seq<real>, m: seq<real>, tailThreshold: real, l: nat)
    requires |m| == |a| && SequenceMask.PrefixOf(m, l)
    ensures var row := CorrectedRow(a, m, tailThreshold);
            (forall t :: 0 <= t < |a| && t != l ==> row[t] == a[t]) &&
            (l < |a| ==> row[l] == a[l] + tailThreshold) &&
            row[|a|] == (if l == |a| then tailThreshold else 0.0) &&
            Sum(row) == Sum(a) + tailThreshold
  {
    CorrectedRowEntries(a, m, tailThreshold, l);
    CorrectedRowSum(a, m, tailThreshold);
  }

  /** Corrected: the weights keep their positions, `tail_threshold` is added at
      position l of a prefix mask of length l, and the floor of the sum is
      floor(sum alphas + tail_threshold). */
  lemma CorrectedTailLayout(hidden: seq<seq<Vec>>, alphas: seq<seq<real>>, mask: seq<seq<real>>,
                            tailThreshold: real, d: nat, b: nat, l: nat)
    requires TailInputs(hidden, alphas, mask, d)
    requires forall b :: 0 <= b < |alphas| ==> |mask[b]| == |alphas[b]|
    requires b < |hidden| && SequenceMask.PrefixOf(mask[b], l)
    ensures var r := TailProcessCorrected(hidden, alphas, mask, tailThreshold, d);
            var n := |alphas[b]|;
            |r.alphas[b]| == n + 1 &&
            (forall t :: 0 <= t < n && t != l ==> r.alphas[b][t] == alphas[b][t]) &&
            (l < n ==> r.alphas[b][l] == alphas[b][l] + tailThreshold) &&
            r.alphas[b][n] == (if l == n then tailThreshold else 0.0) &&
            r.hidden[b] == hidden[b] + [Zeros(d)] &&
            r.tokenNumFloor[b] == (Sum(alphas[b]) + tailThreshold).Floor
  {
    var r := TailProcessCorrected(hidden, alphas, mask, tailThreshold, d);
    assert r.alphas[b] == CorrectedRow(alphas[b], mask[b], tailThreshold);
    CorrectedRowLayout(alphas[b], mask[b], tailThreshold, l);
  }

  /** Corrected, the intended guarantee: rows with prefix masks whose padded weights
      are zero, weights in [0, 1] and a tail threshold in [0, 1] make `cif` at
      threshold 1 succeed and fire exactly `token_num_floor` times per row. */
  lemma CorrectedTailFiresTokenNumFloor(hidden: seq<seq<Vec>>, alphas: seq<seq<real>>, mask: seq<seq<real>>,
                                        lens: seq<nat>, tailThreshold: real, d: nat)
    requires TailInputs(hidden, alphas, mask, d) && WellShaped(hidden, alphas, d) && |hidden| > 0
    requires forall b :: 0 <= b < |alphas| ==> |alphas[b]| == |hidden[0]| && |mask[b]| == |alphas[b]|
    requires |lens| == |hidden|
    requires forall b :: 0 <= b < |hidden| ==> SequenceMask.PrefixOf(mask[b], lens[b])
    requires forall b, t :: 0 <= b < |alphas| && lens[b] <= t < |alphas[b]| ==> alphas[b][t] == 0.0
    requires forall b :: 0 <= b < |alphas| ==> CifProperties.UnitAlphas(alphas[b])
    requires 0.0 <= tailThreshold <= 1.0
    ensures var r := TailProcessCorrected(hidden, alphas, mask, tailThreshold, d);
            WellShaped(r.hidden, r.alphas, d) &&
            CifSpec(r.hidden, r.alphas, 1.0, d).Success? &&
            forall b :: 0 <= b < |hidden| ==>
              FireCount(RowTrace(r.hidden, r.alphas, 1.0, d, b).fires, 1.0) == r.tokenNumFloor[b]
  {
    var r := TailProcessCorrected(hidden, alphas, mask, tailThreshold, d);
    forall b | 0 <= b < |hidden|
      ensures |r.hidden[b]| == |r.hidden[0]| && Dim(r.hidden[b], d) && |r.alphas[b]| == |r.hidden[0]|
      ensures CifProperties.UnitAlphas(r.alphas[b])
      ensures r.alphas[b][..|r.hidden[0]|] == r.alphas[b]
    {
      CorrectedTailLayout(hidden, alphas, mask, tailThreshold, d, b, lens[b]);
    }
    assert WellShaped(r.hidden, r.alphas, d);
    CifProperties.CifSucceedsAtUnitThreshold(r.hidden, r.alphas, d);
  }
}
