/**
  `sequence_mask(lengths, maxlen)`: the 0/1 validity matrix of a padded batch.
  Entry [b][t] is 1.0 exactly when frame t is inside row b's true length.
 */
module SequenceMask {
  import opened Wrappers
  import opened Vectors

  /** The two ways the torch calls raise: `lengths.max()` of an empty tensor,
      and `torch.arange(0, maxlen, 1)` with a negative upper bound. */
  datatype MaskError = EmptyLengths | NegativeMaxlen

  /** Row `m` is the prefix mask of length `l`: ones before `l`, zeros from `l` on. */
  predicate PrefixOf(m: seq<real>, l: nat) {
    l <= |m| && forall t :: 0 <= t < |m| ==> m[t] == if t < l then 1.0 else 0.0
  }

  /** One row of the mask: ones for t < length, zeros after, `width` columns. */
  function PrefixMask(length: int, width: nat): (row: seq<real>)
    ensures |row| == width
    ensures forall t :: 0 <= t < width ==> (row[t] == 1.0 <==> t < length) && (row[t] == 0.0 <==> t >= length)
    ensures 0 <= length <= width ==> PrefixOf(row, length)
  {
    seq(width, t => if t < length then 1.0 else 0.0)
  }

  /** Column count: `maxlen` when given, else the largest length. */
  function Width(lengths: seq<int>, maxlen: Option<int>): (w: Result<nat, MaskError>)
    ensures maxlen.Some? ==> (w.Success? <==> maxlen.value >= 0)
    ensures maxlen.Some? && w.Success? ==> w.value == maxlen.value
    ensures maxlen.None? ==> (w.Success? <==> |lengths| > 0 && MaxOf(lengths) >= 0)
    ensures maxlen.None? && w.Success? ==> w.value == MaxOf(lengths)
  {
    match maxlen
    case Some(m) => if m < 0 then Failure(NegativeMaxlen) else Success(m)
    case None =>
      if |lengths| == 0 then Failure(EmptyLengths)
      else
        var m := MaxOf(lengths);
        if m < 0 then Failure(NegativeMaxlen) else Success(m)
  }

  function SequenceMask(lengths: seq<int>, maxlen: Option<int>): (r: Result<seq<seq<real>>, MaskError>)
    ensures r.Failure? <==> Width(lengths, maxlen).Failure?
    ensures r.Success? ==> |r.value| == |lengths|
    ensures r.Success? ==> forall b :: 0 <= b < |lengths| ==> |r.value[b]| == Width(lengths, maxlen).value
    ensures r.Success? ==> forall b, t :: 0 <= b < |lengths| && 0 <= t < |r.value[b]| ==>
                             (r.value[b][t] == 1.0 <==> t < lengths[b]) &&
                             (r.value[b][t] == 0.0 <==> t >= lengths[b])
  {
    match Width(lengths, maxlen)
    case Failure(e) => Failure(e)
    case Success(w) => Success(seq(|lengths|, b requires 0 <= b < |lengths| => PrefixMask(lengths[b], w)))
  }

  /** Each row of the mask is a run of ones followed by a run of zeros; the
      ones run has length `lengths[b]` clamped into [0, width]. */
  lemma MaskRowIsOnesThenZeros(lengths: seq<int>, maxlen: Option<int>, b: nat)
    requires SequenceMask(lengths, maxlen).Success? && b < |lengths|
    ensures var w := Width(lengths, maxlen).value;
            var k := if lengths[b] < 0 then 0 else if lengths[b] > w then w else lengths[b];
            SequenceMask(lengths, maxlen).value[b] == seq(k, _ => 1.0) + seq(w - k, _ => 0.0)
  {
    var w := Width(lengths, maxlen).value;
    var k := if lengths[b] < 0 then 0 else if lengths[b] > w then w else lengths[b];
    var row := SequenceMask(lengths, maxlen).value[b];
    var expected := seq(k, _ => 1.0) + seq(w - k, _ => 0.0);
    assert |row| == |expected|;
    forall t | 0 <= t < w ensures row[t] == expected[t] {
      if t < k { assert expected[t] == 1.0; } else { assert expected[t] == 0.0; }
    }
  }

  /** With an explicit `maxlen` of at least row b's length, row b of the mask is
      the prefix mask of that length: the form the predictor and its tail
      step take their masks in. */
  lemma MaskRowIsPrefix(lengths: seq<int>, w: nat, b: nat)
    requires b < |lengths| && 0 <= lengths[b] <= w
    ensures SequenceMask(lengths, Some(w)).Success?
    ensures PrefixOf(SequenceMask(lengths, Some(w)).value[b], lengths[b])
  {
    assert SequenceMask(lengths, Some(w)).value[b] == PrefixMask(lengths[b], w);
  }

  /** Without `maxlen` the mask is as wide as the longest row, and that row is all ones. */
  lemma DefaultWidthHasFullRow(lengths: seq<int>)
    requires SequenceMask(lengths, None).Success?
    ensures exists b :: 0 <= b < |lengths| &&
              forall t :: 0 <= t < |SequenceMask(lengths, None).value[b]| ==> SequenceMask(lengths, None).value[b][t] == 1.0
  {
    var m := MaxOf(lengths);
    var b :| 0 <= b < |lengths| && lengths[b] == m;
    var row := SequenceMask(lengths, None).value[b];
    assert forall t :: 0 <= t < |row| ==> row[t] == 1.0;
  }
}
