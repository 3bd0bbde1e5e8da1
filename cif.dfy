/**
  The scripted `cif` function: a left-to-right integrate-and-fire scan over
  time with per-row state (`integrate`, `frame`), followed by compaction of the
  recorded frames at the fired steps and right padding with zero vectors.

  The specification is a per-row fold (`Step`, `Run`) with the compaction
  (`FiredIndices`, `Selected`, `Pad`) and the batch assembly `CifSpec`; the
  method `Cif` is the imperative scan of the source, proved equal to it.
 */
module Cif {
  import opened Wrappers
  import opened Vectors

  /** Per-row loop state: the un-fired integration level and the partial frame. */
  datatype State = State(integrate: real, frame: Vec)

  /** What one time step records and where it leaves the row.
      `fire` is the value appended to `list_fires`, `frame` the one appended to
      `list_frames`; `cur` and `remainds` split the step's alpha. */
  datatype StepRecord = StepRecord(fire: real, frame: Vec, cur: real, remainds: real, next: State)

  function Initial(d: nat): (s: State)
    ensures s.integrate == 0.0 && s.frame == Zeros(d)
  {
    State(0.0, Zeros(d))
  }

  /** The body of the loop over `t` for one row. */
  function Step(s: State, alpha: real, h: Vec, threshold: real): (r: StepRecord)
    requires |s.frame| == |h|
    ensures r.fire == s.integrate + alpha
    ensures r.cur + r.remainds == alpha
    // the literal 1 is taken off the level on a firing, and nothing otherwise
    ensures r.next.integrate + (if r.fire >= threshold then 1.0 else 0.0) == r.fire
    ensures r.fire >= threshold ==> r.cur == 1.0 - s.integrate
    ensures !(r.fire >= threshold) ==> r.cur == alpha && r.remainds == 0.0
    ensures |r.frame| == |h| && |r.next.frame| == |h|
  {
    var distributionCompletion := 1.0 - s.integrate;
    var integrate := s.integrate + alpha;
    var firePlace := integrate >= threshold;
    var cur := if firePlace then distributionCompletion else alpha;
    var remainds := alpha - cur;
    var frame := Add(s.frame, Scale(cur, h));
    StepRecord(integrate, frame, cur, remainds,
               State(if firePlace then integrate - 1.0 else integrate,
                     if firePlace then Scale(remainds, h) else frame))
  }

  /** A step that fires emits the old frame topped up with `(1 - level) * h` and
      carries the rest of the weight, `(alpha - (1 - level)) * h`, into a fresh frame;
      so the step's weighted content `alpha * h` is split between the two. A step
      that does not fire keeps accumulating into the same, un-reset frame. */
  lemma StepConserves(s: State, alpha: real, h: Vec, threshold: real)
    requires |s.frame| == |h|
    ensures var r := Step(s, alpha, h, threshold);
            r.fire >= threshold ==>
              r.frame == Add(s.frame, Scale(1.0 - s.integrate, h)) &&
              r.next.frame == Scale(alpha - (1.0 - s.integrate), h)
    ensures var r := Step(s, alpha, h, threshold);
            r.fire >= threshold ==> Add(r.frame, r.next.frame) == Add(s.frame, Scale(alpha, h))
    ensures var r := Step(s, alpha, h, threshold);
            !(r.fire >= threshold) ==> r.next.frame == r.frame && r.frame == Add(s.frame, Scale(alpha, h))
  {
    var r := Step(s, alpha, h, threshold);
    if r.fire >= threshold {
      forall i | 0 <= i < |h| ensures Add(r.frame, r.next.frame)[i] == Add(s.frame, Scale(alpha, h))[i] {
        calc {
          Add(r.frame, r.next.frame)[i];
          (s.frame[i] + r.cur * h[i]) + r.remainds * h[i];
          s.frame[i] + (r.cur + r.remainds) * h[i];
        }
      }
    }
  }

  /** The recorded trace of a row: `fires[b, :]`, `frames[b, :, :]` and the final state. */
  datatype Trace = Trace(fires: seq<real>, frames: seq<Vec>, last: State)

  /** The scan of one row over its first |alphas| frames. */
  function Run(alphas: seq<real>, hidden: seq<Vec>, threshold: real, d: nat): (r: Trace)
    requires |alphas| == |hidden| && Dim(hidden, d)
    ensures |r.fires| == |r.frames| == |alphas|
    ensures Dim(r.frames, d) && |r.last.frame| == d
    decreases |alphas|
  {
    if |alphas| == 0 then Trace([], [], Initial(d))
    else
      var n := |alphas| - 1;
      assert Dim(hidden[..n], d);
      var p := Run(alphas[..n], hidden[..n], threshold, d);
      var o := Step(p.last, alphas[n], hidden[n], threshold);
      Trace(p.fires + [o.fire], p.frames + [o.frame], o.next)
  }

  /** `torch.nonzero(fire >= threshold)`: the fired steps, ascending. */
  function FiredIndices(fires: seq<real>, threshold: real): (idx: seq<nat>)
    ensures forall i :: 0 <= i < |idx| ==> idx[i] < |fires| && fires[idx[i]] >= threshold
    ensures forall i, j :: 0 <= i < j < |idx| ==> idx[i] < idx[j]
    ensures forall t :: 0 <= t < |fires| && fires[t] >= threshold ==> t in idx
    ensures |idx| <= |fires|
  {
    if |fires| == 0 then []
    else
      var n := |fires| - 1;
      var p := FiredIndices(fires[..n], threshold);
      if fires[n] >= threshold then p + [n] else p
  }

  /** The number of firings of a row, `l.size(0)`: at most one per step. */
  function FireCount(fires: seq<real>, threshold: real): (n: nat)
    ensures n <= |fires|
  {
    |FiredIndices(fires, threshold)|
  }

  /** The frames at positions `idx`, in the order of `idx`. */
  function Gather(frames: seq<Vec>, idx: seq<nat>): (l: seq<Vec>)
    requires forall i :: 0 <= i < |idx| ==> idx[i] < |frames|
    ensures |l| == |idx| && forall i :: 0 <= i < |idx| ==> l[i] == frames[idx[i]]
  {
    seq(|idx|, i requires 0 <= i < |idx| => frames[idx[i]])
  }

  /** `torch.index_select(frames[b], 0, nonzero(...))`: the recorded frames at the
      fired steps, one per firing, in ascending step order. */
  function Selected(fires: seq<real>, frames: seq<Vec>, threshold: real): (l: seq<Vec>)
    requires |fires| == |frames|
    ensures |l| == FireCount(fires, threshold)
    ensures forall i :: 0 <= i < |l| ==> l[i] == frames[FiredIndices(fires, threshold)[i]]
  {
    Gather(frames, FiredIndices(fires, threshold))
  }

  /** `torch.cat([l, zeros(width - |l|, d)])`: the row, then zero vectors up to `width`. */
  function Pad(l: seq<Vec>, width: int, d: nat): (row: seq<Vec>)
    requires |l| <= width
    ensures |row| == width && row[..|l|] == l
    ensures forall i :: |l| <= i < width ==> row[i] == Zeros(d)
  {
    l + seq(width - |l|, _ => Zeros(d))
  }

  /** `torch.round(alphas.sum(-1)).int()`, one entry per row (over the full alpha row). */
  function LenLabels(alphas: seq<seq<real>>): (r: seq<int>)
    ensures |r| == |alphas|
  {
    seq(|alphas|, b requires 0 <= b < |alphas| => RoundHalfEven(Sum(alphas[b])))
  }

  /** `(batch_size, len_time, hidden_size)` agree between `hidden` and `alphas`;
      `alphas[:, t]` is read for every t < len_time. */
  predicate WellShaped(hidden: seq<seq<Vec>>, alphas: seq<seq<real>>, d: nat) {
    |alphas| == |hidden| &&
    forall b :: 0 <= b < |hidden| ==> |hidden[b]| == |hidden[0]| && Dim(hidden[b], d) && |alphas[b]| >= |hidden[0]|
  }

  /** The run-time failures of `cif`: `torch.stack` of an empty list (no time steps),
      `.max()` of an empty tensor (no rows), and `torch.zeros` of negative size
      (a row fired more often than the rounded maximum label length). */
  datatype CifError = EmptyTime | EmptyBatch | NegativePadding

  /** The two returned tensors: the padded embeddings and `fires`. */
  datatype CifOutput = CifOutput(embeds: seq<seq<Vec>>, fires: seq<seq<real>>)

  /** Row b's trace: the scan reads the first len_time alphas of the row. */
  function RowTrace(hidden: seq<seq<Vec>>, alphas: seq<seq<real>>, threshold: real, d: nat, b: nat): (tr: Trace)
    requires WellShaped(hidden, alphas, d) && b < |hidden|
    ensures |tr.fires| == |tr.frames| == |hidden[0]|
  {
    Run(alphas[b][..|hidden[0]|], hidden[b], threshold, d)
  }

  /** The specification of `cif` over a batch. */
  function CifSpec(hidden: seq<seq<Vec>>, alphas: seq<seq<real>>, threshold: real, d: nat): (r: Result<CifOutput, CifError>)
    requires WellShaped(hidden, alphas, d)
    ensures |hidden| == 0 ==> r == Failure(EmptyBatch)
    ensures |hidden| > 0 && |hidden[0]| == 0 ==> r == Failure(EmptyTime)
    ensures r.Success? ==> |r.value.embeds| == |r.value.fires| == |hidden|
    ensures r.Success? ==> forall b :: 0 <= b < |hidden| ==>
              |r.value.embeds[b]| == MaxOf(LenLabels(alphas)) && |r.value.fires[b]| == |hidden[0]|
  {
    if |hidden| == 0 then Failure(EmptyBatch)
    else if |hidden[0]| == 0 then Failure(EmptyTime)
    else
      var width := MaxOf(LenLabels(alphas));
      if exists b :: 0 <= b < |hidden| && FireCount(RowTrace(hidden, alphas, threshold, d, b).fires, threshold) > width then
        Failure(NegativePadding)
      else
        var embeds := seq(|hidden|, b requires 0 <= b < |hidden| =>
                        var tr := RowTrace(hidden, alphas, threshold, d, b);
                        Pad(Selected(tr.fires, tr.frames, threshold), width, d));
        var fires := seq(|hidden|, b requires 0 <= b < |hidden| => RowTrace(hidden, alphas, threshold, d, b).fires);
        assert forall b :: 0 <= b < |hidden| ==> |embeds[b]| == width && |fires[b]| == |hidden[0]|;
        Success(CifOutput(embeds, fires))
  }

  /** `torch.stack(list, 1)`: column b of a list indexed [t][b]. */
  function Column<X>(list: seq<seq<X>>, b: nat): (col: seq<X>)
    requires forall s :: 0 <= s < |list| ==> b < |list[s]|
    ensures |col| == |list|
    ensures forall s :: 0 <= s < |list| ==> col[s] == list[s][b]
  {
    seq(|list|, s requires 0 <= s < |list| => list[s][b])
  }

  lemma ColumnSnoc<X>(list: seq<seq<X>>, row: seq<X>, b: nat)
    requires forall s :: 0 <= s < |list| ==> b < |list[s]|
    requires b < |row|
    ensures Column(list + [row], b) == Column(list, b) + [row[b]]
  {
  }

  /** One more frame extends a row's trace by exactly one `Step`. */
  lemma RowAdvance(alphas: seq<real>, hidden: seq<Vec>, threshold: real, d: nat, t: nat)
    requires t < |alphas| && t < |hidden| && Dim(hidden, d)
    ensures Dim(hidden[..t], d) && Dim(hidden[..t + 1], d)
    ensures var p := Run(alphas[..t], hidden[..t], threshold, d);
            var o := Step(p.last, alphas[t], hidden[t], threshold);
            Run(alphas[..t + 1], hidden[..t + 1], threshold, d) == Trace(p.fires + [o.fire], p.frames + [o.frame], o.next)
  {
    assert alphas[..t + 1][..t] == alphas[..t];
    assert hidden[..t + 1][..t] == hidden[..t];
    assert Dim(hidden[..t + 1], d);
  }

  /** The body of the loop over time (one value of t): the vectorised updates of every
      row at once. Row b ends where `Step` takes it. */
  method AdvanceBatch(integrate: seq<real>, frame: seq<Vec>, hidden: seq<seq<Vec>>, alphas: seq<seq<real>>,
                      t: nat, threshold: real, d: nat)
    returns (fire: seq<real>, recorded: seq<Vec>, integrate': seq<real>, frame': seq<Vec>)
    requires WellShaped(hidden, alphas, d) && |hidden| > 0 && t < |hidden[0]|
    requires |frame| == |integrate| == |hidden|
    requires forall b :: 0 <= b < |integrate| ==> |frame[b]| == d
    ensures |fire| == |recorded| == |integrate'| == |frame'| == |integrate|
    ensures forall b :: 0 <= b < |integrate| ==>
              var r := Step(State(integrate[b], frame[b]), alphas[b][t], hidden[b][t], threshold);
              fire[b] == r.fire && recorded[b] == r.frame && State(integrate'[b], frame'[b]) == r.next
  {
    var batchSize := |integrate|;
    var alpha := seq(batchSize, b requires 0 <= b < batchSize => alphas[b][t]);
    var h := seq(batchSize, b requires 0 <= b < batchSize => hidden[b][t]);
    var distributionCompletion := seq(batchSize, b requires 0 <= b < batchSize => 1.0 - integrate[b]);
    integrate' := seq(batchSize, b requires 0 <= b < batchSize => integrate[b] + alpha[b]);
    fire := integrate';
    var firePlace := seq(batchSize, b requires 0 <= b < batchSize => integrate'[b] >= threshold);
    integrate' := seq(batchSize, b requires 0 <= b < batchSize => if firePlace[b] then integrate'[b] - 1.0 else integrate'[b]);
    var cur := seq(batchSize, b requires 0 <= b < batchSize => if firePlace[b] then distributionCompletion[b] else alpha[b]);
    var remainds := seq(batchSize, b requires 0 <= b < batchSize => alpha[b] - cur[b]);
    frame' := seq(batchSize, b requires 0 <= b < batchSize => Add(frame[b], Scale(cur[b], h[b])));
    recorded := frame';
    frame' := seq(batchSize, b requires 0 <= b < batchSize =>
                  if firePlace[b] then Scale(remainds[b], h[b]) else frame'[b]);
  }

  /** The loop invariant of the scan: after t steps, column b of the recorded lists and
      the state of row b are those of `Run` over the row's first t frames. */
  predicate ScannedUpTo(hidden: seq<seq<Vec>>, alphas: seq<seq<real>>, threshold: real, d: nat, t: nat,
                        listFires: seq<seq<real>>, listFrames: seq<seq<Vec>>, integrate: seq<real>, frame: seq<Vec>)
    requires WellShaped(hidden, alphas, d) && |hidden| > 0 && t <= |hidden[0]|
  {
    |integrate| == |hidden| && |frame| == |hidden| &&
    |listFires| == t && |listFrames| == t &&
    (forall s :: 0 <= s < t ==> |listFires[s]| == |hidden| && |listFrames[s]| == |hidden|) &&
    forall b :: 0 <= b < |hidden| ==>
      Dim(hidden[b][..t], d) &&
      Run(alphas[b][..t], hidden[b][..t], threshold, d) ==
        Trace(Column(listFires, b), Column(listFrames, b), State(integrate[b], frame[b]))
  }

  /** Before the first step every row is in the initial state and nothing is recorded. */
  lemma ScanStart(hidden: seq<seq<Vec>>, alphas: seq<seq<real>>, threshold: real, d: nat)
    requires WellShaped(hidden, alphas, d) && |hidden| > 0
    ensures ScannedUpTo(hidden, alphas, threshold, d, 0, [], [],
                        seq(|hidden|, _ => 0.0), seq(|hidden|, _ => Zeros(d)))
  {
    var integrate: seq<real> := seq(|hidden|, _ => 0.0);
    var frame: seq<Vec> := seq(|hidden|, _ => Zeros(d));
    var noFires: seq<seq<real>>, noFrames: seq<seq<Vec>> := [], [];
    forall b | 0 <= b < |hidden|
      ensures Dim(hidden[b][..0], d) &&
              Run(alphas[b][..0], hidden[b][..0], threshold, d) ==
                Trace(Column(noFires, b), Column(noFrames, b), State(integrate[b], frame[b]))
    {
      assert alphas[b][..0] == [] && hidden[b][..0] == [];
      assert Column(noFires, b) == [] && Column(noFrames, b) == [];
    }
  }

  lemma ScanAdvance(hidden: seq<seq<Vec>>, alphas: seq<seq<real>>, threshold: real, d: nat, t: nat,
                    listFires: seq<seq<real>>, listFrames: seq<seq<Vec>>, integrate: seq<real>, frame: seq<Vec>,
                    fire: seq<real>, recorded: seq<Vec>, integrate': seq<real>, frame': seq<Vec>)
    requires WellShaped(hidden, alphas, d) && |hidden| > 0 && t < |hidden[0]|
    requires ScannedUpTo(hidden, alphas, threshold, d, t, listFires, listFrames, integrate, frame)
    requires |fire| == |recorded| == |integrate'| == |frame'| == |hidden|
    requires forall b :: 0 <= b < |hidden| ==> |frame[b]| == |hidden[b][t]|
    requires forall b :: 0 <= b < |hidden| ==>
               var r := Step(State(integrate[b], frame[b]), alphas[b][t], hidden[b][t], threshold);
               fire[b] == r.fire && recorded[b] == r.frame && State(integrate'[b], frame'[b]) == r.next
    ensures ScannedUpTo(hidden, alphas, threshold, d, t + 1, listFires + [fire], listFrames + [recorded], integrate', frame')
  {
    forall b | 0 <= b < |hidden|
      ensures Dim(hidden[b][..t + 1], d) &&
              Run(alphas[b][..t + 1], hidden[b][..t + 1], threshold, d) ==
                Trace(Column(listFires + [fire], b), Column(listFrames + [recorded], b), State(integrate'[b], frame'[b]))
    {
      ColumnSnoc(listFires, fire, b);
      ColumnSnoc(listFrames, recorded, b);
      RowAdvance(alphas[b], hidden[b], threshold, d, t);
    }
  }

  lemma ScanComplete(hidden: seq<seq<Vec>>, alphas: seq<seq<real>>, threshold: real, d: nat,
                     listFires: seq<seq<real>>, listFrames: seq<seq<Vec>>, integrate: seq<real>, frame: seq<Vec>)
    requires WellShaped(hidden, alphas, d) && |hidden| > 0
    requires ScannedUpTo(hidden, alphas, threshold, d, |hidden[0]|, listFires, listFrames, integrate, frame)
    ensures forall b :: 0 <= b < |hidden| ==>
              Column(listFires, b) == RowTrace(hidden, alphas, threshold, d, b).fires &&
              Column(listFrames, b) == RowTrace(hidden, alphas, threshold, d, b).frames
  {
    forall b | 0 <= b < |hidden|
      ensures Column(listFires, b) == RowTrace(hidden, alphas, threshold, d, b).fires &&
              Column(listFrames, b) == RowTrace(hidden, alphas, threshold, d, b).frames
    {
      assert hidden[b][..|hidden[0]|] == hidden[b];
    }
  }

  /** The loop over time of `cif` (`list_fires`, `list_frames`, indexed [t][b]). */
  method ScanTime(hidden: seq<seq<Vec>>, alphas: seq<seq<real>>, threshold: real, d: nat)
    returns (listFires: seq<seq<real>>, listFrames: seq<seq<Vec>>)
    requires WellShaped(hidden, alphas, d) && |hidden| > 0
    ensures |listFires| == |listFrames| == |hidden[0]|
    ensures forall s :: 0 <= s < |listFires| ==> |listFires[s]| == |listFrames[s]| == |hidden|
    ensures forall b :: 0 <= b < |hidden| ==>
              Column(listFires, b) == RowTrace(hidden, alphas, threshold, d, b).fires &&
              Column(listFrames, b) == RowTrace(hidden, alphas, threshold, d, b).frames
  {
    var batchSize := |hidden|;
    var lenTime := |hidden[0]|;
    var integrate: seq<real> := seq(batchSize, _ => 0.0);
    var frame: seq<Vec> := seq(batchSize, _ => Zeros(d));
    listFires, listFrames := [], [];
    ScanStart(hidden, alphas, threshold, d);

    var t := 0;
    while t < lenTime
      invariant 0 <= t <= lenTime
      invariant ScannedUpTo(hidden, alphas, threshold, d, t, listFires, listFrames, integrate, frame)
    {
      var fire, recorded, integrate', frame' := AdvanceBatch(integrate, frame, hidden, alphas, t, threshold, d);
      ScanAdvance(hidden, alphas, threshold, d, t, listFires, listFrames, integrate, frame,
                  fire, recorded, integrate', frame');
      listFires, listFrames := listFires + [fire], listFrames + [recorded];
      integrate, frame := integrate', frame';
      t := t + 1;
    }
    ScanComplete(hidden, alphas, threshold, d, listFires, listFrames, integrate, frame);
  }

  /** The loop over rows of `cif`: keep each row's frames at its fired steps and pad
      them to `maxLabelLen`; a row with more firings than that cannot be padded. */
  method CompactRows(fires: seq<seq<real>>, frames: seq<seq<Vec>>, threshold: real, maxLabelLen: int, d: nat)
    returns (r: Result<seq<seq<Vec>>, CifError>)
    requires |fires| == |frames|
    requires forall b :: 0 <= b < |fires| ==> |fires[b]| == |frames[b]|
    ensures r.Failure? <==> exists b :: 0 <= b < |fires| && FireCount(fires[b], threshold) > maxLabelLen
    ensures r.Failure? ==> r.error == NegativePadding
    ensures r.Success? ==> |r.value| == |fires|
    ensures r.Success? ==> forall b :: 0 <= b < |fires| ==>
              FireCount(fires[b], threshold) <= maxLabelLen &&
              r.value[b] == Pad(Selected(fires[b], frames[b], threshold), maxLabelLen, d)
  {
    var listLs: seq<seq<Vec>> := [];
    var b := 0;
    while b < |fires|
      invariant 0 <= b <= |fires| && |listLs| == b
      invariant forall c :: 0 <= c < b ==>
                  FireCount(fires[c], threshold) <= maxLabelLen &&
                  listLs[c] == Pad(Selected(fires[c], frames[c], threshold), maxLabelLen, d)
    {
      var l := Selected(fires[b], frames[b], threshold);
      if maxLabelLen - |l| < 0 {
        return Failure(NegativePadding);
      }
      var padL := seq(maxLabelLen - |l|, _ => Zeros(d));
      listLs := listLs + [l + padL];
      b := b + 1;
    }
    r := Success(listLs);
  }

  /** The pieces computed by `Cif` assemble into `CifSpec`. */
  lemma CifAssembles(hidden: seq<seq<Vec>>, alphas: seq<seq<real>>, threshold: real, d: nat,
                     fires: seq<seq<real>>, frames: seq<seq<Vec>>, rows: Result<seq<seq<Vec>>, CifError>)
    requires WellShaped(hidden, alphas, d) && |hidden| > 0 && |hidden[0]| > 0
    requires |fires| == |hidden| && |frames| == |hidden|
    requires forall b :: 0 <= b < |hidden| ==>
               fires[b] == RowTrace(hidden, alphas, threshold, d, b).fires &&
               frames[b] == RowTrace(hidden, alphas, threshold, d, b).frames
    requires forall b :: 0 <= b < |hidden| ==> |fires[b]| == |frames[b]|
    requires var width := MaxOf(LenLabels(alphas));
             (rows.Failure? <==> exists b :: 0 <= b < |fires| && FireCount(fires[b], threshold) > width) &&
             (rows.Failure? ==> rows.error == NegativePadding) &&
             (rows.Success? ==> |rows.value| == |fires|) &&
             (rows.Success? ==> forall b :: 0 <= b < |fires| ==>
                FireCount(fires[b], threshold) <= width &&
                rows.value[b] == Pad(Selected(fires[b], frames[b], threshold), width, d))
    ensures CifSpec(hidden, alphas, threshold, d) ==
              match rows
              case Failure(e) => Failure(e)
              case Success(embeds) => Success(CifOutput(embeds, fires))
  {
    var width := MaxOf(LenLabels(alphas));
    if rows.Success? {
      assert rows.value == seq(|hidden|, b requires 0 <= b < |hidden| =>
                             var tr := RowTrace(hidden, alphas, threshold, d, b);
                             Pad(Selected(tr.fires, tr.frames, threshold), width, d));
      assert fires == seq(|hidden|, b requires 0 <= b < |hidden| => RowTrace(hidden, alphas, threshold, d, b).fires);
    }
  }

  /** The source's `cif`: the scan over time, `torch.stack` of the recorded lists,
      the rounded label lengths and the compaction. */
  method Cif(hidden: seq<seq<Vec>>, alphas: seq<seq<real>>, threshold: real, d: nat)
    returns (r: Result<CifOutput, CifError>)
    requires WellShaped(hidden, alphas, d)
    ensures r == CifSpec(hidden, alphas, threshold, d)
  {
    var batchSize := |hidden|;
    if batchSize == 0 {
      return Failure(EmptyBatch);
    }
    var listFires, listFrames := ScanTime(hidden, alphas, threshold, d);
    if |listFires| == 0 {
      return Failure(EmptyTime);
    }
    var fires := seq(batchSize, b requires 0 <= b < batchSize => Column(listFires, b));
    var frames := seq(batchSize, b requires 0 <= b < batchSize => Column(listFrames, b));
    var lenLabels := LenLabels(alphas);
    var maxLabelLen := MaxOf(lenLabels);
    var rows := CompactRows(fires, frames, threshold, maxLabelLen, d);
    CifAssembles(hidden, alphas, threshold, d, fires, frames, rows);
    match rows
    case Failure(e) =>
      r := Failure(e);
    case Success(embeds) =>
      r := Success(CifOutput(embeds, fires));
  }
}
