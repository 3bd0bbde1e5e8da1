/**
  Exact real arithmetic on the tensors the predictor handles: hidden vectors of
  dimension d, sums over time, and the two integer roundings it applies
  (`torch.floor` and `torch.round`, which rounds halves to even), plus the
  maximum of a row of integers.
 */
module Vectors {

  /** One hidden frame (a row of the `hidden_size` dimension). */
  type Vec = seq<real>

  /** Every vector of `vs` has dimension `d`. */
  predicate Dim(vs: seq<Vec>, d: nat) {
    forall i :: 0 <= i < |vs| ==> |vs[i]| == d
  }

  function Zeros(d: nat): (z: Vec)
    ensures |z| == d && forall i :: 0 <= i < d ==> z[i] == 0.0
  {
    seq(d, _ => 0.0)
  }

  function Add(u: Vec, v: Vec): (w: Vec)
    requires |u| == |v|
    ensures |w| == |u| && forall i :: 0 <= i < |w| ==> w[i] == u[i] + v[i]
  {
    seq(|u|, i requires 0 <= i < |u| => u[i] + v[i])
  }

  function Sub(u: Vec, v: Vec): (w: Vec)
    requires |u| == |v|
    ensures |w| == |u| && forall i :: 0 <= i < |w| ==> w[i] == u[i] - v[i]
  {
    seq(|u|, i requires 0 <= i < |u| => u[i] - v[i])
  }

  function Scale(c: real, v: Vec): (w: Vec)
    ensures |w| == |v| && forall i :: 0 <= i < |w| ==> w[i] == c * v[i]
  {
    seq(|v|, i requires 0 <= i < |v| => c * v[i])
  }

  /** Sum of a row of reals, folded left to right like `tensor.sum(-1)`. */
  function Sum(xs: seq<real>): real {
    if |xs| == 0 then 0.0 else Sum(xs[..|xs| - 1]) + xs[|xs| - 1]
  }

  /** Sum of a sequence of vectors of dimension `d`. */
  function VSum(vs: seq<Vec>, d: nat): (s: Vec)
    requires Dim(vs, d)
    ensures |s| == d
  {
    if |vs| == 0 then Zeros(d)
    else
      assert Dim(vs[..|vs| - 1], d);
      Add(VSum(vs[..|vs| - 1], d), vs[|vs| - 1])
  }

  /** The weighted content `sum_t a[t] * h[t]` of a row of frames. */
  function WeightedSum(a: seq<real>, h: seq<Vec>, d: nat): (s: Vec)
    requires |a| == |h| && Dim(h, d)
    ensures |s| == d
  {
    if |a| == 0 then Zeros(d)
    else
      var n := |a| - 1;
      assert Dim(h[..n], d);
      Add(WeightedSum(a[..n], h[..n], d), Scale(a[n], h[n]))
  }

  /** `.max()` of a non-empty row of integers. */
  function MaxOf(xs: seq<int>): (m: int)
    requires |xs| > 0
    ensures forall i :: 0 <= i < |xs| ==> xs[i] <= m
    ensures exists i :: 0 <= i < |xs| && xs[i] == m
  {
    if |xs| == 1 then xs[0]
    else
      var p := MaxOf(xs[..|xs| - 1]);
      assert forall i :: 0 <= i < |xs| - 1 ==> xs[..|xs| - 1][i] == xs[i];
      if xs[|xs| - 1] > p then xs[|xs| - 1] else p
  }

  /** `torch.round`: nearest integer, halves to the even neighbour. The three
      clauses pin the result down: within 1/2 of x, and never odd at a tie. */
  function RoundHalfEven(x: real): (n: int)
    ensures x.Floor <= n <= x.Floor + 1
    ensures -0.5 <= n as real - x <= 0.5
    ensures n % 2 != 0 ==> n as real - x != 0.5 && x - n as real != 0.5
  {
    var f := x.Floor;
    var frac := x - f as real;
    if frac < 0.5 then f
    else if frac > 0.5 then f + 1
    else if f % 2 == 0 then f
    else f + 1
  }

  lemma {:induction false} SumAppend(xs: seq<real>, ys: seq<real>)
    ensures Sum(xs + ys) == Sum(xs) + Sum(ys)
    decreases |ys|
  {
    if |ys| == 0 {
      assert xs + ys == xs;
    } else {
      var n := |ys| - 1;
      assert (xs + ys)[..|xs + ys| - 1] == xs + ys[..n];
      SumAppend(xs, ys[..n]);
    }
  }

  /** Summing is linear: the sum of an elementwise sum is the sum of the sums. */
  lemma {:induction false} SumAdd(u: Vec, v: Vec)
    requires |u| == |v|
    ensures Sum(Add(u, v)) == Sum(u) + Sum(v)
    decreases |u|
  {
    if |u| > 0 {
      var n := |u| - 1;
      assert Add(u, v)[..n] == Add(u[..n], v[..n]);
      SumAdd(u[..n], v[..n]);
    }
  }

  lemma {:induction false} SumSub(u: Vec, v: Vec)
    requires |u| == |v|
    ensures Sum(Sub(u, v)) == Sum(u) - Sum(v)
    decreases |u|
  {
    if |u| > 0 {
      var n := |u| - 1;
      assert Sub(u, v)[..n] == Sub(u[..n], v[..n]);
      SumSub(u[..n], v[..n]);
    }
  }

  lemma {:induction false} SumScale(c: real, v: Vec)
    ensures Sum(Scale(c, v)) == c * Sum(v)
    decreases |v|
  {
    if |v| > 0 {
      var n := |v| - 1;
      assert forall i :: 0 <= i < n ==> Scale(c, v)[..n][i] == Scale(c, v[..n])[i];
      assert Scale(c, v)[..n] == Scale(c, v[..n]);
      SumScale(c, v[..n]);
    }
  }

  /** A row whose entries are all zero sums to zero. */
  lemma {:induction false} SumOfZeros(xs: seq<real>)
    requires forall i :: 0 <= i < |xs| ==> xs[i] == 0.0
    ensures Sum(xs) == 0.0
  {
    if |xs| > 0 {
      SumOfZeros(xs[..|xs| - 1]);
    }
  }

  lemma {:induction false} SumNonNegative(xs: seq<real>)
    requires forall i :: 0 <= i < |xs| ==> xs[i] >= 0.0
    ensures Sum(xs) >= 0.0
  {
    if |xs| > 0 {
      SumNonNegative(xs[..|xs| - 1]);
    }
  }

  lemma AddAssoc(u: Vec, v: Vec, w: Vec)
    requires |u| == |v| == |w|
    ensures Add(Add(u, v), w) == Add(u, Add(v, w))
  {
    assert forall i :: 0 <= i < |u| ==> Add(Add(u, v), w)[i] == Add(u, Add(v, w))[i];
  }

  lemma AddZeros(u: Vec)
    ensures Add(u, Zeros(|u|)) == u
  {
    assert forall i :: 0 <= i < |u| ==> Add(u, Zeros(|u|))[i] == u[i];
  }

  /** Appending zero vectors leaves a vector sum unchanged. */
  lemma {:induction false} VSumPadded(vs: seq<Vec>, k: nat, d: nat)
    requires Dim(vs, d)
    ensures Dim(vs + seq(k, _ => Zeros(d)), d)
    ensures VSum(vs + seq(k, _ => Zeros(d)), d) == VSum(vs, d)
  {
    var padded := vs + seq(k, _ => Zeros(d));
    assert Dim(padded, d);
    if k > 0 {
      var shorter := vs + seq(k - 1, _ => Zeros(d));
      assert padded[..|padded| - 1] == shorter;
      VSumPadded(vs, k - 1, d);
      AddZeros(VSum(shorter, d));
    } else {
      assert padded == vs;
    }
  }
}
