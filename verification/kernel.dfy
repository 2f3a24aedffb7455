/** Gaussian kernel smoothing of the light curve (`kernelSmooth`) and the
    bandwidth `extract` gives it.

    The Gaussian itself, `exp(-x**2/2)/sqrt(2*pi)`, is a parameter `kernel`
    of which only positivity is assumed: every property below holds for any
    positive kernel. */
module Kernel {
  import opened Seqs

  /** Half the limit beyond which a distance wraps around. */
  const WrapAt: real := 0.5
  /** Scaled distances at or beyond this many bandwidths get weight zero. */
  const Cutoff: real := 4.0

  ghost predicate PositiveKernel(kernel: real -> real)
  {
    forall x :: kernel(x) > 0.0
  }

  /** `abs(X[i] - X)`, with distances beyond one half replaced by one minus
      the distance (wrap-around at phase 1). */
  function WrappedDistance(a: real, b: real): (d: real)
    ensures d <= WrapAt
    ensures a == b ==> d == 0.0
  {
    var diff := Abs(a - b);
    if diff > WrapAt then 1.0 - diff else diff
  }

  /** On phases in [0, 1) the wrapped distance is a symmetric distance of at
      most one half. */
  lemma WrappedDistanceOnPhases(a: real, b: real)
    requires 0.0 <= a < 1.0 && 0.0 <= b < 1.0
    ensures 0.0 <= WrappedDistance(a, b) <= WrapAt
    ensures WrappedDistance(a, b) == WrappedDistance(b, a)
  {
  }

  /** Off the unit phase interval the fold misbehaves: `extract` passes raw
      times, and exactly the samples more than one unit apart get a
      negative distance. */
  lemma RawTimesWrapNegative(a: real, b: real)
    ensures WrappedDistance(a, b) < 0.0 <==> Abs(a - b) > 1.0
  {
  }

  /** `l = diff/bandwidth` for the pair (i, j). */
  function Scaled(xs: seq<real>, i: nat, j: nat, bw: real): real
    requires i < |xs| && j < |xs| && bw != 0.0
  {
    WrappedDistance(xs[i], xs[j]) / bw
  }

  /** `l < 4`: sample j contributes to the smoothed value at sample i. */
  predicate Kept(xs: seq<real>, i: nat, j: nat, bw: real)
    requires i < |xs| && j < |xs| && bw != 0.0
  {
    Scaled(xs, i, j, bw) < Cutoff
  }

  /** The row `tmp` before normalisation, zero where `l >= 4`. */
  function RawWeights(kernel: real -> real, xs: seq<real>, i: nat, bw: real): (raw: seq<real>)
    requires i < |xs| && bw != 0.0 && PositiveKernel(kernel)
    ensures |raw| == |xs|
    ensures forall j :: 0 <= j < |xs| ==> (raw[j] > 0.0 <==> Kept(xs, i, j, bw)) && raw[j] >= 0.0
  {
    seq(|xs|, j requires 0 <= j < |xs| => if Kept(xs, i, j, bw) then kernel(Scaled(xs, i, j, bw)) else 0.0)
  }

  function Divide(s: seq<real>, t: real): (r: seq<real>)
    requires t != 0.0
    ensures |r| == |s|
  {
    seq(|s|, j requires 0 <= j < |s| => s[j] / t)
  }

  lemma {:induction false} SumDivide(s: seq<real>, t: real)
    requires t != 0.0
    ensures Sum(Divide(s, t)) == Sum(s) / t
    decreases |s|
  {
    if |s| > 0 {
      var n := |s|;
      SumDivide(s[..n - 1], t);
      assert Divide(s, t)[..n - 1] == Divide(s[..n - 1], t);
      assert (Sum(s[..n - 1]) + s[n - 1]) / t == Sum(s[..n - 1]) / t + s[n - 1] / t;
    }
  }

  lemma DivideByPositive(a: real, t: real)
    requires a >= 0.0 && t > 0.0
    ensures a / t >= 0.0
    ensures a / t > 0.0 <==> a > 0.0
    ensures a == t ==> a / t == 1.0
  {
  }

  /** A sum of non-negative terms is at least each of its terms. */
  lemma {:induction false} SumAtLeastTerm(s: seq<real>, k: nat)
    requires k < |s|
    requires forall j :: 0 <= j < |s| ==> s[j] >= 0.0
    ensures Sum(s) >= s[k]
    decreases |s|
  {
    var n := |s|;
    if k == n - 1 {
      SumNonNegative(s[..n - 1]);
    } else {
      SumAtLeastTerm(s[..n - 1], k);
    }
  }

  /** Row i of the smoothing matrix `L`: the kept kernel values divided by
      their sum. A sample always keeps itself, so the sum is positive. */
  function RowWeights(kernel: real -> real, xs: seq<real>, i: nat, bw: real): (row: seq<real>)
    requires i < |xs| && bw != 0.0 && PositiveKernel(kernel)
    ensures |row| == |xs|
    ensures forall j :: 0 <= j < |xs| ==> (row[j] > 0.0 <==> Kept(xs, i, j, bw)) && row[j] >= 0.0
    ensures Sum(row) == 1.0
  {
    var raw := RawWeights(kernel, xs, i, bw);
    assert Kept(xs, i, i, bw);
    SumAtLeastTerm(raw, i);
    var total := Sum(raw);
    assert raw[i] > 0.0;
    DivideByPositive(total, total);
    SumDivide(raw, total);
    forall j | 0 <= j < |xs|
      ensures Divide(raw, total)[j] > 0.0 <==> raw[j] > 0.0
      ensures Divide(raw, total)[j] >= 0.0
    {
      DivideByPositive(raw[j], total);
    }
    Divide(raw, total)
  }

  /** One entry of `numpy.dot(L, Y.T)`. */
  function Dot(ws: seq<real>, ys: seq<real>): real
    requires |ws| == |ys|
    decreases |ws|
  {
    if |ws| == 0 then 0.0
    else Dot(ws[..|ws| - 1], ys[..|ys| - 1]) + ws[|ws| - 1] * ys[|ys| - 1]
  }

  /** A non-negatively weighted sum of values in [lo, hi] lies between lo and
      hi times the total weight. */
  lemma DotBounds(ws: seq<real>, ys: seq<real>, lo: real, hi: real)
    requires |ws| == |ys|
    requires forall j :: 0 <= j < |ws| ==> ws[j] >= 0.0 && lo <= ys[j] <= hi
    ensures lo * Sum(ws) <= Dot(ws, ys) <= hi * Sum(ws)
  {
    DotLowerBound(ws, ys, lo);
    DotUpperBound(ws, ys, hi);
  }

  lemma {:induction false} DotLowerBound(ws: seq<real>, ys: seq<real>, lo: real)
    requires |ws| == |ys|
    requires forall j :: 0 <= j < |ws| ==> ws[j] >= 0.0 && lo <= ys[j]
    ensures lo * Sum(ws) <= Dot(ws, ys)
    decreases |ws|
  {
    if |ws| > 0 {
      var n := |ws|;
      DotLowerBound(ws[..n - 1], ys[..n - 1], lo);
      MulMonotone(ws[n - 1], lo, ys[n - 1]);
    }
  }

  lemma {:induction false} DotUpperBound(ws: seq<real>, ys: seq<real>, hi: real)
    requires |ws| == |ys|
    requires forall j :: 0 <= j < |ws| ==> ws[j] >= 0.0 && ys[j] <= hi
    ensures Dot(ws, ys) <= hi * Sum(ws)
    decreases |ws|
  {
    if |ws| > 0 {
      var n := |ws|;
      DotUpperBound(ws[..n - 1], ys[..n - 1], hi);
      MulMonotone(ws[n - 1], ys[n - 1], hi);
    }
  }

  /** A convex combination of values lies within their range. */
  lemma ConvexBounds(ws: seq<real>, ys: seq<real>)
    requires |ws| == |ys| > 0 && Sum(ws) == 1.0
    requires forall j :: 0 <= j < |ws| ==> ws[j] >= 0.0
    ensures Min(ys) <= Dot(ws, ys) <= Max(ys)
  {
    DotBounds(ws, ys, Min(ys), Max(ys));
  }

  lemma MulMonotone(w: real, a: real, b: real)
    requires w >= 0.0 && a <= b
    ensures w * a <= w * b
  {
    MulNonNegative(w, b - a);
  }

  /** Adding a constant to every value adds that constant times the total
      weight. */
  lemma {:induction false} DotShift(ws: seq<real>, ys: seq<real>, c: real)
    requires |ws| == |ys|
    ensures Dot(ws, Shift(ys, c)) == Dot(ws, ys) + c * Sum(ws)
    decreases |ws|
  {
    if |ws| > 0 {
      var n := |ws|;
      ShiftPrefix(ys, c);
      DotShift(ws[..n - 1], ys[..n - 1], c);
      var w, y, s := ws[n - 1], ys[n - 1], Sum(ws[..n - 1]);
      assert w * (y + c) == w * y + c * w;
      assert c * (s + w) == c * s + c * w;
    }
  }

  lemma ShiftPrefix(ys: seq<real>, c: real)
    requires |ys| > 0
    ensures Shift(ys, c)[..|ys| - 1] == Shift(ys[..|ys| - 1], c)
    ensures Shift(ys, c)[|ys| - 1] == ys[|ys| - 1] + c
  {
  }

  /** Every value plus `c`. */
  function Shift(ys: seq<real>, c: real): (r: seq<real>)
    ensures |r| == |ys|
  {
    seq(|ys|, j requires 0 <= j < |ys| => ys[j] + c)
  }

  /** `kernelSmooth(X, Y, bandwidth)`: the value at sample i is the
      kernel-weighted average of the magnitudes of the samples within four
      bandwidths of it, so it never leaves the range of the magnitudes. */
  function KernelSmooth(kernel: real -> real, xs: seq<real>, ys: seq<real>, bw: real): (model: seq<real>)
    requires PositiveKernel(kernel) && bw != 0.0 && |xs| == |ys|
    ensures |model| == |ys|
    ensures |ys| > 0 ==> forall i :: 0 <= i < |model| ==> Min(ys) <= model[i] <= Max(ys)
  {
    seq(|ys|, i requires 0 <= i < |ys| => WeightedAverage(kernel, xs, ys, bw, i))
  }

  /** Row i of the smoothing matrix dotted into the magnitudes. */
  function WeightedAverage(kernel: real -> real, xs: seq<real>, ys: seq<real>, bw: real, i: nat): (v: real)
    requires PositiveKernel(kernel) && bw != 0.0 && |xs| == |ys| && i < |ys|
    ensures Min(ys) <= v <= Max(ys)
  {
    var row := RowWeights(kernel, xs, i, bw);
    ConvexBounds(row, ys);
    Dot(row, ys)
  }

  /** Dividing `d + w * y` by `t` divides each summand. */
  lemma DivideSplit(d: real, w: real, y: real, t: real)
    requires t != 0.0
    ensures (d + w * y) / t == d / t + (w / t) * y
  {
    var q := w / t;
    assert q * t == w;
    assert (q * y) * t == w * y;
    assert (w * y) / t == q * y;
  }

  /** Dividing every weight by `t` divides the weighted sum by `t`. */
  lemma {:induction false} DotDivide(ws: seq<real>, ys: seq<real>, t: real)
    requires |ws| == |ys| && t != 0.0
    ensures Dot(Divide(ws, t), ys) == Dot(ws, ys) / t
    decreases |ws|
  {
    if |ws| > 0 {
      var n := |ws|;
      var w, y, d := ws[n - 1], ys[n - 1], Dot(ws[..n - 1], ys[..n - 1]);
      DotDivide(ws[..n - 1], ys[..n - 1], t);
      assert Divide(ws, t)[..n - 1] == Divide(ws[..n - 1], t);
      assert Divide(ws, t)[n - 1] == w / t;
      DivideSplit(d, w, y, t);
    }
  }

  /** Row i of the smoothing matrix is the kept kernel values over their
      positive sum. */
  lemma RowIsNormalisedKernel(kernel: real -> real, xs: seq<real>, i: nat, bw: real)
    requires i < |xs| && bw != 0.0 && PositiveKernel(kernel)
    ensures Sum(RawWeights(kernel, xs, i, bw)) > 0.0
    ensures RowWeights(kernel, xs, i, bw) == Divide(RawWeights(kernel, xs, i, bw), Sum(RawWeights(kernel, xs, i, bw)))
  {
    var raw := RawWeights(kernel, xs, i, bw);
    assert Kept(xs, i, i, bw);
    SumAtLeastTerm(raw, i);
  }

  /** The smoothed value at sample i is row i of `L` dotted into `Y`. */
  lemma SmoothIsRow(kernel: real -> real, xs: seq<real>, ys: seq<real>, bw: real, i: nat)
    requires PositiveKernel(kernel) && bw != 0.0 && |xs| == |ys| && i < |ys|
    ensures KernelSmooth(kernel, xs, ys, bw)[i] == Dot(RowWeights(kernel, xs, i, bw), ys)
  {
  }

  /** `L = K / sum(K)`: the smoothed value at sample i is the kernel-weighted
      sum of the magnitudes divided by the sum of the kernel values, and
      that sum is positive. */
  lemma SmoothIsKernelRatio(kernel: real -> real, xs: seq<real>, ys: seq<real>, bw: real, i: nat)
    requires PositiveKernel(kernel) && bw != 0.0 && |xs| == |ys| && i < |ys|
    ensures Sum(RawWeights(kernel, xs, i, bw)) > 0.0
    ensures KernelSmooth(kernel, xs, ys, bw)[i] ==
            Dot(RawWeights(kernel, xs, i, bw), ys) / Sum(RawWeights(kernel, xs, i, bw))
  {
    var raw := RawWeights(kernel, xs, i, bw);
    RowIsNormalisedKernel(kernel, xs, i, bw);
    SmoothIsRow(kernel, xs, ys, bw, i);
    DotDivide(raw, ys, Sum(raw));
  }

  /** Smoothing commutes with subtracting the median: shifting every
      magnitude shifts every smoothed value by the same amount. */
  lemma SmoothShift(kernel: real -> real, xs: seq<real>, ys: seq<real>, bw: real, c: real)
    requires PositiveKernel(kernel) && bw != 0.0 && |xs| == |ys|
    ensures KernelSmooth(kernel, xs, Shift(ys, c), bw) == Shift(KernelSmooth(kernel, xs, ys, bw), c)
  {
    var a := KernelSmooth(kernel, xs, Shift(ys, c), bw);
    var b := Shift(KernelSmooth(kernel, xs, ys, bw), c);
    forall i | 0 <= i < |ys|
      ensures a[i] == b[i]
    {
      DotShift(RowWeights(kernel, xs, i, bw), ys, c);
      assert a[i] == WeightedAverage(kernel, xs, Shift(ys, c), bw, i);
    }
  }

  /** A constant curve is its own smooth. */
  lemma SmoothConstant(kernel: real -> real, xs: seq<real>, ys: seq<real>, bw: real, c: real)
    requires PositiveKernel(kernel) && bw != 0.0 && |xs| == |ys|
    requires forall j :: 0 <= j < |ys| ==> ys[j] == c
    ensures forall i :: 0 <= i < |ys| ==> KernelSmooth(kernel, xs, ys, bw)[i] == c
  {
    if |ys| > 0 {
      assert Min(ys) == c && Max(ys) == c;
    }
  }

  /** `500*float(optimal_window)/len(t)`. */
  function Bandwidth(window: nat, n: nat): (bw: real)
    requires n > 0
    ensures window > 0 ==> bw > 0.0
    ensures bw * (n as real) == 500.0 * (window as real)
  {
    500.0 * (window as real) / (n as real)
  }
}
