/** `get_area`: the positions past the median line are split into maximal
    runs, and the trapezoid rule is applied to every run of two or more
    samples. */
module Area {
  import opened Wrappers
  import opened Seqs
  import opened Runs
  import opened Thresholds

  /** The runs the loop of `get_area` builds from the index list `idx`:
      an index that continues the previous one extends the current run,
      any other index starts a new run. */
  function Segments(idx: seq<nat>): (segs: seq<seq<nat>>)
    ensures |segs| > 0 <==> |idx| > 0
    ensures |segs| > 0 ==> |segs[|segs| - 1]| > 0 &&
                           segs[|segs| - 1][|segs[|segs| - 1]| - 1] == idx[|idx| - 1]
    decreases |idx|
  {
    if |idx| == 0 then []
    else
      var prev := Segments(idx[..|idx| - 1]);
      var j := idx[|idx| - 1];
      if Continues(idx, |idx| - 1) then prev[..|prev| - 1] + [prev[|prev| - 1] + [j]]
      else prev + [[j]]
  }

  /** The runs read one after another. */
  function Flatten(segs: seq<seq<nat>>): seq<nat>
    decreases |segs|
  {
    if |segs| == 0 then [] else Flatten(segs[..|segs| - 1]) + segs[|segs| - 1]
  }

  predicate Consecutive(s: seq<nat>)
  {
    forall k :: 0 < k < |s| ==> s[k] == s[k - 1] + 1
  }

  /** `segs` splits `idx` into non-empty runs of consecutive indices, with a
      gap of at least one missing index between one run and the next. */
  predicate IsRunPartition(idx: seq<nat>, segs: seq<seq<nat>>)
  {
    && Flatten(segs) == idx
    && (forall p :: 0 <= p < |segs| ==> |segs[p]| > 0 && Consecutive(segs[p]))
    && (forall p :: 0 < p < |segs| ==> segs[p][0] > segs[p - 1][|segs[p - 1]| - 1] + 1)
  }

  lemma FlattenSnoc(segs: seq<seq<nat>>, s: seq<nat>)
    ensures Flatten(segs + [s]) == Flatten(segs) + s
  {
    assert (segs + [s])[..|segs|] == segs;
  }

  /** Extending the last run by the index right after it keeps a run partition. */
  lemma PartitionExtendLast(idx: seq<nat>, segs: seq<seq<nat>>, j: nat)
    requires IsRunPartition(idx, segs) && |segs| > 0
    requires segs[|segs| - 1][|segs[|segs| - 1]| - 1] + 1 == j
    ensures IsRunPartition(idx + [j], segs[..|segs| - 1] + [segs[|segs| - 1] + [j]])
  {
    var L := |segs|;
    var init := segs[..L - 1];
    var last := segs[L - 1];
    var segs' := init + [last + [j]];
    assert segs == init + [last];
    FlattenSnoc(init, last);
    FlattenSnoc(init, last + [j]);
    assert Consecutive(last + [j]);
    assert forall p :: 0 <= p < L - 1 ==> segs'[p] == segs[p];
    assert segs'[L - 1][0] == last[0];
  }

  /** Starting a new run after a gap keeps a run partition. */
  lemma PartitionNewRun(idx: seq<nat>, segs: seq<seq<nat>>, j: nat)
    requires IsRunPartition(idx, segs)
    requires |segs| > 0 ==> j > segs[|segs| - 1][|segs[|segs| - 1]| - 1] + 1
    ensures IsRunPartition(idx + [j], segs + [[j]])
  {
    FlattenSnoc(segs, [j]);
    assert forall p :: 0 <= p < |segs| ==> (segs + [[j]])[p] == segs[p];
  }

  /** One step of the run-building loop keeps a run partition. */
  lemma SegmentsStep(idx: seq<nat>)
    requires |idx| > 0
    requires IsRunPartition(idx[..|idx| - 1], Segments(idx[..|idx| - 1]))
    requires |idx| > 1 ==> idx[|idx| - 1] > idx[|idx| - 2]
    ensures IsRunPartition(idx, Segments(idx))
  {
    var n := |idx|;
    var pre := idx[..n - 1];
    var prev := Segments(pre);
    var j := idx[n - 1];
    SplitLast(idx);
    if Continues(idx, n - 1) {
      assert n > 1;
      PartitionExtendLast(pre, prev, j);
    } else {
      PartitionNewRun(pre, prev, j);
    }
  }

  /** The runs built from an ascending index list partition it into maximal runs. */
  lemma {:induction false} SegmentsPartition(idx: seq<nat>)
    requires StrictlyIncreasing(idx)
    ensures IsRunPartition(idx, Segments(idx))
    decreases |idx|
  {
    if |idx| > 0 {
      IncreasingPrefix(idx);
      SegmentsPartition(idx[..|idx| - 1]);
      SegmentsStep(idx);
    }
  }

  /** There are as many runs as passes counted by the `j_prev` loop. */
  lemma {:induction false} SegmentsCount(idx: seq<nat>)
    ensures |Segments(idx)| == GroupCount(idx)
    decreases |idx|
  {
    if |idx| > 0 {
      SegmentsCount(idx[..|idx| - 1]);
    }
  }

  /** Every index in every run is below `n`. */
  predicate Bounded(segs: seq<seq<nat>>, n: nat)
  {
    forall p, k :: 0 <= p < |segs| && 0 <= k < |segs[p]| ==> segs[p][k] < n
  }

  lemma BoundedExtendLast(segs: seq<seq<nat>>, j: nat, n: nat)
    requires Bounded(segs, n) && |segs| > 0 && j < n
    ensures Bounded(segs[..|segs| - 1] + [segs[|segs| - 1] + [j]], n)
  {
    var L := |segs|;
    var segs' := segs[..L - 1] + [segs[L - 1] + [j]];
    forall p, k | 0 <= p < |segs'| && 0 <= k < |segs'[p]|
      ensures segs'[p][k] < n
    {
      if p < L - 1 {
        assert segs'[p] == segs[p];
      } else {
        assert segs'[p] == segs[L - 1] + [j];
      }
    }
  }

  lemma BoundedNewRun(segs: seq<seq<nat>>, j: nat, n: nat)
    requires Bounded(segs, n) && j < n
    ensures Bounded(segs + [[j]], n)
  {
    forall p, k | 0 <= p < |segs| + 1 && 0 <= k < |(segs + [[j]])[p]|
      ensures (segs + [[j]])[p][k] < n
    {
      if p < |segs| {
        assert (segs + [[j]])[p] == segs[p];
      }
    }
  }

  lemma {:induction false} SegmentsBounded(idx: seq<nat>, n: nat)
    requires forall k :: 0 <= k < |idx| ==> idx[k] < n
    ensures Bounded(Segments(idx), n)
    decreases |idx|
  {
    if |idx| > 0 {
      var pre := idx[..|idx| - 1];
      var j := idx[|idx| - 1];
      SegmentsBounded(pre, n);
      SplitLast(idx);
      SegmentsSnoc(pre, j);
      if |pre| > 0 && pre[|pre| - 1] + 1 == j {
        BoundedExtendLast(Segments(pre), j, n);
      } else {
        BoundedNewRun(Segments(pre), j, n);
      }
    }
  }

  /** `[a[j] for j in seg]`: the samples of one run. */
  function Gather(a: seq<real>, seg: seq<nat>): (r: seq<real>)
    requires forall k :: 0 <= k < |seg| ==> seg[k] < |a|
    ensures |r| == |seg|
    ensures forall k :: 0 <= k < |seg| ==> r[k] == a[seg[k]]
  {
    seq(|seg|, k requires 0 <= k < |seg| => a[seg[k]])
  }

  /** Area of one trapezoid from (x0, y0) to (x1, y1). */
  function Trapezoid(x0: real, x1: real, y0: real, y1: real): real
  {
    (x1 - x0) * (y0 + y1) / 2.0
  }

  /** `scipy.integrate.trapz(ys, xs)`: the trapezoid rule over consecutive samples. */
  function Trapz(ys: seq<real>, xs: seq<real>): real
    requires |ys| == |xs|
    decreases |ys|
  {
    if |ys| < 2 then 0.0
    else Trapz(ys[..|ys| - 1], xs[..|xs| - 1]) +
         Trapezoid(xs[|xs| - 2], xs[|xs| - 1], ys[|ys| - 2], ys[|ys| - 1])
  }

  /** What one run adds to `total_area`: its trapezoid sum when it has at least two samples. */
  function SegmentArea(seg: seq<nat>, m: seq<real>, t: seq<real>): real
    requires |m| == |t|
    requires forall k :: 0 <= k < |seg| ==> seg[k] < |m|
  {
    if |seg| >= 2 then Trapz(Gather(m, seg), Gather(t, seg)) else 0.0
  }

  function SegmentsArea(segs: seq<seq<nat>>, m: seq<real>, t: seq<real>): real
    requires |m| == |t| && Bounded(segs, |m|)
    decreases |segs|
  {
    if |segs| == 0 then 0.0
    else SegmentsArea(segs[..|segs| - 1], m, t) + SegmentArea(segs[|segs| - 1], m, t)
  }

  /** Some run was long enough to be handed to `trapz`. */
  predicate AnyIntegrated(segs: seq<seq<nat>>)
  {
    exists p :: 0 <= p < |segs| && |segs[p]| >= 2
  }

  /** The result of `get_area`: the summed area and whether any run was
      integrated. `total_area` stays the Python float `0.` when no run was,
      which decides how the later ratio divides by zero. */
  datatype AreaSum = AreaSum(total: real, integrated: bool)

  /** `get_area(sign, m, t)`; it fails (the `past_thresh[0]` IndexError)
      when no sample lies past the median line. */
  function GetArea(sign: Sign, m: seq<real>, t: seq<real>): (r: Option<AreaSum>)
    requires |m| == |t|
    ensures r.None? <==> forall i :: 0 <= i < |m| ==> !Past(sign, m[i], 0.0)
  {
    var q := PastMask(sign, m, 0.0);
    var idx := Where(q);
    if |idx| == 0 then
      assert forall i :: 0 <= i < |m| ==> !q[i];
      None
    else
      assert q[idx[0]];
      var segs := Segments(idx);
      SegmentsBounded(idx, |m|);
      Some(AreaSum(SegmentsArea(segs, m, t), AnyIntegrated(segs)))
  }

  // ---------------------------------------------------------------------
  // Reference definition: the area as a sum over adjacent pairs of samples.

  /** The trapezoid between samples k and k + 1. */
  function StepArea(m: seq<real>, t: seq<real>, k: nat): real
    requires |m| == |t| && k + 1 < |m|
  {
    Trapezoid(t[k], t[k + 1], m[k], m[k + 1])
  }

  /** The trapezoids over every adjacent pair k, k + 1 < n that are both past the line. */
  function PairedArea(q: seq<bool>, m: seq<real>, t: seq<real>, n: nat): real
    requires |q| == |m| == |t| && n <= |q|
    decreases n
  {
    if n < 2 then 0.0
    else PairedArea(q, m, t, n - 1) + (if q[n - 2] && q[n - 1] then StepArea(m, t, n - 2) else 0.0)
  }

  /** Some adjacent pair below `n` is past the line on both sides. */
  predicate HasPair(q: seq<bool>, n: nat)
    requires n <= |q|
  {
    exists k :: 0 <= k && k + 1 < n && q[k] && q[k + 1]
  }

  lemma TrapzSnoc(ys: seq<real>, xs: seq<real>, y: real, x: real)
    requires |ys| == |xs| && |ys| > 0
    ensures Trapz(ys + [y], xs + [x]) ==
            Trapz(ys, xs) + Trapezoid(xs[|xs| - 1], x, ys[|ys| - 1], y)
  {
    assert (ys + [y])[..|ys|] == ys;
    assert (xs + [x])[..|xs|] == xs;
  }

  /** Extending a run by the next index adds the trapezoid between them. */
  lemma SegmentAreaSnoc(seg: seq<nat>, j: nat, m: seq<real>, t: seq<real>)
    requires |m| == |t| && |seg| > 0 && j < |m|
    requires forall k :: 0 <= k < |seg| ==> seg[k] < |m|
    requires seg[|seg| - 1] + 1 == j
    ensures SegmentArea(seg + [j], m, t) == SegmentArea(seg, m, t) + StepArea(m, t, seg[|seg| - 1])
  {
    assert Gather(m, seg + [j]) == Gather(m, seg) + [m[j]];
    assert Gather(t, seg + [j]) == Gather(t, seg) + [t[j]];
    TrapzSnoc(Gather(m, seg), Gather(t, seg), m[j], t[j]);
    if |seg| == 1 {
      assert Trapz(Gather(m, seg), Gather(t, seg)) == 0.0;
    }
  }

  lemma SegmentsAreaSnoc(segs: seq<seq<nat>>, s: seq<nat>, m: seq<real>, t: seq<real>)
    requires |m| == |t| && Bounded(segs + [s], |m|)
    requires forall k :: 0 <= k < |s| ==> s[k] < |m|
    ensures Bounded(segs, |m|)
    ensures SegmentsArea(segs + [s], m, t) == SegmentsArea(segs, m, t) + SegmentArea(s, m, t)
  {
    assert (segs + [s])[..|segs|] == segs;
    assert forall p :: 0 <= p < |segs| ==> (segs + [s])[p] == segs[p];
  }

  /** How `Where` and the runs grow when the prefix of `q` grows by one position. */
  lemma WherePrefixSnoc(q: seq<bool>, n: nat)
    requires n < |q|
    ensures Where(q[..n + 1]) == Where(q[..n]) + (if q[n] then [n] else [])
  {
    WhereSnoc(q[..n + 1]);
    assert q[..n + 1][..n] == q[..n];
  }

  /** The positions of `q[..n]` end at n - 1 exactly when `q` holds there. */
  lemma WherePrefixEnds(q: seq<bool>, n: nat)
    requires n <= |q|
    ensures var w := Where(q[..n]);
            |w| > 0 && w[|w| - 1] + 1 == n <==> n > 0 && q[n - 1]
  {
    if n > 0 {
      WhereEndsAtLast(q[..n]);
      assert q[..n][n - 1] == q[n - 1];
    }
  }

  /** One more index either extends the last run or opens a new one. */
  lemma SegmentsSnoc(w: seq<nat>, j: nat)
    ensures |w| > 0 && w[|w| - 1] + 1 == j ==>
              var segs := Segments(w);
              Segments(w + [j]) == segs[..|segs| - 1] + [segs[|segs| - 1] + [j]]
    ensures !(|w| > 0 && w[|w| - 1] + 1 == j) ==> Segments(w + [j]) == Segments(w) + [[j]]
  {
    assert (w + [j])[..|w|] == w;
  }

  /** Extending the last run by index `k` adds the trapezoid that ends at `k`. */
  lemma SegmentsExtendLastArea(segs: seq<seq<nat>>, k: nat, m: seq<real>, t: seq<real>)
    requires |m| == |t| && k < |m| && Bounded(segs, |m|) && |segs| > 0
    requires |segs[|segs| - 1]| > 0 && segs[|segs| - 1][|segs[|segs| - 1]| - 1] + 1 == k
    ensures var segs' := segs[..|segs| - 1] + [segs[|segs| - 1] + [k]];
            && Bounded(segs', |m|)
            && SegmentsArea(segs', m, t) == SegmentsArea(segs, m, t) + StepArea(m, t, k - 1)
            && AnyIntegrated(segs')
  {
    var L := |segs|;
    var init := segs[..L - 1];
    var last := segs[L - 1];
    var segs' := init + [last + [k]];
    assert segs == init + [last];
    assert forall p :: 0 <= p < L - 1 ==> segs'[p] == segs[p];
    assert segs'[L - 1] == last + [k];
    assert Bounded(segs', |m|);
    SegmentsAreaSnoc(init, last, m, t);
    SegmentsAreaSnoc(init, last + [k], m, t);
    SegmentAreaSnoc(last, k, m, t);
  }

  /** A new single-index run adds no area and is not integrated. */
  lemma SegmentsNewRunArea(segs: seq<seq<nat>>, k: nat, m: seq<real>, t: seq<real>)
    requires |m| == |t| && k < |m| && Bounded(segs, |m|)
    ensures Bounded(segs + [[k]], |m|)
    ensures SegmentsArea(segs + [[k]], m, t) == SegmentsArea(segs, m, t)
    ensures AnyIntegrated(segs + [[k]]) <==> AnyIntegrated(segs)
  {
    var segs' := segs + [[k]];
    assert forall p :: 0 <= p < |segs| ==> segs'[p] == segs[p];
    BoundedNewRun(segs, k, |m|);
    SegmentsAreaSnoc(segs, [k], m, t);
    if AnyIntegrated(segs') {
      var p :| 0 <= p < |segs'| && |segs'[p]| >= 2;
      assert p < |segs|;
    }
  }

  lemma HasPairSnoc(q: seq<bool>, n: nat)
    requires n < |q|
    ensures HasPair(q, n + 1) <==> HasPair(q, n) || (n > 0 && q[n - 1] && q[n])
  {
    if HasPair(q, n + 1) && !(n > 0 && q[n - 1] && q[n]) {
      var k :| 0 <= k && k + 1 < n + 1 && q[k] && q[k + 1];
      assert k + 1 < n;
    }
  }

  /** The trapezoids between neighbouring entries of `idx` that are consecutive indices. */
  function StepsArea(idx: seq<nat>, m: seq<real>, t: seq<real>): real
    requires |m| == |t| && forall k :: 0 <= k < |idx| ==> idx[k] < |m|
    decreases |idx|
  {
    if |idx| < 2 then 0.0
    else
      var n := |idx|;
      StepsArea(idx[..n - 1], m, t) + (if idx[n - 2] + 1 == idx[n - 1] then StepArea(m, t, idx[n - 2]) else 0.0)
  }

  /** Some neighbouring entries of `idx` are consecutive indices. */
  predicate HasStep(idx: seq<nat>)
  {
    exists p :: 0 < p < |idx| && idx[p - 1] + 1 == idx[p]
  }

  lemma HasStepSnoc(idx: seq<nat>, j: nat)
    ensures HasStep(idx + [j]) <==> HasStep(idx) || (|idx| > 0 && idx[|idx| - 1] + 1 == j)
  {
    var idx' := idx + [j];
    if HasStep(idx') && !(|idx| > 0 && idx[|idx| - 1] + 1 == j) {
      var p :| 0 < p < |idx'| && idx'[p - 1] + 1 == idx'[p];
      assert p < |idx| && idx[p - 1] + 1 == idx[p];
    }
    if HasStep(idx) {
      var p :| 0 < p < |idx| && idx[p - 1] + 1 == idx[p];
      assert idx'[p - 1] + 1 == idx'[p];
    }
    if |idx| > 0 && idx[|idx| - 1] + 1 == j {
      assert idx'[|idx| - 1] + 1 == idx'[|idx|];
    }
  }

  lemma StepsAreaSnoc(idx: seq<nat>, j: nat, m: seq<real>, t: seq<real>)
    requires |m| == |t| && j < |m| && forall k :: 0 <= k < |idx| ==> idx[k] < |m|
    ensures StepsArea(idx + [j], m, t) ==
            StepsArea(idx, m, t) + (if |idx| > 0 && idx[|idx| - 1] + 1 == j then StepArea(m, t, idx[|idx| - 1]) else 0.0)
  {
    assert (idx + [j])[..|idx|] == idx;
  }

  /** The facts `SegmentsAreaIsSteps` establishes for an index list. */
  predicate AreaMatchesSteps(idx: seq<nat>, m: seq<real>, t: seq<real>)
    requires |m| == |t| && forall k :: 0 <= k < |idx| ==> idx[k] < |m|
  {
    && Bounded(Segments(idx), |m|)
    && SegmentsArea(Segments(idx), m, t) == StepsArea(idx, m, t)
    && (AnyIntegrated(Segments(idx)) <==> HasStep(idx))
  }

  /** An index right after the previous one extends the last run by one step. */
  lemma AreaStepExtend(pre: seq<nat>, j: nat, m: seq<real>, t: seq<real>)
    requires |m| == |t| && j < |m| && forall k :: 0 <= k < |pre| ==> pre[k] < |m|
    requires |pre| > 0 && pre[|pre| - 1] + 1 == j
    requires AreaMatchesSteps(pre, m, t)
    ensures AreaMatchesSteps(pre + [j], m, t)
  {
    SegmentsSnoc(pre, j);
    StepsAreaSnoc(pre, j, m, t);
    HasStepSnoc(pre, j);
    SegmentsExtendLastArea(Segments(pre), j, m, t);
  }

  /** An index after a gap opens a new run and adds no step. */
  lemma AreaStepNew(pre: seq<nat>, j: nat, m: seq<real>, t: seq<real>)
    requires |m| == |t| && j < |m| && forall k :: 0 <= k < |pre| ==> pre[k] < |m|
    requires !(|pre| > 0 && pre[|pre| - 1] + 1 == j)
    requires AreaMatchesSteps(pre, m, t)
    ensures AreaMatchesSteps(pre + [j], m, t)
  {
    SegmentsSnoc(pre, j);
    StepsAreaSnoc(pre, j, m, t);
    HasStepSnoc(pre, j);
    SegmentsNewRunArea(Segments(pre), j, m, t);
  }

  /** The runs' area is the sum of steps between consecutive indices, and a
      run was integrated exactly when there is such a step. */
  lemma {:induction false} SegmentsAreaIsSteps(idx: seq<nat>, m: seq<real>, t: seq<real>)
    requires |m| == |t| && forall k :: 0 <= k < |idx| ==> idx[k] < |m|
    ensures Bounded(Segments(idx), |m|)
    ensures SegmentsArea(Segments(idx), m, t) == StepsArea(idx, m, t)
    ensures AnyIntegrated(Segments(idx)) <==> HasStep(idx)
    decreases |idx|
  {
    if |idx| > 0 {
      var pre := idx[..|idx| - 1];
      var j := idx[|idx| - 1];
      SegmentsAreaIsSteps(pre, m, t);
      SplitLast(idx);
      if |pre| > 0 && pre[|pre| - 1] + 1 == j {
        AreaStepExtend(pre, j, m, t);
      } else {
        AreaStepNew(pre, j, m, t);
      }
    }
  }

  /** Adding a position `k` at which `q` holds adds the step ending at `k`
      exactly when `q` also holds at k - 1. */
  lemma StepsAddPosition(q: seq<bool>, m: seq<real>, t: seq<real>, k: nat, w: seq<nat>)
    requires |q| == |m| == |t| && k < |q| && q[k]
    requires forall i :: 0 <= i < |w| ==> w[i] < k
    requires (|w| > 0 && w[|w| - 1] + 1 == k) <==> (k > 0 && q[k - 1])
    requires StepsArea(w, m, t) == PairedArea(q, m, t, k)
    requires HasStep(w) <==> HasPair(q, k)
    ensures StepsArea(w + [k], m, t) == PairedArea(q, m, t, k + 1)
    ensures HasStep(w + [k]) <==> HasPair(q, k + 1)
  {
    StepsAreaSnoc(w, k, m, t);
    HasStepSnoc(w, k);
    HasPairSnoc(q, k);
  }

  /** Over the positions of `q`, steps between consecutive indices are exactly
      the adjacent pairs at which `q` holds on both sides. */
  lemma {:induction false} StepsOfWhere(q: seq<bool>, m: seq<real>, t: seq<real>, n: nat)
    requires |q| == |m| == |t| && n <= |q|
    ensures forall k :: 0 <= k < |Where(q[..n])| ==> Where(q[..n])[k] < |m|
    ensures StepsArea(Where(q[..n]), m, t) == PairedArea(q, m, t, n)
    ensures HasStep(Where(q[..n])) <==> HasPair(q, n)
    decreases n
  {
    if n == 0 {
      assert q[..0] == [];
    } else {
      StepsOfWhere(q, m, t, n - 1);
      StepsOfWherePosition(q, m, t, n - 1);
    }
  }

  /** Position `k` of `q` moves the steps of `q[..k]` on to those of `q[..k + 1]`. */
  lemma StepsOfWherePosition(q: seq<bool>, m: seq<real>, t: seq<real>, k: nat)
    requires |q| == |m| == |t| && k < |q|
    requires StepsArea(Where(q[..k]), m, t) == PairedArea(q, m, t, k)
    requires HasStep(Where(q[..k])) <==> HasPair(q, k)
    ensures StepsArea(Where(q[..k + 1]), m, t) == PairedArea(q, m, t, k + 1)
    ensures HasStep(Where(q[..k + 1])) <==> HasPair(q, k + 1)
  {
    WherePrefixSnoc(q, k);
    var w := Where(q[..k]);
    if q[k] {
      WherePrefixEnds(q, k);
      StepsAddPosition(q, m, t, k, w);
    } else {
      StepsSkipPosition(q, m, t, k);
    }
  }

  /** A position at which `q` fails adds neither an index nor a pair. */
  lemma StepsSkipPosition(q: seq<bool>, m: seq<real>, t: seq<real>, k: nat)
    requires |q| == |m| == |t| && k < |q| && !q[k]
    ensures Where(q[..k + 1]) == Where(q[..k])
    ensures PairedArea(q, m, t, k + 1) == PairedArea(q, m, t, k)
    ensures HasPair(q, k + 1) <==> HasPair(q, k)
  {
    WherePrefixSnoc(q, k);
    HasPairSnoc(q, k);
  }

  /** `get_area` equals the sum of trapezoids over adjacent pairs of samples
      that are both past the median line, and a run was integrated exactly
      when such a pair exists. */
  lemma GetAreaIsPairedArea(sign: Sign, m: seq<real>, t: seq<real>)
    requires |m| == |t|
    requires exists i :: 0 <= i < |m| && Past(sign, m[i], 0.0)
    ensures var q := PastMask(sign, m, 0.0);
            GetArea(sign, m, t) == Some(AreaSum(PairedArea(q, m, t, |m|), HasPair(q, |m|)))
  {
    var q := PastMask(sign, m, 0.0);
    assert q[..|m|] == q;
    StepsOfWhere(q, m, t, |m|);
    SegmentsAreaIsSteps(Where(q), m, t);
  }

  /** Without an adjacent pair past the line nothing is integrated and the area is 0. */
  lemma {:induction false} NoPairNoArea(q: seq<bool>, m: seq<real>, t: seq<real>, n: nat)
    requires |q| == |m| == |t| && n <= |q| && !HasPair(q, n)
    ensures PairedArea(q, m, t, n) == 0.0
    decreases n
  {
    if n >= 2 {
      assert !HasPair(q, n - 1);
      NoPairNoArea(q, m, t, n - 1);
    }
  }

  /** Over non-decreasing times, trapezoids above the line are non-negative
      and those below it are non-positive. */
  lemma {:induction false} PairedAreaSign(sign: Sign, m: seq<real>, t: seq<real>, n: nat)
    requires |m| == |t| && n <= |m| && NonDecreasing(t)
    ensures sign == Pos ==> PairedArea(PastMask(sign, m, 0.0), m, t, n) >= 0.0
    ensures sign == Neg ==> PairedArea(PastMask(sign, m, 0.0), m, t, n) <= 0.0
    decreases n
  {
    if n >= 2 {
      PairedAreaSign(sign, m, t, n - 1);
      var q := PastMask(sign, m, 0.0);
      if q[n - 2] && q[n - 1] {
        var dt := t[n - 1] - t[n - 2];
        var h := m[n - 2] + m[n - 1];
        assert dt >= 0.0;
        assert StepArea(m, t, n - 2) == dt * h / 2.0;
        if sign == Pos {
          assert h > 0.0;
          MulNonNegative(dt, h);
        } else {
          assert h < 0.0;
          MulNonNegative(dt, -h);
          assert dt * -h == -(dt * h);
        }
      }
    }
  }

  /** With non-decreasing times the 'pos' area is non-negative and the 'neg' area non-positive. */
  lemma AreaSign(sign: Sign, m: seq<real>, t: seq<real>)
    requires |m| == |t| && NonDecreasing(t) && GetArea(sign, m, t).Some?
    ensures sign == Pos ==> GetArea(sign, m, t).value.total >= 0.0
    ensures sign == Neg ==> GetArea(sign, m, t).value.total <= 0.0
  {
    var i :| 0 <= i < |m| && Past(sign, m[i], 0.0);
    GetAreaIsPairedArea(sign, m, t);
    PairedAreaSign(sign, m, t, |m|);
  }

  /** A run that was never integrated leaves `total_area` at 0. */
  lemma UnintegratedAreaIsZero(sign: Sign, m: seq<real>, t: seq<real>)
    requires |m| == |t| && GetArea(sign, m, t).Some?
    requires !GetArea(sign, m, t).value.integrated
    ensures GetArea(sign, m, t).value.total == 0.0
  {
    var i :| 0 <= i < |m| && Past(sign, m[i], 0.0);
    GetAreaIsPairedArea(sign, m, t);
    NoPairNoArea(PastMask(sign, m, 0.0), m, t, |m|);
  }
}
