/** `get_n_passing_median` and `get_dmag_at_median_threshold`: pass counts
    at 20 evenly spaced thresholds and the threshold at which the running
    total of passes first reaches half of all passes. */
module Thresholds {
  import opened Wrappers
  import opened Seqs
  import opened Runs

  /** Direction of the scan: above the median line ('pos') or below it ('neg'). */
  datatype Sign = Pos | Neg

  /** Length of `thresh_list`. */
  const NumThresholds: nat := 20

  /** `numpy.linspace(start, stop, num)`: num values, start + k * step. */
  function Linspace(start: real, stop: real, num: nat): (r: seq<real>)
    requires num >= 2
    ensures |r| == num
    ensures r[0] == start && r[num - 1] == stop
    ensures forall k :: 0 <= k < num - 1 ==> r[k + 1] - r[k] == (stop - start) / ((num - 1) as real)
  {
    var step := (stop - start) / ((num - 1) as real);
    assert ((num - 1) as real) * step == stop - start;
    seq(num, k requires 0 <= k < num => start + (k as real) * step)
  }

  /** Evenly spaced values between two endpoints stay between them. */
  lemma LinspaceBetween(start: real, stop: real, num: nat, k: nat)
    requires num >= 2 && k < num
    ensures start <= stop ==> start <= Linspace(start, stop, num)[k] <= stop
    ensures stop <= start ==> stop <= Linspace(start, stop, num)[k] <= start
  {
    var step := (stop - start) / ((num - 1) as real);
    assert ((num - 1) as real) * step == stop - start;
    assert Linspace(start, stop, num)[k] == start + (k as real) * step;
    assert stop - (start + (k as real) * step) == ((num - 1 - k) as real) * step;
    if start <= stop {
      MulNonNegative(k as real, step);
      MulNonNegative((num - 1 - k) as real, step);
    } else {
      MulNonNegative(k as real, -step);
      MulNonNegative((num - 1 - k) as real, -step);
    }
  }

  /** The thresholds scanned for one direction: from 0 up to the curve's
      maximum for 'pos', from its minimum up to 0 for 'neg'. */
  function ThreshList(sign: Sign, m: seq<real>): (r: seq<real>)
    requires |m| > 0
    ensures |r| == NumThresholds
    ensures sign == Pos ==> r[0] == 0.0 && r[NumThresholds - 1] == Max(m)
    ensures sign == Neg ==> r[0] == Min(m) && r[NumThresholds - 1] == 0.0
  {
    match sign
    case Pos => Linspace(0.0, Max(m), NumThresholds)
    case Neg => Linspace(Min(m), 0.0, NumThresholds)
  }

  /** A value is past a threshold when strictly above it ('pos') or strictly below it ('neg'). */
  predicate Past(sign: Sign, x: real, thresh: real)
  {
    match sign
    case Pos => x > thresh
    case Neg => x < thresh
  }

  /** The condition array `normalized_model_mags > thresh` (or `<`). */
  function PastMask(sign: Sign, m: seq<real>, thresh: real): (q: seq<bool>)
    ensures |q| == |m|
    ensures forall i :: 0 <= i < |m| ==> (q[i] <==> Past(sign, m[i], thresh))
  {
    seq(|m|, i requires 0 <= i < |m| => Past(sign, m[i], thresh))
  }

  /** `get_n_passing_median`: the passes of the curve above its median line. */
  function NPassingMedian(m: seq<real>): (n: nat)
    ensures n == RunCount(PastMask(Pos, m, 0.0))
    ensures n == 0 <==> forall i :: 0 <= i < |m| ==> m[i] <= 0.0
    ensures n <= (|m| + 1) / 2
  {
    var q := PastMask(Pos, m, 0.0);
    assert forall i :: 0 <= i < |m| ==> (q[i] <==> m[i] > 0.0);
    PassCount(q)
  }

  /** `thresh_passthru`: the pass count at every threshold of the scan. */
  function PassCounts(sign: Sign, m: seq<real>): (c: seq<nat>)
    requires |m| > 0
    ensures |c| == NumThresholds
    ensures forall k :: 0 <= k < NumThresholds ==>
              c[k] == RunCount(PastMask(sign, m, ThreshList(sign, m)[k]))
  {
    var th := ThreshList(sign, m);
    seq(NumThresholds, k requires 0 <= k < NumThresholds => PassCount(PastMask(sign, m, th[k])))
  }

  /** The running total up to and including `counts[i]` has reached half the grand total. */
  predicate ReachesHalf(counts: seq<nat>, i: nat)
    requires i < |counts|
  {
    (SumNat(counts[..i + 1]) as real) >= (SumNat(counts) as real) / 2.0
  }

  /** `i` is where the selection loop breaks: the first index whose running total reaches half. */
  predicate IsMedianIndex(counts: seq<nat>, i: nat)
  {
    && i < |counts|
    && ReachesHalf(counts, i)
    && forall j :: 0 <= j < i ==> !ReachesHalf(counts, j)
  }

  /** The selection loop of `get_dmag_at_median_threshold` from index `i` on, with `cumul`
      the running total so far; it always breaks before running out. */
  function MedianIndexFrom(counts: seq<nat>, i: nat, cumul: nat): (r: nat)
    requires i < |counts| && cumul == SumNat(counts[..i])
    requires forall j :: 0 <= j < i ==> !ReachesHalf(counts, j)
    ensures i <= r && IsMedianIndex(counts, r)
    decreases |counts| - i
  {
    SumNatSnocPrefix(counts, i);
    var c := cumul + counts[i];
    if (c as real) >= (SumNat(counts) as real) / 2.0 then i
    else
      assert counts[..|counts|] == counts;
      MedianIndexFrom(counts, i + 1, c)
  }

  /** The index the selection loop stops at. */
  function MedianIndex(counts: seq<nat>): (r: nat)
    requires |counts| > 0
    ensures IsMedianIndex(counts, r)
  {
    assert counts[..0] == [];
    MedianIndexFrom(counts, 0, 0)
  }

  /** There is only one first index reaching half. */
  lemma MedianIndexUnique(counts: seq<nat>, i: nat, j: nat)
    requires IsMedianIndex(counts, i) && IsMedianIndex(counts, j)
    ensures i == j
  {
  }

  /** With no passes at all, the selection stops at the first threshold. */
  lemma {:induction false} AllZeroPicksFirst(counts: seq<nat>)
    requires |counts| > 0
    requires forall k :: 0 <= k < |counts| ==> counts[k] == 0
    ensures MedianIndex(counts) == 0
  {
    SumNatPrefix(counts, 1);
    assert counts[..1] == [counts[0]];
    assert SumNat(counts[..1]) == 0 by {
      assert counts[..1][..0] == [];
    }
    assert ReachesHalf(counts, 0) by {
      SumZero(counts);
    }
  }

  /** When there is at least one pass, the selected threshold has passes of its own:
      it is the index at which the running total crosses half. */
  lemma SelectedCountPositive(counts: seq<nat>, i: nat)
    requires IsMedianIndex(counts, i) && SumNat(counts) > 0
    ensures counts[i] > 0
  {
    SumNatSnocPrefix(counts, i);
    if i == 0 {
      assert counts[..0] == [];
    } else {
      assert !ReachesHalf(counts, i - 1);
    }
  }

  /** The two values `get_dmag_at_median_threshold` returns. */
  datatype Dmag = Dmag(deltaMagMedian: real, nThreshMedian: nat)

  /** `get_dmag_at_median_threshold`; fails on an empty curve, where `numpy.max`/`numpy.min` raise. */
  function DmagAtMedianThreshold(sign: Sign, m: seq<real>): (r: Option<Dmag>)
    ensures r.None? <==> |m| == 0
    ensures r.Some? ==>
              exists i: nat :: IsMedianIndex(PassCounts(sign, m), i) &&
                          r.value == Dmag(ThreshList(sign, m)[i], PassCounts(sign, m)[i])
  {
    if |m| == 0 then None
    else
      var counts := PassCounts(sign, m);
      var i := MedianIndex(counts);
      Some(Dmag(ThreshList(sign, m)[i], counts[i]))
  }

  /** The 'pos' scan's first threshold is the median line itself, so its
      count is the one `get_n_passing_median` returns. */
  lemma PosFirstCountIsMedianCount(m: seq<real>)
    requires |m| > 0
    ensures PassCounts(Pos, m)[0] == NPassingMedian(m)
  {
  }

  /** A curve that rises above its median has 'pos' passes at threshold 0. */
  lemma PosPassesExist(m: seq<real>)
    requires exists i :: 0 <= i < |m| && m[i] > 0.0
    ensures SumNat(PassCounts(Pos, m)) > 0
  {
    PosFirstCountIsMedianCount(m);
    SumNatElement(PassCounts(Pos, m), 0);
  }

  /** A curve that dips below its median has 'neg' passes at the last threshold, 0. */
  lemma NegPassesExist(m: seq<real>)
    requires exists i :: 0 <= i < |m| && m[i] < 0.0
    ensures SumNat(PassCounts(Neg, m)) > 0
  {
    var c := PassCounts(Neg, m);
    var q := PastMask(Neg, m, 0.0);
    var i :| 0 <= i < |m| && m[i] < 0.0;
    assert q[i];
    assert PassCount(q) > 0;
    SumNatElement(c, NumThresholds - 1);
  }

  /** The selected 'pos' threshold lies between 0 and the maximum, the 'neg' one between the minimum and 0. */
  lemma DmagInRange(sign: Sign, m: seq<real>)
    requires |m| > 0
    ensures var d := DmagAtMedianThreshold(sign, m).value.deltaMagMedian;
            sign == Pos && Max(m) >= 0.0 ==> 0.0 <= d <= Max(m)
    ensures var d := DmagAtMedianThreshold(sign, m).value.deltaMagMedian;
            sign == Neg && Min(m) <= 0.0 ==> Min(m) <= d <= 0.0
  {
    var i := MedianIndex(PassCounts(sign, m));
    match sign
    case Pos => LinspaceBetween(0.0, Max(m), NumThresholds, i);
    case Neg => LinspaceBetween(Min(m), 0.0, NumThresholds, i);
  }

  /** When the scan sees any pass, the count reported with the threshold is positive. */
  lemma DmagCountPositive(sign: Sign, m: seq<real>)
    requires |m| > 0 && SumNat(PassCounts(sign, m)) > 0
    ensures DmagAtMedianThreshold(sign, m).value.nThreshMedian > 0
  {
    SelectedCountPositive(PassCounts(sign, m), MedianIndex(PassCounts(sign, m)));
  }
}
