/** Counting threshold passes: the `j_prev` loop shared by
    `get_n_passing_median` and `get_dmag_at_median_threshold`. A "pass" is a
    maximal run of consecutive indices at which a condition holds. */
module Runs {
  import opened Seqs

  /** The positions at which `q` holds, in ascending order (what
      `numpy.where(cond)[0]` returns). */
  function Where(q: seq<bool>): (idx: seq<nat>)
    ensures forall k :: 0 <= k < |idx| ==> idx[k] < |q| && q[idx[k]]
    ensures forall i :: 0 <= i < |q| && q[i] ==> i in idx
    ensures StrictlyIncreasing(idx)
    decreases |q|
  {
    if |q| == 0 then []
    else Where(q[..|q| - 1]) + (if q[|q| - 1] then [|q| - 1] else [])
  }

  /** The value the loop gives `j_prev` before the first index, "some value < -1". */
  const NoPrevious: int := -10

  /** Whether `idx[k]` continues the pass of the index before it, as the test
      `j-1 == j_prev` decides. */
  predicate Continues(idx: seq<nat>, k: nat)
    requires k < |idx|
  {
    idx[k] as int - 1 == (if k == 0 then NoPrevious else idx[k - 1])
  }

  /** Number of passes the loop counts over an index list: each index that
      does not continue the previous one opens a new pass. */
  function GroupCount(idx: seq<nat>): nat
    decreases |idx|
  {
    if |idx| == 0 then 0
    else GroupCount(idx[..|idx| - 1]) + (if Continues(idx, |idx| - 1) then 0 else 1)
  }

  /** Position `i` starts a maximal run of `q`: it holds there and not just before. */
  predicate RunStart(q: seq<bool>, i: nat)
    requires i < |q|
  {
    q[i] && (i == 0 || !q[i - 1])
  }

  /** Number of maximal runs of `q`, counted by their first positions. */
  function RunCount(q: seq<bool>): nat
    decreases |q|
  {
    if |q| == 0 then 0
    else RunCount(q[..|q| - 1]) + (if RunStart(q, |q| - 1) then 1 else 0)
  }

  /** The `j_prev` loop of `get_n_passing_median` and
      `get_dmag_at_median_threshold`, over the index list `pastThresh`:
      over the positions `numpy.where` returns it counts the maximal runs. */
  method CountPassthroughs(pastThresh: seq<nat>) returns (n: nat)
    ensures n == GroupCount(pastThresh)
    ensures forall q :: pastThresh == Where(q) ==> n == RunCount(q)
  {
    n := 0;
    var jPrev: int := NoPrevious;
    var k := 0;
    while k < |pastThresh|
      invariant 0 <= k <= |pastThresh|
      invariant jPrev == (if k == 0 then NoPrevious else pastThresh[k - 1])
      invariant n == GroupCount(pastThresh[..k])
    {
      var j := pastThresh[k];
      assert pastThresh[..k + 1][..k] == pastThresh[..k];
      if j as int - 1 == jPrev {
        jPrev := j;
      } else {
        n := n + 1;
        jPrev := j;
      }
      k := k + 1;
    }
    assert pastThresh[..k] == pastThresh;
    forall q | pastThresh == Where(q)
      ensures n == RunCount(q)
    {
      GroupCountOfWhere(q);
    }
  }

  /** The ascending positions of `q` end just before |q| exactly when `q` holds at its last position. */
  lemma WhereEndsAtLast(q: seq<bool>)
    requires |q| > 0
    ensures var w := Where(q);
            |w| > 0 && w[|w| - 1] + 1 == |q| <==> q[|q| - 1]
  {
    var w := Where(q);
    if q[|q| - 1] {
      assert |q| - 1 in w;
      var k :| 0 <= k < |w| && w[k] == |q| - 1;
      if k != |w| - 1 {
        assert false;
      }
    }
  }

  /** Appending one index adds a pass unless it continues the last one. */
  lemma GroupCountSnoc(idx: seq<nat>, j: nat)
    ensures GroupCount(idx + [j]) ==
            GroupCount(idx) + (if |idx| > 0 && idx[|idx| - 1] + 1 == j then 0 else 1)
  {
    assert (idx + [j])[..|idx|] == idx;
  }

  /** Where(q) grows by the last position exactly when `q` holds there. */
  lemma WhereSnoc(q: seq<bool>)
    requires |q| > 0
    ensures Where(q) == Where(q[..|q| - 1]) + (if q[|q| - 1] then [|q| - 1] else [])
  {
  }

  /** The last position of `q` opens a run exactly when the loop opens a pass for it. */
  lemma LastOpensRun(q: seq<bool>)
    requires |q| > 0 && q[|q| - 1]
    ensures var wp := Where(q[..|q| - 1]);
            RunStart(q, |q| - 1) <==> !(|wp| > 0 && wp[|wp| - 1] + 1 == |q| - 1)
  {
    var n := |q|;
    if n >= 2 {
      var p := q[..n - 1];
      WhereEndsAtLast(p);
      assert p[n - 2] == q[n - 2];
    }
  }

  /** The loop over `numpy.where(q)[0]` counts exactly the maximal runs of `q`. */
  lemma {:induction false} GroupCountOfWhere(q: seq<bool>)
    ensures GroupCount(Where(q)) == RunCount(q)
    decreases |q|
  {
    if |q| > 0 {
      var n := |q|;
      var p := q[..n - 1];
      GroupCountOfWhere(p);
      assert RunCount(q) == RunCount(p) + (if RunStart(q, n - 1) then 1 else 0);
      WhereSnoc(q);
      if q[n - 1] {
        GroupCountSnoc(Where(p), n - 1);
        LastOpensRun(q);
      } else {
        assert Where(q) == Where(p);
      }
    }
  }

  /** Every pass holds at least one index, and a non-empty list opens at least one pass. */
  lemma {:induction false} GroupCountBounds(idx: seq<nat>)
    ensures GroupCount(idx) <= |idx|
    ensures GroupCount(idx) == 0 <==> |idx| == 0
    decreases |idx|
  {
    if |idx| > 0 {
      GroupCountBounds(idx[..|idx| - 1]);
      if |idx| == 1 {
        assert !Continues(idx, 0);
      }
    }
  }

  /** Run starts are never adjacent, so a curve of length N has at most
      ceil(N/2) passes, and at most N/2 when it ends outside a run. */
  lemma {:induction false} RunCountHalf(q: seq<bool>)
    ensures RunCount(q) <= (|q| + 1) / 2
    ensures |q| > 0 && !q[|q| - 1] ==> RunCount(q) <= |q| / 2
    decreases |q|
  {
    if |q| > 0 {
      var p := q[..|q| - 1];
      RunCountHalf(p);
      if |p| > 0 {
        assert p[|p| - 1] == q[|q| - 2];
      }
    }
  }

  /** The number of passes of the condition `q`, as both extractor loops count them. */
  function PassCount(q: seq<bool>): (n: nat)
    ensures n == RunCount(q)
    ensures n == 0 <==> forall i :: 0 <= i < |q| ==> !q[i]
    ensures n <= |Where(q)|
    ensures n <= (|q| + 1) / 2
  {
    GroupCountOfWhere(q);
    GroupCountBounds(Where(q));
    RunCountHalf(q);
    var w := Where(q);
    assert |w| == 0 <==> forall i :: 0 <= i < |q| ==> !q[i] by {
      if |w| > 0 {
        assert q[w[0]];
      }
    }
    GroupCount(w)
  }
}
