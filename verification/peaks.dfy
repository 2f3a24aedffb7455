/** `find_peaks`: the interior samples strictly above both neighbours. */
module Peaks {
  import opened Seqs
  import opened Runs

  /** Sample i is a strict local maximum. */
  predicate IsPeak(x: seq<real>, i: nat)
  {
    1 <= i < |x| - 1 && x[i] > x[i - 1] && x[i] > x[i + 1]
  }

  /** `numpy.logical_and(xmid > xm1, xmid > xp1)`: entry k compares `x[k+1]`
      with its neighbours; empty for fewer than three samples. */
  function InteriorMask(x: seq<real>): (q: seq<bool>)
    ensures |q| == if |x| < 2 then 0 else |x| - 2
    ensures forall k :: 0 <= k < |q| ==> (q[k] <==> IsPeak(x, k + 1))
  {
    var n := if |x| < 2 then 0 else |x| - 2;
    seq(n, k requires 0 <= k < n => x[k + 1] > x[k + 2] && x[k + 1] > x[k])
  }

  /** `find_peaks(x)`: the peak positions, in ascending order. */
  function FindPeaks(x: seq<real>): (r: seq<nat>)
    ensures forall i :: i in r <==> IsPeak(x, i)
    ensures StrictlyIncreasing(r)
  {
    var q := InteriorMask(x);
    var w := Where(q);
    forall i: nat
      ensures i in PlusOne(w) <==> IsPeak(x, i)
    {
      PlusOneMember(w, i);
      if i >= 1 && i - 1 in w {
        var k :| 0 <= k < |w| && w[k] == i - 1;
        assert q[i - 1];
      }
    }
    PlusOne(w)
  }

  /** `+ 1` on every index. */
  function PlusOne(w: seq<nat>): (r: seq<nat>)
    ensures |r| == |w|
    ensures forall k :: 0 <= k < |w| ==> r[k] == w[k] + 1
  {
    seq(|w|, k requires 0 <= k < |w| => w[k] + 1)
  }

  lemma PlusOneMember(w: seq<nat>, i: nat)
    ensures i in PlusOne(w) <==> i >= 1 && i - 1 in w
  {
    if i >= 1 && i - 1 in w {
      var k :| 0 <= k < |w| && w[k] == i - 1;
      assert PlusOne(w)[k] == i;
    }
  }

  /** Two neighbouring samples are never both peaks. */
  lemma PeaksNotAdjacent(x: seq<real>, k: nat)
    requires k + 1 < |FindPeaks(x)|
    ensures FindPeaks(x)[k + 1] >= FindPeaks(x)[k] + 2
  {
    var r := FindPeaks(x);
    var a, b := r[k], r[k + 1];
    assert a < b;
    assert a in r && b in r;
    assert IsPeak(x, a) && IsPeak(x, b);
    NeighboursNotBothPeaks(x, a);
  }

  lemma NeighboursNotBothPeaks(x: seq<real>, a: nat)
    ensures !(IsPeak(x, a) && IsPeak(x, a + 1))
  {
  }
}
