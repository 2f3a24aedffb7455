/** Sums, extrema and small arithmetic facts over sequences of reals and
    counts, shared by the smoother and the shape statistics. */
module Seqs {

  function Abs(x: real): (r: real)
    ensures r >= 0.0 && (r == x || r == -x)
  {
    if x < 0.0 then -x else x
  }

  lemma MulNonNegative(a: real, b: real)
    requires a >= 0.0 && b >= 0.0
    ensures a * b >= 0.0
  {
  }

  /** Sum of a sequence of reals, accumulated from the front. */
  function Sum(s: seq<real>): real
    decreases |s|
  {
    if |s| == 0 then 0.0 else Sum(s[..|s| - 1]) + s[|s| - 1]
  }

  /** The lesser of two naturals. */
  function MinNat(a: nat, b: nat): nat
  {
    if a <= b then a else b
  }

  /** Sum of a sequence of counts. */
  function SumNat(s: seq<nat>): nat
    decreases |s|
  {
    if |s| == 0 then 0 else SumNat(s[..|s| - 1]) + s[|s| - 1]
  }

  lemma SumAppend(s: seq<real>, x: real)
    ensures Sum(s + [x]) == Sum(s) + x
  {
    assert (s + [x])[..|s|] == s;
  }

  lemma SumNatAppend(s: seq<nat>, x: nat)
    ensures SumNat(s + [x]) == SumNat(s) + x
  {
    assert (s + [x])[..|s|] == s;
  }

  /** A sum of non-negative terms is non-negative. */
  lemma {:induction false} SumNonNegative(s: seq<real>)
    requires forall i :: 0 <= i < |s| ==> s[i] >= 0.0
    ensures Sum(s) >= 0.0
    decreases |s|
  {
    if |s| > 0 {
      SumNonNegative(s[..|s| - 1]);
    }
  }

  /** Every prefix of a sequence of counts sums to at most the whole. */
  lemma {:induction false} SumNatPrefix(s: seq<nat>, i: nat)
    requires i <= |s|
    ensures SumNat(s[..i]) <= SumNat(s)
    decreases |s| - i
  {
    if i < |s| {
      SumNatPrefix(s, i + 1);
      assert s[..i + 1][..i] == s[..i];
    } else {
      assert s[..i] == s;
    }
  }

  /** Positions listed in ascending order, each once. */
  predicate StrictlyIncreasing(s: seq<nat>)
  {
    forall k, l :: 0 <= k < l < |s| ==> s[k] < s[l]
  }

  /** Dropping the last index keeps an ascending list ascending. */
  lemma IncreasingPrefix(idx: seq<nat>)
    requires |idx| > 0 && StrictlyIncreasing(idx)
    ensures StrictlyIncreasing(idx[..|idx| - 1])
    ensures |idx| > 1 ==> idx[|idx| - 1] > idx[|idx| - 2]
  {
  }

  /** A non-empty sequence is its prefix plus its last element. */
  lemma SplitLast<T>(s: seq<T>)
    requires |s| > 0
    ensures s[..|s| - 1] + [s[|s| - 1]] == s
  {
  }

  /** Times in non-decreasing order. */
  predicate NonDecreasing(t: seq<real>)
  {
    forall i, j :: 0 <= i <= j < |t| ==> t[i] <= t[j]
  }

  lemma SumNatSnocPrefix(counts: seq<nat>, i: nat)
    requires i < |counts|
    ensures SumNat(counts[..i + 1]) == SumNat(counts[..i]) + counts[i]
  {
    assert counts[..i + 1][..i] == counts[..i];
  }

  lemma {:induction false} SumZero(s: seq<nat>)
    requires forall k :: 0 <= k < |s| ==> s[k] == 0
    ensures SumNat(s) == 0
    decreases |s|
  {
    if |s| > 0 {
      SumZero(s[..|s| - 1]);
    }
  }

  /** A single count never exceeds the total. */
  lemma SumNatElement(s: seq<nat>, k: nat)
    requires k < |s|
    ensures s[k] <= SumNat(s)
  {
    SumNatSnocPrefix(s, k);
    SumNatPrefix(s, k + 1);
  }

  function Max(s: seq<real>): (r: real)
    requires |s| > 0
    ensures forall i :: 0 <= i < |s| ==> s[i] <= r
    ensures exists i :: 0 <= i < |s| && s[i] == r
    decreases |s|
  {
    if |s| == 1 then s[0]
    else
      var p := Max(s[..|s| - 1]);
      assert forall i :: 0 <= i < |s| - 1 ==> s[..|s| - 1][i] == s[i];
      if s[|s| - 1] > p then s[|s| - 1] else p
  }

  function Min(s: seq<real>): (r: real)
    requires |s| > 0
    ensures forall i :: 0 <= i < |s| ==> r <= s[i]
    ensures exists i :: 0 <= i < |s| && s[i] == r
    decreases |s|
  {
    if |s| == 1 then s[0]
    else
      var p := Min(s[..|s| - 1]);
      assert forall i :: 0 <= i < |s| - 1 ==> s[..|s| - 1][i] == s[i];
      if s[|s| - 1] < p then s[|s| - 1] else p
  }
}
