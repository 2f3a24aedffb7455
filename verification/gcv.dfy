/** Window selection for the smoother: the generalized cross-validation
    score of a circular running mean (`GCV`) and its minimisation over the
    candidate windows (`minimize_GCV`).

    The source runs under Python 2, so `-window/2` and `window/2` are floor
    divisions of integers: the lead pad holds the last ceil(w/2) magnitudes
    and the trailing pad the first floor(w/2)-1. Python slices clamp, so on a
    curve shorter than a pad the pad is the whole curve. numpy then fails in
    two places, both of which `extract` swallows: `as_strided` refuses a
    negative row count, and `mags - model` refuses shapes that do not
    broadcast. Those failures are `None` here. */
module Gcv {
  import opened Wrappers
  import opened Seqs
  import opened Sorting

  /** Length of `mags[-window/2:]` before clamping: ceil(w/2). */
  function Lead(w: nat): nat
  {
    (w + 1) / 2
  }

  /** Length of `mags[:window/2-1]` before clamping: floor(w/2) - 1. */
  function Trail(w: nat): nat
    requires w >= 2
  {
    w / 2 - 1
  }

  /** The edge-extended magnitudes `b`: the last ceil(w/2) magnitudes, the
      curve itself, then the first floor(w/2)-1, each pad clamped to the
      whole curve. */
  function Pad(mags: seq<real>, w: nat): (b: seq<real>)
    requires w >= 2
    ensures |b| == MinNat(Lead(w), |mags|) + |mags| + MinNat(Trail(w), |mags|)
    ensures b[..MinNat(Lead(w), |mags|)] == mags[|mags| - MinNat(Lead(w), |mags|)..]
    ensures b[MinNat(Lead(w), |mags|)..MinNat(Lead(w), |mags|) + |mags|] == mags
    ensures b[MinNat(Lead(w), |mags|) + |mags|..] == mags[..MinNat(Trail(w), |mags|)]
  {
    mags[|mags| - MinNat(Lead(w), |mags|)..] + mags + mags[..MinNat(Trail(w), |mags|)]
  }

  /** `rolling_window(b, window)`: row i is `b[i:i+window]`; `as_strided`
      rejects the negative row count `len(b) - window + 1 < 0`. */
  function RollingWindow(b: seq<real>, w: nat): (rows: Option<seq<seq<real>>>)
    ensures rows.None? <==> |b| + 1 < w
    ensures rows.Some? ==> |rows.value| == |b| + 1 - w
    ensures rows.Some? ==> forall i :: 0 <= i < |rows.value| ==> rows.value[i] == b[i..i + w]
  {
    if |b| + 1 < w then None
    else Some(seq(|b| + 1 - w, i requires 0 <= i < |b| + 1 - w => b[i..i + w]))
  }

  /** `numpy.mean(rows, 1)`. */
  function RowMeans(rows: seq<seq<real>>, w: nat): (model: seq<real>)
    requires w > 0
    ensures |model| == |rows|
  {
    seq(|rows|, i requires 0 <= i < |rows| => Sum(rows[i]) / (w as real))
  }

  /** numpy broadcasting of two one-dimensional shapes. */
  predicate Broadcasts(n: nat, m: nat)
  {
    n == m || n == 1 || m == 1
  }

  /** `mags - model` under numpy broadcasting. */
  function Residuals(mags: seq<real>, model: seq<real>): (r: Option<seq<real>>)
    ensures r.Some? <==> Broadcasts(|mags|, |model|)
    ensures r.Some? && |mags| == |model| ==>
              |r.value| == |mags| && forall i :: 0 <= i < |mags| ==> r.value[i] == mags[i] - model[i]
  {
    if |model| == |mags| then Some(seq(|mags|, i requires 0 <= i < |mags| => mags[i] - model[i]))
    else if |model| == 1 then Some(seq(|mags|, i requires 0 <= i < |mags| => mags[i] - model[0]))
    else if |mags| == 1 then Some(seq(|model|, i requires 0 <= i < |model| => mags[0] - model[i]))
    else None
  }

  /** The diagonal of the smoothing matrix, `Lii = 1./window`. */
  function Leverage(w: nat): (l: real)
    requires w >= 2
    ensures 0.0 < l <= 0.5
    ensures 1.0 - l > 0.0
  {
    1.0 / (w as real)
  }

  /** Number of rows of the rolling window over the padded curve; negative
      when `as_strided` refuses it. */
  function ModelLength(n: nat, w: nat): int
    requires w >= 2
  {
    MinNat(Lead(w), n) + n + MinNat(Trail(w), n) - w + 1
  }

  /** When `GCV(window, X, Y)` returns a value rather than raising: the curve
      is not empty (`zpm_arr[:,0]` fails on an empty array), the rolling
      window has a row count of at least zero, and the model broadcasts
      against the magnitudes. */
  predicate GCVDefined(n: nat, w: nat)
    requires w >= 2
  {
    n > 0 && ModelLength(n, w) >= 0 && Broadcasts(n, ModelLength(n, w) as nat)
  }

  function Square(x: real): (r: real)
    ensures r >= 0.0
  {
    x * x
  }

  /** Sum of the squared leverage-corrected residuals. */
  function ScaledSquares(res: seq<real>, w: nat): (r: seq<real>)
    requires w >= 2
    ensures |r| == |res|
    ensures forall i :: 0 <= i < |r| ==> r[i] >= 0.0
  {
    seq(|res|, i requires 0 <= i < |res| => Square(res[i] / (1.0 - Leverage(w))))
  }

  /** The magnitudes in time order, `zpm_arr[:,1]`. */
  function SortedMags(xs: seq<real>, ys: seq<real>): (mags: seq<real>)
    requires |xs| == |ys|
    ensures |mags| == |ys|
  {
    Seconds(Sort(Zip(xs, ys)))
  }

  /** The score of a time-ordered, non-empty curve: the mean squared
      residual of the running mean, inflated by the leverage. */
  function Score(mags: seq<real>, w: nat): (score: Option<real>)
    requires w >= 2 && |mags| > 0
    ensures score.Some? <==> GCVDefined(|mags|, w)
    ensures score.Some? ==> score.value >= 0.0
  {
    var b := Pad(mags, w);
    assert |b| + 1 - w == ModelLength(|mags|, w);
    match RollingWindow(b, w)
    case None => None
    case Some(rows) =>
      match Residuals(mags, RowMeans(rows, w))
      case None => None
      case Some(res) => Some(MeanOf(ScaledSquares(res, w), |mags|))
  }

  /** `1./len(phs) * numpy.sum(terms)` for non-negative terms. */
  function MeanOf(terms: seq<real>, n: nat): (r: real)
    requires n > 0
    requires forall i :: 0 <= i < |terms| ==> terms[i] >= 0.0
    ensures r >= 0.0
  {
    SumNonNegative(terms);
    MulNonNegative(1.0 / (n as real), Sum(terms));
    1.0 / (n as real) * Sum(terms)
  }

  /** `GCV(window, X, Y)`; `None` where the source raises. */
  function GCV(w: nat, xs: seq<real>, ys: seq<real>): (score: Option<real>)
    requires |xs| == |ys| && w >= 2
    ensures score.Some? <==> GCVDefined(|ys|, w)
    ensures score.Some? ==> score.value >= 0.0
  {
    if |ys| == 0 then None else Score(SortedMags(xs, ys), w)
  }

  /** The window of w samples that the running mean at sample i averages,
      read circularly: it starts ceil(w/2) samples before i. */
  function CircularWindow(mags: seq<real>, i: nat, w: nat): (win: seq<real>)
    requires |mags| > 0
    ensures |win| == w
  {
    seq(w, j requires 0 <= j < w => mags[(i + j - Lead(w)) % |mags|])
  }

  lemma ModCases(x: int, n: int)
    requires n > 0 && -n <= x < 2 * n
    ensures x % n == (if x < 0 then x + n else if x < n then x else x - n)
  {
  }

  /** Once the lead pad fits, the padded curve is the magnitudes read
      circularly from ceil(w/2) samples before the first. */
  lemma PadCircular(mags: seq<real>, w: nat)
    requires w >= 2 && Lead(w) <= |mags|
    ensures |Pad(mags, w)| == |mags| + w - 1
    ensures forall p :: 0 <= p < |Pad(mags, w)| ==> Pad(mags, w)[p] == mags[(p - Lead(w)) % |mags|]
  {
    var b := Pad(mags, w);
    assert Trail(w) < |mags|;
    forall p | 0 <= p < |b|
      ensures b[p] == mags[(p - Lead(w)) % |mags|]
    {
      PadAt(mags, w, p);
    }
  }

  lemma PadAt(mags: seq<real>, w: nat, p: nat)
    requires w >= 2 && Lead(w) <= |mags| && p < |mags| + w - 1
    ensures |Pad(mags, w)| == |mags| + w - 1
    ensures Pad(mags, w)[p] == mags[(p - Lead(w)) % |mags|]
  {
    var n, a, b := |mags|, Lead(w), Pad(mags, w);
    assert Trail(w) < n;
    ModCases(p - a, n);
    if p < a {
      assert b[p] == b[..a][p] == mags[n - a..][p];
    } else if p < a + n {
      assert b[p] == b[a..a + n][p - a];
    } else {
      assert b[p] == b[a + n..][p - a - n] == mags[..Trail(w)][p - a - n];
    }
  }

  /** Once the lead pad fits, the smoothed model has one value per sample,
      and the value at sample i is the mean of its circular window. */
  lemma ModelIsCircularMean(mags: seq<real>, w: nat)
    requires w >= 2 && Lead(w) <= |mags|
    ensures RollingWindow(Pad(mags, w), w).Some?
    ensures |RowMeans(RollingWindow(Pad(mags, w), w).value, w)| == |mags|
    ensures forall i :: 0 <= i < |mags| ==>
              RowMeans(RollingWindow(Pad(mags, w), w).value, w)[i] == Sum(CircularWindow(mags, i, w)) / (w as real)
  {
    var b := Pad(mags, w);
    PadCircular(mags, w);
    var rows := RollingWindow(b, w).value;
    forall i | 0 <= i < |mags|
      ensures rows[i] == CircularWindow(mags, i, w)
    {
      assert rows[i] == b[i..i + w];
      forall j | 0 <= j < w
        ensures rows[i][j] == CircularWindow(mags, i, w)[j]
      {
        assert rows[i][j] == b[i + j];
      }
    }
  }

  /** Residual of each sample against the mean of its circular window. */
  function CircularResiduals(mags: seq<real>, w: nat): (res: seq<real>)
    requires |mags| > 0 && w > 0
    ensures |res| == |mags|
  {
    seq(|mags|, i requires 0 <= i < |mags| => mags[i] - Sum(CircularWindow(mags, i, w)) / (w as real))
  }

  /** Reference definition of the score once the lead pad fits: the mean of
      the squared, leverage-corrected residuals against the circular
      running mean. */
  lemma ScoreIsCircular(mags: seq<real>, w: nat)
    requires w >= 2 && 0 < Lead(w) <= |mags|
    ensures Score(mags, w) == Some(MeanOf(ScaledSquares(CircularResiduals(mags, w), w), |mags|))
  {
    ModelIsCircularMean(mags, w);
    var model := RowMeans(RollingWindow(Pad(mags, w), w).value, w);
    var res := Residuals(mags, model).value;
    assert res == CircularResiduals(mags, w) by {
      forall i | 0 <= i < |mags|
        ensures res[i] == CircularResiduals(mags, w)[i]
      {
        assert res[i] == mags[i] - model[i];
      }
    }
  }

  /** `GCV` on a curve at least ceil(w/2) samples long is the circular score
      of its time-ordered magnitudes. */
  lemma GCVIsCircularScore(w: nat, xs: seq<real>, ys: seq<real>)
    requires |xs| == |ys| && w >= 2 && 0 < Lead(w) <= |ys|
    ensures GCV(w, xs, ys) == Some(MeanOf(ScaledSquares(CircularResiduals(SortedMags(xs, ys), w), w), |ys|))
  {
    ScoreIsCircular(SortedMags(xs, ys), w);
  }

  /** For the candidate windows (even, at least 10) the score exists exactly
      when the curve has at least w/2 samples, or, by a coincidence of the
      clamped pads, exactly w/3 samples (the model then has one row and
      broadcasts). */
  lemma CandidateDefined(n: nat, w: nat)
    requires w >= 10 && w % 2 == 0
    ensures GCVDefined(n, w) <==> (n >= w / 2 || 3 * n == w)
  {
    if n >= w / 2 {
      assert ModelLength(n, w) == n;
    } else if n == w / 2 - 1 {
      assert ModelLength(n, w) == n - 1;
    } else {
      assert ModelLength(n, w) == 3 * n - w + 1;
    }
  }

  /** `numpy.arange(10, 50, 2)`. */
  function Windows(): (ws: seq<nat>)
    ensures |ws| == 20
    ensures forall k :: 0 <= k < |ws| ==> ws[k] == 10 + 2 * k
  {
    seq(20, k requires 0 <= k < 20 => 10 + 2 * k)
  }

  predicate AllWindowsUsable(ws: seq<nat>)
  {
    forall k :: 0 <= k < |ws| ==> ws[k] >= 2
  }

  /** The list comprehension of scores; a window whose score raises aborts
      it. */
  function Scores(ws: seq<nat>, xs: seq<real>, ys: seq<real>): (r: Option<seq<real>>)
    requires |xs| == |ys| && AllWindowsUsable(ws)
    ensures r.None? <==> exists k :: 0 <= k < |ws| && GCV(ws[k], xs, ys).None?
    ensures r.Some? ==> |r.value| == |ws| && forall k :: 0 <= k < |ws| ==> GCV(ws[k], xs, ys) == Some(r.value[k])
  {
    var gs := seq(|ws|, k requires 0 <= k < |ws| => GCV(ws[k], xs, ys));
    assert forall k :: 0 <= k < |ws| ==> gs[k] == GCV(ws[k], xs, ys);
    AllSome(gs)
  }

  /** `numpy.argmin`: the first index of a least element. */
  function ArgMin(s: seq<real>): (i: nat)
    requires |s| > 0
    ensures i < |s|
    ensures forall k :: 0 <= k < |s| ==> s[i] <= s[k]
    ensures forall k :: 0 <= k < i ==> s[i] < s[k]
    decreases |s|
  {
    if |s| == 1 then 0
    else
      var p := s[..|s| - 1];
      var j := ArgMin(p);
      assert forall k :: 0 <= k < |p| ==> p[k] == s[k];
      if s[|s| - 1] < s[j] then |s| - 1 else j
  }

  /** The least score over the windows `ws` and the first window that
      attains it; `None` where one of the scores raises. */
  function MinimizeOver(ws: seq<nat>, xs: seq<real>, ys: seq<real>): (r: Option<(real, nat)>)
    requires |xs| == |ys| && |ws| > 0 && AllWindowsUsable(ws)
    ensures r.None? <==> exists k :: 0 <= k < |ws| && GCV(ws[k], xs, ys).None?
    ensures r.Some? ==> exists i :: 0 <= i < |ws| && r.value.1 == ws[i] && BestAt(ws, xs, ys, i, r.value.0)
  {
    match Scores(ws, xs, ys)
    case None => None
    case Some(g) =>
      var i := ArgMin(g);
      assert BestAt(ws, xs, ys, i, g[i]);
      Some((g[i], ws[i]))
  }

  /** Window `ws[i]` scores `best`, no window scores less, and every earlier
      window scores more. */
  predicate BestAt(ws: seq<nat>, xs: seq<real>, ys: seq<real>, i: nat, best: real)
    requires |xs| == |ys| && AllWindowsUsable(ws) && i < |ws|
  {
    && GCV(ws[i], xs, ys) == Some(best)
    && (forall k :: 0 <= k < |ws| ==> GCV(ws[k], xs, ys).Some? && best <= GCV(ws[k], xs, ys).value)
    && (forall k :: 0 <= k < i ==> best < GCV(ws[k], xs, ys).value)
  }

  /** `minimize_GCV(X, Y)` over `numpy.arange(10, 50, 2)`. */
  function MinimizeGCV(xs: seq<real>, ys: seq<real>): (r: Option<(real, nat)>)
    requires |xs| == |ys|
    ensures r.None? <==> exists k :: 0 <= k < |Windows()| && GCV(Windows()[k], xs, ys).None?
    ensures r.Some? ==> exists i :: 0 <= i < |Windows()| && r.value.1 == Windows()[i] && BestAt(Windows(), xs, ys, i, r.value.0)
    ensures r.Some? ==> 10 <= r.value.1 <= 48
  {
    MinimizeOver(Windows(), xs, ys)
  }

  /** Every candidate window is usable exactly when the curve has at least
      24 samples (half the widest window): shorter curves make some
      candidate raise, and `extract` then reports nothing. */
  lemma MinimizeGCVDefined(xs: seq<real>, ys: seq<real>)
    requires |xs| == |ys|
    ensures MinimizeGCV(xs, ys).Some? <==> |ys| >= 24
  {
    var ws := Windows();
    var n := |ys|;
    if n >= 24 {
      forall k | 0 <= k < |ws|
        ensures GCV(ws[k], xs, ys).Some?
      {
        CandidateDefined(n, ws[k]);
      }
    } else {
      CandidateDefined(n, ws[19]);
      if n == 16 {
        CandidateDefined(n, ws[12]);
        assert GCV(ws[12], xs, ys).None?;
      } else {
        assert GCV(ws[19], xs, ys).None?;
      }
    }
  }
}
