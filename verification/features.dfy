/** `lcmodel_extractor.extract` and the six accessor extractors.

    `extract` smooths the curve with the window `minimize_GCV` picks,
    subtracts the median magnitude, and derives six ratios from the
    threshold passes and areas of the normalised model. Any exception inside
    it leaves the feature dictionary empty, and each accessor then reports
    0.0. */
module LcModel {
  import opened Wrappers
  import opened Seqs
  import opened Thresholds
  import opened Area
  import opened Gcv
  import opened Kernel

  /** A feature value: a real number, or the nan/inf a numpy scalar division
      by zero yields (with a warning, not an exception). */
  datatype Value = Finite(v: real) | NonFinite

  /** Division of numpy scalars. */
  function NumpyDiv(a: real, b: real): (r: Value)
    ensures r.NonFinite? <==> b == 0.0
    ensures r.Finite? ==> r.v * b == a
  {
    if b == 0.0 then NonFinite else Finite(a / b)
  }

  /** The dictionary `extract` fills in when nothing raises. */
  datatype LcFeats = LcFeats(
    posMagRatio: Value,
    posNRatio: Value,
    medianNPerDay: Value,
    posNPerDay: Value,
    negNPerDay: Value,
    posAreaRatio: Value)

  /** The fewest samples for which every candidate window has a score. */
  const MinSamples: nat := 24

  /** `shivv_model - m_median`: the smoothed curve relative to the median
      magnitude `mMedian` of the raw curve. `None` where `minimize_GCV`
      raises. */
  function NormalizedModel(kernel: real -> real, t: seq<real>, m: seq<real>, mMedian: real): (nm: Option<seq<real>>)
    requires PositiveKernel(kernel) && |t| == |m|
    ensures nm.Some? <==> |m| >= MinSamples
    ensures nm.Some? ==> |nm.value| == |m|
    ensures nm.Some? ==> forall i :: 0 <= i < |m| ==> Min(m) - mMedian <= nm.value[i] <= Max(m) - mMedian
  {
    MinimizeGCVDefined(t, m);
    match MinimizeGCV(t, m)
    case None => None
    case Some(best) => Some(Normalize(kernel, t, m, best.1, mMedian))
  }

  /** The smooth at window `w`, minus the median. */
  function Normalize(kernel: real -> real, t: seq<real>, m: seq<real>, w: nat, mMedian: real): (nm: seq<real>)
    requires PositiveKernel(kernel) && |t| == |m| > 0 && w > 0
    ensures |nm| == |m|
    ensures forall i :: 0 <= i < |m| ==> Min(m) - mMedian <= nm[i] <= Max(m) - mMedian
  {
    Shift(KernelSmooth(kernel, t, m, Bandwidth(w, |t|)), -mMedian)
  }

  /** Subtracting the median before smoothing gives the same curve. */
  lemma NormalizeCommutes(kernel: real -> real, t: seq<real>, m: seq<real>, w: nat, mMedian: real)
    requires PositiveKernel(kernel) && |t| == |m| > 0 && w > 0
    ensures Normalize(kernel, t, m, w, mMedian) == KernelSmooth(kernel, t, Shift(m, -mMedian), Bandwidth(w, |t|))
  {
    SmoothShift(kernel, t, m, Bandwidth(w, |t|), -mMedian);
  }

  /** The quantities `extract` computes before building its dictionary:
      the count at the median, the two `get_dmag_at_median_threshold`
      results, the two `get_area` results and the time span. */
  datatype Measures = Measures(nMedian: nat, pos: Dmag, neg: Dmag, posArea: AreaSum, negArea: AreaSum, deltaT: real)

  /** The measures of the normalised model `nm` over the times `t`; `None`
      where `get_area` raises. */
  function MeasuresOf(nm: seq<real>, t: seq<real>): (r: Option<Measures>)
    requires |nm| == |t| > 0
    ensures r.None? <==> (forall i :: 0 <= i < |nm| ==> nm[i] <= 0.0) || (forall i :: 0 <= i < |nm| ==> nm[i] >= 0.0)
  {
    var posArea := GetArea(Pos, nm, t);
    var negArea := GetArea(Neg, nm, t);
    if posArea.None? || negArea.None? then None
    else
      Some(Measures(NPassingMedian(nm), DmagAtMedianThreshold(Pos, nm).value, DmagAtMedianThreshold(Neg, nm).value,
                    posArea.value, negArea.value, Max(t) - Min(t)))
  }

  /** The dictionary literal of `extract`. `pos_area_ratio` divides Python
      floats when neither area was ever integrated (both are still `0.`),
      and `0./0.` raises; every other division is between numpy scalars. */
  function Assemble(x: Measures): (r: Option<LcFeats>)
    ensures r.None? <==> !x.posArea.integrated && !x.negArea.integrated
  {
    if !x.posArea.integrated && !x.negArea.integrated then None
    else
      Some(LcFeats(
        NumpyDiv(x.pos.deltaMagMedian, x.pos.deltaMagMedian + Abs(x.neg.deltaMagMedian)),
        NumpyDiv(x.pos.nThreshMedian as real, (x.pos.nThreshMedian + x.neg.nThreshMedian) as real),
        NumpyDiv(x.nMedian as real, x.deltaT),
        NumpyDiv(x.pos.nThreshMedian as real, x.deltaT),
        NumpyDiv(x.neg.nThreshMedian as real, x.deltaT),
        NumpyDiv(x.posArea.total, x.posArea.total + Abs(x.negArea.total))))
  }

  /** Everything `extract` derives from the normalised model `nm` and the
      times; `None` where `get_area` or the area ratio raises, which is
      exactly when the model never rises above or never falls below 0
      (`past_thresh[0]` in `get_area`), or when neither side has two
      adjacent samples to integrate. */
  function FeaturesOf(nm: seq<real>, t: seq<real>): (r: Option<LcFeats>)
    requires |nm| == |t| > 0
    ensures r.None? <==> NoFeatures(nm)
  {
    match MeasuresOf(nm, t)
    case None => None
    case Some(x) =>
      MeasuredFeaturesFail(nm, t);
      MeasuredNoFeatures(nm, t);
      Assemble(x)
  }

  /** The body of `extract`'s `try` block; `None` where it raises. */
  function Compute(kernel: real -> real, t: seq<real>, m: seq<real>, mMedian: real): (r: Option<LcFeats>)
    requires PositiveKernel(kernel) && |t| == |m|
    ensures r.Some? ==> |m| >= MinSamples && r == FeaturesOf(NormalizedModel(kernel, t, m, mMedian).value, t)
  {
    match NormalizedModel(kernel, t, m, mMedian)
    case None => None
    case Some(nm) => FeaturesOf(nm, t)
  }

  const PosMagRatioKey: string := "pos_mag_ratio"
  const PosNRatioKey: string := "pos_n_ratio"
  const MedianNPerDayKey: string := "median_n_per_day"
  const PosNPerDayKey: string := "pos_n_per_day"
  const NegNPerDayKey: string := "neg_n_per_day"
  const PosAreaRatioKey: string := "pos_area_ratio"

  /** The six keys of a filled-in feature dictionary. */
  function FeatureKeys(): set<string>
  {
    {PosMagRatioKey, PosNRatioKey, MedianNPerDayKey, PosNPerDayKey, NegNPerDayKey, PosAreaRatioKey}
  }

  /** `extract()`: the feature dictionary, empty when anything raised. */
  function Extract(kernel: real -> real, t: seq<real>, m: seq<real>, mMedian: real): (feats: map<string, Value>)
    requires PositiveKernel(kernel) && |t| == |m|
    ensures feats == map[] <==> Compute(kernel, t, m, mMedian).None?
    ensures feats != map[] ==> feats.Keys == FeatureKeys()
  {
    match Compute(kernel, t, m, mMedian)
    case None => map[]
    case Some(f) => FeatureMap(f)
  }

  /** `self.lc_feats` once every entry is computed. */
  function FeatureMap(f: LcFeats): (feats: map<string, Value>)
    ensures feats.Keys == FeatureKeys()
    ensures feats != map[]
  {
    var feats := map[
      PosMagRatioKey := f.posMagRatio,
      PosNRatioKey := f.posNRatio,
      MedianNPerDayKey := f.medianNPerDay,
      PosNPerDayKey := f.posNPerDay,
      NegNPerDayKey := f.negNPerDay,
      PosAreaRatioKey := f.posAreaRatio];
    assert PosMagRatioKey in feats;
    feats
  }

  /** Each key of the filled-in dictionary holds its own field. */
  lemma FeatureMapFields(f: LcFeats)
    ensures PosMagRatio(FeatureMap(f)) == f.posMagRatio && PosNRatio(FeatureMap(f)) == f.posNRatio
    ensures MedianNPerDay(FeatureMap(f)) == f.medianNPerDay && PosNPerDay(FeatureMap(f)) == f.posNPerDay
    ensures NegNPerDay(FeatureMap(f)) == f.negNPerDay && PosAreaRatio(FeatureMap(f)) == f.posAreaRatio
  {
  }

  /** `lc_feats.get(key, 0.0)`. */
  function Lookup(feats: map<string, Value>, key: string): (r: Value)
    ensures key in feats ==> r == feats[key]
    ensures key !in feats ==> r == Finite(0.0)
  {
    if key in feats then feats[key] else Finite(0.0)
  }

  /** `lcmodel_pos_mag_ratio_extractor.extract`: its entry of a filled dictionary, 0.0 from
      the empty one. */
  function PosMagRatio(feats: map<string, Value>): (v: Value)
    ensures feats == map[] ==> v == Finite(0.0)
    ensures forall f :: feats == FeatureMap(f) ==> v == f.posMagRatio
  {
    Lookup(feats, PosMagRatioKey)
  }

  /** `lcmodel_pos_n_ratio_extractor.extract`: its entry of a filled dictionary, 0.0 from
      the empty one. */
  function PosNRatio(feats: map<string, Value>): (v: Value)
    ensures feats == map[] ==> v == Finite(0.0)
    ensures forall f :: feats == FeatureMap(f) ==> v == f.posNRatio
  {
    Lookup(feats, PosNRatioKey)
  }

  /** `lcmodel_median_n_per_day_extractor.extract`: its entry of a filled dictionary, 0.0 from
      the empty one. */
  function MedianNPerDay(feats: map<string, Value>): (v: Value)
    ensures feats == map[] ==> v == Finite(0.0)
    ensures forall f :: feats == FeatureMap(f) ==> v == f.medianNPerDay
  {
    Lookup(feats, MedianNPerDayKey)
  }

  /** `lcmodel_pos_n_per_day_extractor.extract`: its entry of a filled dictionary, 0.0 from
      the empty one. */
  function PosNPerDay(feats: map<string, Value>): (v: Value)
    ensures feats == map[] ==> v == Finite(0.0)
    ensures forall f :: feats == FeatureMap(f) ==> v == f.posNPerDay
  {
    Lookup(feats, PosNPerDayKey)
  }

  /** `lcmodel_neg_n_per_day_extractor.extract`: its entry of a filled dictionary, 0.0 from
      the empty one. */
  function NegNPerDay(feats: map<string, Value>): (v: Value)
    ensures feats == map[] ==> v == Finite(0.0)
    ensures forall f :: feats == FeatureMap(f) ==> v == f.negNPerDay
  {
    Lookup(feats, NegNPerDayKey)
  }

  /** `lcmodel_pos_area_ratio_extractor.extract`: its entry of a filled dictionary, 0.0 from
      the empty one. */
  function PosAreaRatio(feats: map<string, Value>): (v: Value)
    ensures feats == map[] ==> v == Finite(0.0)
    ensures forall f :: feats == FeatureMap(f) ==> v == f.posAreaRatio
  {
    Lookup(feats, PosAreaRatioKey)
  }


  /** Each accessor reports its field of the computed features, or 0.0 when
      `extract` raised. */
  lemma AccessorsReadFeatures(kernel: real -> real, t: seq<real>, m: seq<real>, mMedian: real)
    requires PositiveKernel(kernel) && |t| == |m|
    ensures var feats := Extract(kernel, t, m, mMedian);
            match Compute(kernel, t, m, mMedian)
            case None =>
              && PosMagRatio(feats) == Finite(0.0) && PosNRatio(feats) == Finite(0.0)
              && MedianNPerDay(feats) == Finite(0.0) && PosNPerDay(feats) == Finite(0.0)
              && NegNPerDay(feats) == Finite(0.0) && PosAreaRatio(feats) == Finite(0.0)
            case Some(f) =>
              && PosMagRatio(feats) == f.posMagRatio && PosNRatio(feats) == f.posNRatio
              && MedianNPerDay(feats) == f.medianNPerDay && PosNPerDay(feats) == f.posNPerDay
              && NegNPerDay(feats) == f.negNPerDay && PosAreaRatio(feats) == f.posAreaRatio
  {
    match Compute(kernel, t, m, mMedian)
    case None =>
    case Some(f) => FeatureMapFields(f);
  }

  /** The model never rises above 0, never falls below 0, or has no two
      adjacent samples on the same side of 0 on either side. */
  predicate NoFeatures(nm: seq<real>)
  {
    || (forall i :: 0 <= i < |nm| ==> nm[i] <= 0.0)
    || (forall i :: 0 <= i < |nm| ==> nm[i] >= 0.0)
    || (!HasPair(PastMask(Pos, nm, 0.0), |nm|) && !HasPair(PastMask(Neg, nm, 0.0), |nm|))
  }

  /** Once both sides cross the line, only the area ratio can raise. */
  lemma MeasuredFeaturesFail(nm: seq<real>, t: seq<real>)
    requires |nm| == |t| > 0 && MeasuresOf(nm, t).Some?
    ensures Assemble(MeasuresOf(nm, t).value).None? <==>
              !HasPair(PastMask(Pos, nm, 0.0), |nm|) && !HasPair(PastMask(Neg, nm, 0.0), |nm|)
  {
    var x := MeasuresOf(nm, t).value;
    var i :| 0 <= i < |nm| && Past(Pos, nm[i], 0.0);
    var j :| 0 <= j < |nm| && Past(Neg, nm[j], 0.0);
    GetAreaIsPairedArea(Pos, nm, t);
    GetAreaIsPairedArea(Neg, nm, t);
    assert x.posArea.integrated == HasPair(PastMask(Pos, nm, 0.0), |nm|);
    assert x.negArea.integrated == HasPair(PastMask(Neg, nm, 0.0), |nm|);
  }

  /** A model that crosses 0 on both sides has no features only for want of
      an adjacent pair. */
  lemma MeasuredNoFeatures(nm: seq<real>, t: seq<real>)
    requires |nm| == |t| > 0 && MeasuresOf(nm, t).Some?
    ensures NoFeatures(nm) <==> !HasPair(PastMask(Pos, nm, 0.0), |nm|) && !HasPair(PastMask(Neg, nm, 0.0), |nm|)
  {
  }

  /** `extract` raises exactly when the curve is too short for every
      candidate window, or when `NoFeatures` holds of the normalised model. */
  lemma ComputeFailsIff(kernel: real -> real, t: seq<real>, m: seq<real>, mMedian: real)
    requires PositiveKernel(kernel) && |t| == |m|
    ensures Compute(kernel, t, m, mMedian).None? <==>
              |m| < MinSamples || NoFeatures(NormalizedModel(kernel, t, m, mMedian).value)
  {
    if |m| >= MinSamples {
      var nm := NormalizedModel(kernel, t, m, mMedian).value;
      assert Compute(kernel, t, m, mMedian) == FeaturesOf(nm, t);
    }
  }

  /** A curve with fewer than 24 samples yields no features: every accessor
      reports 0.0. */
  lemma ShortCurveHasNoFeatures(kernel: real -> real, t: seq<real>, m: seq<real>, mMedian: real)
    requires PositiveKernel(kernel) && |t| == |m| && |m| < MinSamples
    ensures Extract(kernel, t, m, mMedian) == map[]
    ensures PosMagRatio(Extract(kernel, t, m, mMedian)) == Finite(0.0)
    ensures PosNRatio(Extract(kernel, t, m, mMedian)) == Finite(0.0)
    ensures MedianNPerDay(Extract(kernel, t, m, mMedian)) == Finite(0.0)
    ensures PosNPerDay(Extract(kernel, t, m, mMedian)) == Finite(0.0)
    ensures NegNPerDay(Extract(kernel, t, m, mMedian)) == Finite(0.0)
    ensures PosAreaRatio(Extract(kernel, t, m, mMedian)) == Finite(0.0)
  {
  }

  lemma FractionBounds(p: real, n: real)
    requires p > 0.0 && n > 0.0
    ensures 0.0 < p / (p + n) < 1.0
  {
  }

  lemma RatioBounds(a: real, b: real)
    requires a >= 0.0 && b >= 0.0 && a + b != 0.0
    ensures 0.0 <= a / (a + b) <= 1.0
  {
  }

  lemma DivideNonNegative(a: real, b: real)
    requires a >= 0.0 && b > 0.0
    ensures a / b >= 0.0
  {
  }

  /** What the measures of a normalised model that crosses 0 both ways
      satisfy: both selected counts are positive, the 'pos' threshold is at
      least 0 and the 'neg' one at most 0, the time span is non-negative,
      and over non-decreasing times the 'pos' area is at least 0 and the
      'neg' area at most 0. */
  lemma MeasuresFacts(nm: seq<real>, t: seq<real>)
    requires |nm| == |t| > 0 && MeasuresOf(nm, t).Some?
    ensures var x := MeasuresOf(nm, t).value;
            && x.pos.nThreshMedian > 0 && x.neg.nThreshMedian > 0
            && x.pos.deltaMagMedian >= 0.0 && x.neg.deltaMagMedian <= 0.0
            && x.deltaT >= 0.0
            && (NonDecreasing(t) ==> x.posArea.total >= 0.0 && x.negArea.total <= 0.0)
  {
    var i :| 0 <= i < |nm| && nm[i] > 0.0;
    var j :| 0 <= j < |nm| && nm[j] < 0.0;
    assert Max(nm) >= nm[i] && Min(nm) <= nm[j];
    PosPassesExist(nm);
    NegPassesExist(nm);
    DmagCountPositive(Pos, nm);
    DmagCountPositive(Neg, nm);
    DmagInRange(Pos, nm);
    DmagInRange(Neg, nm);
    if NonDecreasing(t) {
      AreaSign(Pos, nm, t);
      AreaSign(Neg, nm, t);
    }
  }

  /** The ratios and rates of `Assemble`, given the facts `MeasuresFacts`
      establishes: `pos_n_ratio` is a proper fraction, `pos_mag_ratio` and
      (over non-negative 'pos' and non-positive 'neg' areas)
      `pos_area_ratio` lie in [0, 1] when defined, and the per-day rates
      are undefined exactly for a zero time span and otherwise
      non-negative. */
  lemma AssembleRanges(x: Measures)
    requires x.pos.nThreshMedian > 0 && x.neg.nThreshMedian > 0
    requires x.pos.deltaMagMedian >= 0.0 && x.neg.deltaMagMedian <= 0.0 && x.deltaT >= 0.0
    requires Assemble(x).Some?
    ensures var f := Assemble(x).value;
            && f.posNRatio.Finite? && 0.0 < f.posNRatio.v < 1.0
            && (f.posMagRatio.Finite? ==> 0.0 <= f.posMagRatio.v <= 1.0)
            && (x.posArea.total >= 0.0 && x.negArea.total <= 0.0 && f.posAreaRatio.Finite? ==>
                  0.0 <= f.posAreaRatio.v <= 1.0)
            && (f.medianNPerDay.NonFinite? <==> x.deltaT == 0.0)
            && (f.posNPerDay.NonFinite? <==> x.deltaT == 0.0)
            && (f.negNPerDay.NonFinite? <==> x.deltaT == 0.0)
            && (f.medianNPerDay.Finite? ==> f.medianNPerDay.v >= 0.0)
            && (f.posNPerDay.Finite? ==> f.posNPerDay.v >= 0.0)
            && (f.negNPerDay.Finite? ==> f.negNPerDay.v >= 0.0)
  {
    var p := x.pos.nThreshMedian as real;
    var n := x.neg.nThreshMedian as real;
    assert (x.pos.nThreshMedian + x.neg.nThreshMedian) as real == p + n;
    FractionBounds(p, n);
    if x.pos.deltaMagMedian + Abs(x.neg.deltaMagMedian) != 0.0 {
      RatioBounds(x.pos.deltaMagMedian, Abs(x.neg.deltaMagMedian));
    }
    if x.posArea.total >= 0.0 && x.negArea.total <= 0.0 && x.posArea.total + Abs(x.negArea.total) != 0.0 {
      RatioBounds(x.posArea.total, Abs(x.negArea.total));
    }
    if x.deltaT > 0.0 {
      DivideNonNegative(x.nMedian as real, x.deltaT);
      DivideNonNegative(p, x.deltaT);
      DivideNonNegative(n, x.deltaT);
    }
  }

  /** Whenever features exist both sides were crossed, so `pos_n_ratio` is a
      proper fraction, and `pos_mag_ratio`, when defined, lies in [0, 1]. */
  lemma RatiosInUnitInterval(nm: seq<real>, t: seq<real>)
    requires |nm| == |t| > 0 && FeaturesOf(nm, t).Some?
    ensures FeaturesOf(nm, t).value.posNRatio.Finite?
    ensures 0.0 < FeaturesOf(nm, t).value.posNRatio.v < 1.0
    ensures FeaturesOf(nm, t).value.posMagRatio.Finite? ==> 0.0 <= FeaturesOf(nm, t).value.posMagRatio.v <= 1.0
  {
    MeasuresFacts(nm, t);
    AssembleRanges(MeasuresOf(nm, t).value);
  }

  /** Over non-decreasing times, `pos_area_ratio`, when defined, lies in
      [0, 1]. */
  lemma PosAreaRatioInUnitInterval(nm: seq<real>, t: seq<real>)
    requires |nm| == |t| > 0 && NonDecreasing(t) && FeaturesOf(nm, t).Some?
    requires FeaturesOf(nm, t).value.posAreaRatio.Finite?
    ensures 0.0 <= FeaturesOf(nm, t).value.posAreaRatio.v <= 1.0
  {
    MeasuresFacts(nm, t);
    AssembleRanges(MeasuresOf(nm, t).value);
  }

  /** The three per-day rates are undefined exactly when all samples share
      one time, and are otherwise non-negative. */
  lemma PerDayRates(nm: seq<real>, t: seq<real>)
    requires |nm| == |t| > 0 && FeaturesOf(nm, t).Some?
    ensures var f := FeaturesOf(nm, t).value;
            && (f.medianNPerDay.NonFinite? <==> Max(t) == Min(t))
            && (f.posNPerDay.NonFinite? <==> Max(t) == Min(t))
            && (f.negNPerDay.NonFinite? <==> Max(t) == Min(t))
    ensures var f := FeaturesOf(nm, t).value;
            && (f.medianNPerDay.Finite? ==> f.medianNPerDay.v >= 0.0)
            && (f.posNPerDay.Finite? ==> f.posNPerDay.v >= 0.0)
            && (f.negNPerDay.Finite? ==> f.negNPerDay.v >= 0.0)
  {
    MeasuresFacts(nm, t);
    AssembleRanges(MeasuresOf(nm, t).value);
  }

  /** The normalised model is the smooth of the normalised curve: the median
      can be subtracted before or after smoothing. */
  lemma NormalizeBeforeSmoothing(kernel: real -> real, t: seq<real>, m: seq<real>, mMedian: real)
    requires PositiveKernel(kernel) && |t| == |m| && |m| >= MinSamples
    ensures MinimizeGCV(t, m).Some?
    ensures NormalizedModel(kernel, t, m, mMedian).value ==
              KernelSmooth(kernel, t, Shift(m, -mMedian), Bandwidth(MinimizeGCV(t, m).value.1, |t|))
  {
    MinimizeGCVDefined(t, m);
    NormalizeCommutes(kernel, t, m, MinimizeGCV(t, m).value.1, mMedian);
  }
}
