/**
  The sky-quality analyzer: a brightness index from the mean gray level inside
  a region mask, offset for exposure time and gain. The mask is built on the
  first call from that frame's size and then kept for the analyzer's life.
 */
module Sqm {
  import opened Basics
  import opened Grids
  import opened Frames
  import opened SqmMask

  /** The configuration entries the analyzer reads; absent numeric entries raise when used. */
  datatype SqmConfig = SqmConfig(roi: seq<int>, exposureMax: Option<real>, nightGain: Option<real>)

  datatype Analyzer = Analyzer(config: SqmConfig, binning: int, externalMask: Option<Grid>, sqmMask: Option<Grid>)

  /** The state a call leaves behind and the index it returned or the exception it raised. */
  datatype Reading = Reading(state: Analyzer, value: Result<real, SqmError>)

  /** A new analyzer keeps its configuration, binning and external mask, and has no mask of its own yet. */
  function NewAnalyzer(config: SqmConfig, binning: int, mask: Option<Grid>): (a: Analyzer)
    ensures a.config == config && a.binning == binning && a.externalMask == mask
    ensures a.sqmMask.None?
  {
    Analyzer(config, binning, mask, None)
  }

  // ---------------------------------------------------------------------
  // Masked mean (cv2.mean with a mask)

  function MaskedSumRow(r: Row, m: Row): int
    requires |r| == |m|
  {
    if |r| == 0 then 0 else (if m[0] != 0 then r[0] else 0) + MaskedSumRow(r[1..], m[1..])
  }

  function MaskedCountRow(m: Row): nat {
    if |m| == 0 then 0 else (if m[0] != 0 then 1 else 0) + MaskedCountRow(m[1..])
  }

  function MaskedSum(g: Grid, m: Grid): int
    requires SameShape2(g, m)
  {
    if |g| == 0 then 0 else MaskedSumRow(g[0], m[0]) + MaskedSum(g[1..], m[1..])
  }

  function MaskedCount(m: Grid): nat {
    if |m| == 0 then 0 else MaskedCountRow(m[0]) + MaskedCount(m[1..])
  }

  /** Every sample of `r` under a nonzero cell of `m` lies in `lo..hi`. */
  predicate MaskedRowWithin(r: Row, m: Row, lo: int, hi: int)
    requires |r| == |m|
  {
    forall k :: 0 <= k < |r| && m[k] != 0 ==> lo <= r[k] <= hi
  }

  /** Every sample of `g` under a nonzero cell of `m` lies in `lo..hi`. */
  predicate MaskedWithin(g: Grid, m: Grid, lo: int, hi: int)
    requires SameShape2(g, m)
  {
    forall i :: 0 <= i < |g| ==> MaskedRowWithin(g[i], m[i], lo, hi)
  }

  lemma {:induction false} MaskedRowBounds(r: Row, m: Row, lo: int, hi: int)
    requires |r| == |m| && MaskedRowWithin(r, m, lo, hi)
    ensures lo * MaskedCountRow(m) <= MaskedSumRow(r, m) <= hi * MaskedCountRow(m)
  {
    if |r| > 0 {
      MaskedRowBounds(r[1..], m[1..], lo, hi);
      Distribute(lo, 1, MaskedCountRow(m[1..]));
      Distribute(hi, 1, MaskedCountRow(m[1..]));
    }
  }

  lemma {:induction false} MaskedBounds(g: Grid, m: Grid, lo: int, hi: int)
    requires SameShape2(g, m) && MaskedWithin(g, m, lo, hi)
    ensures lo * MaskedCount(m) <= MaskedSum(g, m) <= hi * MaskedCount(m)
  {
    if |g| > 0 {
      MaskedRowBounds(g[0], m[0], lo, hi);
      var g', m' := g[1..], m[1..];
      assert forall i :: 0 <= i < |g'| ==> g'[i] == g[i + 1] && m'[i] == m[i + 1];
      assert SameShape2(g', m');
      assert MaskedWithin(g', m', lo, hi);
      MaskedBounds(g', m', lo, hi);
      var c0, c1 := MaskedCountRow(m[0]), MaskedCount(m');
      Distribute(lo, c0, c1);
      Distribute(hi, c0, c1);
    }
  }

  /**
    The mean of the samples under nonzero mask cells; 0 when the mask selects
    nothing. It lies between any bounds of the selected samples.
   */
  function MaskedMean(g: Grid, m: Grid): (mean: real)
    requires SameShape2(g, m)
    ensures MaskedCount(m) == 0 ==> mean == 0.0
    ensures MaskedCount(m) > 0 ==> mean * MaskedCount(m) as real == MaskedSum(g, m) as real
    ensures forall lo, hi :: MaskedCount(m) > 0 && MaskedWithin(g, m, lo, hi) ==> lo as real <= mean <= hi as real
  {
    var n := MaskedCount(m);
    if n == 0 then 0.0
    else
      forall lo, hi | MaskedWithin(g, m, lo, hi)
        ensures lo as real <= MaskedSum(g, m) as real / n as real <= hi as real
      {
        MaskedBounds(g, m, lo, hi);
        DivBounds(MaskedSum(g, m), n, lo, hi);
      }
      MaskedSum(g, m) as real / n as real
  }

  lemma {:induction false} FullMaskRow(r: Row, m: Row)
    requires |r| == |m| && forall k :: 0 <= k < |m| ==> m[k] != 0
    ensures MaskedSumRow(r, m) == SumRow(r) && MaskedCountRow(m) == |m|
  {
    if |r| > 0 {
      FullMaskRow(r[1..], m[1..]);
    }
  }

  lemma {:induction false} FullMaskGrid(g: Grid, m: Grid, w: nat)
    requires SameShape2(g, m) && IsRect(g, |g|, w)
    requires forall i, k :: 0 <= i < |m| && 0 <= k < |m[i]| ==> m[i][k] != 0
    ensures MaskedSum(g, m) == SumGrid(g) && MaskedCount(m) == |g| * w
  {
    if |g| > 0 {
      FullMaskRow(g[0], m[0]);
      FullMaskGrid(g[1..], m[1..], w);
      assert |g| * w == w + (|g| - 1) * w;
    }
  }

  /** With a mask that selects every cell, the masked mean is the plain mean. */
  lemma FullMaskMean(g: Grid, m: Grid)
    requires |g| > 0 && |g[0]| > 0 && IsRect(g, |g|, |g[0]|) && SameShape2(g, m)
    requires forall i, k :: 0 <= i < |m| && 0 <= k < |m[i]| ==> m[i][k] != 0
    ensures MaskedMean(g, m) == Mean(g)
  {
    FullMaskGrid(g, m, |g[0]|);
  }

  // ---------------------------------------------------------------------
  // Exposure and gain weighting

  /** The raw mean offset by how far exposure and gain sit below their night maxima; not clamped. */
  function Weighted(raw: real, exposure: real, exposureMax: real, gain: real, nightGain: real): (w: real)
    // at the maximum exposure and the night gain the index is the raw mean itself
    ensures exposure == exposureMax && gain == nightGain ==> w == raw
    // the index vanishes only for a black frame or ten units past either maximum
    ensures w == 0.0 <==> raw == 0.0 || exposure == exposureMax + 10.0 || gain == nightGain + 10.0
  {
    var exposureFactor := (exposureMax - exposure) / 10.0 + 1.0;
    var gainFactor := (nightGain - gain) / 10.0 + 1.0;
    MulZero(raw, gainFactor);
    MulZero(exposureFactor, raw * gainFactor);
    exposureFactor * (raw * gainFactor)
  }

  /** Raw mean 100 at 15 s of a 30 s maximum and gain 0 of a night gain of 10 gives 2.5 x 200 = 500. */
  lemma WeightedExample()
    ensures Weighted(100.0, 15.0, 30.0, 0.0, 10.0) == 500.0
  {
  }

  /**
    For a positive raw mean and gain factor, a longer exposure always lowers
    the index, and past ten seconds beyond the maximum the index turns negative.
   */
  lemma WeightedExposureTrend(raw: real, e1: real, e2: real, exposureMax: real, gain: real, nightGain: real)
    requires raw > 0.0 && gain < nightGain + 10.0 && e1 < e2
    ensures Weighted(raw, e1, exposureMax, gain, nightGain) > Weighted(raw, e2, exposureMax, gain, nightGain)
    ensures e2 > exposureMax + 10.0 ==> Weighted(raw, e2, exposureMax, gain, nightGain) < 0.0
  {
    var gainFactor := (nightGain - gain) / 10.0 + 1.0;
    var k := raw * gainFactor;
    var f1 := (exposureMax - e1) / 10.0 + 1.0;
    var f2 := (exposureMax - e2) / 10.0 + 1.0;
    MulPos(raw, gainFactor);
    assert k > 0.0;
    assert Weighted(raw, e1, exposureMax, gain, nightGain) == f1 * k;
    assert Weighted(raw, e2, exposureMax, gain, nightGain) == f2 * k;
    assert f1 * k - f2 * k == (f1 - f2) * k;
    assert f1 - f2 > 0.0;
    MulPos(f1 - f2, k);
    if e2 > exposureMax + 10.0 {
      MulPos(-f2, k);
    }
  }

  lemma MulPos(x: real, y: real)
    requires x > 0.0 && y > 0.0
    ensures x * y > 0.0
  {
  }

  lemma MulZero(x: real, y: real)
    ensures x * y == 0.0 <==> x == 0.0 || y == 0.0
  {
    if x != 0.0 && y != 0.0 {
      var ax := if x > 0.0 then x else -x;
      var ay := if y > 0.0 then y else -y;
      MulPos(ax, ay);
      assert ax * ay == x * y || ax * ay == -(x * y);
    }
  }

  // ---------------------------------------------------------------------
  // calculate

  /** The analyzer after the mask check: the cached mask, or a freshly built one. */
  function WithMask(a: Analyzer, img: Frame): (r: Result<Analyzer, SqmError>)
    requires Valid(img)
    ensures a.sqmMask.Some? ==> r == Ok(a)
    ensures r.Ok? ==> r.value.sqmMask.Some? && r.value.(sqmMask := a.sqmMask) == a
    ensures a.sqmMask.None? ==> (r.Ok? <==> BuildMask(a.config.roi, a.binning, a.externalMask, Height(img), Width(img)).Ok?)
    ensures a.sqmMask.None? && r.Ok? ==>
              r.value.sqmMask == Some(BuildMask(a.config.roi, a.binning, a.externalMask, Height(img), Width(img)).value)
  {
    if a.sqmMask.Some? then Ok(a)
    else match BuildMask(a.config.roi, a.binning, a.externalMask, Height(img), Width(img))
      case Ok(m) => Ok(a.(sqmMask := Some(m)))
      case Err(e) => Err(e)
  }

  /**
    calculate: builds the mask if there is none yet, takes the mean gray level
    under it and weights it by exposure and gain.
   */
  function Calculate(a: Analyzer, img: Frame, exposure: real, gain: real, luma: seq<int> -> int): (r: Reading)
    requires Valid(img)
    // only the cached mask ever changes, and only from absent to present
    ensures r.state.(sqmMask := a.sqmMask) == a
    ensures a.sqmMask.Some? ==> r.state == a
    ensures a.sqmMask.None? && r.state.sqmMask.Some? ==>
              BuildMask(a.config.roi, a.binning, a.externalMask, Height(img), Width(img)) == Ok(r.state.sqmMask.value)
    ensures a.sqmMask.None? ==>
              (r.state.sqmMask.Some? <==> BuildMask(a.config.roi, a.binning, a.externalMask, Height(img), Width(img)).Ok?)
    // the value: the weighted masked mean of the gray view
    ensures r.value.Ok? ==>
              && r.state.sqmMask.Some?
              && SameShape2(GrayView(img, luma), r.state.sqmMask.value)
              && a.config.exposureMax.Some? && a.config.nightGain.Some?
              && r.value.value == Weighted(MaskedMean(GrayView(img, luma), r.state.sqmMask.value),
                                           exposure, a.config.exposureMax.value, gain, a.config.nightGain.value)
    // a stale mask of another size makes OpenCV raise
    ensures r.state.sqmMask.Some? && !SameShape2(GrayView(img, luma), r.state.sqmMask.value) ==> r.value == Err(MaskSizeMismatch)
    ensures r.state.sqmMask.Some? && SameShape2(GrayView(img, luma), r.state.sqmMask.value) ==>
              (r.value.Ok? <==> a.config.exposureMax.Some? && a.config.nightGain.Some?)
    // which exception: the mask build's own, else the first missing key in the order the formula reads them
    ensures a.sqmMask.None? && BuildMask(a.config.roi, a.binning, a.externalMask, Height(img), Width(img)).Err? ==>
              r.value == Err(BuildMask(a.config.roi, a.binning, a.externalMask, Height(img), Width(img)).error)
    ensures r.state.sqmMask.Some? && SameShape2(GrayView(img, luma), r.state.sqmMask.value) && a.config.exposureMax.None? ==>
              r.value == Err(MissingSetting("CCD_EXPOSURE_MAX"))
    ensures r.state.sqmMask.Some? && SameShape2(GrayView(img, luma), r.state.sqmMask.value) &&
            a.config.exposureMax.Some? && a.config.nightGain.None? ==>
              r.value == Err(MissingSetting("CCD_CONFIG.NIGHT.GAIN"))
  {
    match WithMask(a, img)
    case Err(e) => Reading(a, Err(e))
    case Ok(a1) =>
      var mask := a1.sqmMask.value;
      var gray := GrayView(img, luma);
      if !SameShape2(gray, mask) then Reading(a1, Err(MaskSizeMismatch))
      else
        var raw := MaskedMean(gray, mask);
        if a.config.exposureMax.None? then Reading(a1, Err(MissingSetting("CCD_EXPOSURE_MAX")))
        else if a.config.nightGain.None? then Reading(a1, Err(MissingSetting("CCD_CONFIG.NIGHT.GAIN")))
        else Reading(a1, Ok(Weighted(raw, exposure, a.config.exposureMax.value, gain, a.config.nightGain.value)))
  }

  /**
    The first call on a new analyzer builds the mask from the configured
    region, the binning, the external mask and that frame's size, and caches
    it; if building fails, that error is raised and nothing is cached.
   */
  lemma FirstCallBuildsMask(config: SqmConfig, binning: int, mask: Option<Grid>, img: Frame, exposure: real, gain: real,
                            luma: seq<int> -> int)
    requires Valid(img)
    ensures var a := NewAnalyzer(config, binning, mask);
            var r := Calculate(a, img, exposure, gain, luma);
            match BuildMask(config.roi, binning, mask, Height(img), Width(img))
            case Ok(m) => r.state == a.(sqmMask := Some(m))
            case Err(e) => r.state == a && r.value == Err(e)
  {
  }

  /**
    The mask is built once: after a call that built it, changing the region of
    interest and calling again with another frame reuses it unchanged.
   */
  lemma MaskBuiltOnce(a: Analyzer, img1: Frame, img2: Frame, roi: seq<int>, e1: real, g1: real, e2: real, g2: real,
                      luma: seq<int> -> int)
    requires Valid(img1) && Valid(img2)
    requires Calculate(a, img1, e1, g1, luma).state.sqmMask.Some?
    ensures var s1 := Calculate(a, img1, e1, g1, luma).state;
            var s2 := Calculate(s1.(config := s1.config.(roi := roi)), img2, e2, g2, luma).state;
            s2.sqmMask == s1.sqmMask
  {
  }

  /**
    With a well-formed mask of the frame's size, the index of a monochrome
    frame is the weighted mean of the frame itself under the mask.
   */
  lemma MonoUsesFrame(a: Analyzer, img: Frame, exposure: real, gain: real, luma: seq<int> -> int)
    requires Valid(img) && img.Mono? && a.sqmMask.Some? && SameShape2(img.gray, a.sqmMask.value)
    requires a.config.exposureMax.Some? && a.config.nightGain.Some?
    ensures Calculate(a, img, exposure, gain, luma).value ==
              Ok(Weighted(MaskedMean(img.gray, a.sqmMask.value), exposure, a.config.exposureMax.value, gain, a.config.nightGain.value))
  {
  }
}
