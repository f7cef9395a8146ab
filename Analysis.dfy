/** The `analyze` operation: a decoded RGB image in, a contamination
    assessment (count, rounded percentage, label) or an error out. */
module Analysis {
  import opened Grids
  import opened Pixels
  import opened Classifier
  import opened Assessor

  /** Why an analysis fails once the image is decoded. */
  datatype AnalysisError =
    | EdgePadOfEmptyAxis  // a difference grid with no columns or no rows cannot be edge-padded

  datatype Result<T> = Success(value: T) | Failure(error: AnalysisError)

  /** Analyses an image whose luminance has population standard deviation
      `std`. Images with fewer than two rows or two columns fail; otherwise
      the count is at most the number of pixels, the reported percentage is
      the rounded share of counted pixels, and the label is taken from the
      unrounded share. */
  function Analyze(img: Grid<Pixel>, std: real, cfg: Config): (r: Result<Report>)
    requires Rectangular(img)
    requires IsStdDev(std, LumaGrid(img, |img|, Width(img)), |img|, Width(img))
    ensures r.Failure? <==> |img| < 2 || Width(img) < 2
    ensures r.Success? ==>
              && 2 <= |img| && 2 <= Width(img)
              && r.value.bacteriaCount == GridCount(Classify(img, |img|, Width(img), std, cfg).bacteria)
              && 0 < |img| * Width(img)
              && r.value.bacteriaCount <= |img| * Width(img)
              && r.value == Assess(r.value.bacteriaCount, |img| * Width(img))
  {
    var h, w := |img|, Width(img);
    if h < 2 || w < 2 then Failure(EdgePadOfEmptyAxis)
    else
      var count := GridCount(Classify(img, h, w, std, cfg).bacteria);
      BacteriaCountBound(img, h, w, std, cfg);
      PositiveArea(h, w);
      Success(Assess(count, h * w))
  }

  /** Nothing in a grid of one value is strictly brighter than that value. */
  lemma NothingAboveUniform(gray: Grid<real>, h: nat, w: nat, c: real)
    requires IsShape(gray, h, w)
    requires forall y, x :: 0 <= y < h && 0 <= x < w ==> gray[y][x] == c
    ensures GridCount(BrightMask(gray, h, w, c)) == 0
  {
  }

  /** A uniformly coloured image has zero deviation, so the adaptive
      threshold is the mean, which is every pixel's luminance; under the
      strict comparison nothing is counted, whatever the configuration. */
  lemma UniformImageIsSafe(img: Grid<Pixel>, p: Pixel, std: real, cfg: Config)
    requires Rectangular(img) && 2 <= |img| && 2 <= Width(img)
    requires forall y, x :: 0 <= y < |img| && 0 <= x < Width(img) ==> img[y][x] == p
    requires IsStdDev(std, LumaGrid(img, |img|, Width(img)), |img|, Width(img))
    ensures std == 0.0
    ensures Analyze(img, std, cfg) == Success(Report(0, 0.0, Safe))
  {
    var h, w := |img|, Width(img);
    UniformImageHasNoDeviation(img, p, std);
    UniformImageCountsNothing(img, p, cfg);
    PositiveArea(h, w);
    AssessNothing(h * w);
  }

  /** The luminance of a uniformly coloured image has mean equal to the
      pixel's luminance and standard deviation zero. */
  lemma UniformImageHasNoDeviation(img: Grid<Pixel>, p: Pixel, std: real)
    requires Rectangular(img) && 2 <= |img| && 2 <= Width(img)
    requires forall y, x :: 0 <= y < |img| && 0 <= x < Width(img) ==> img[y][x] == p
    requires IsStdDev(std, LumaGrid(img, |img|, Width(img)), |img|, Width(img))
    ensures Mean(LumaGrid(img, |img|, Width(img)), |img|, Width(img)) == Luminance(p)
    ensures std == 0.0
  {
    var h, w := |img|, Width(img);
    PositiveArea(h, w);
    UniformStatistics(LumaGrid(img, h, w), h, w, Luminance(p));
    NoSpreadNoDeviation(std);
  }

  /** With zero deviation, no pixel of a uniformly coloured image is counted. */
  lemma UniformImageCountsNothing(img: Grid<Pixel>, p: Pixel, cfg: Config)
    requires Rectangular(img) && 2 <= |img| && 2 <= Width(img)
    requires forall y, x :: 0 <= y < |img| && 0 <= x < Width(img) ==> img[y][x] == p
    ensures GridCount(Classify(img, |img|, Width(img), 0.0, cfg).bacteria) == 0
  {
    var h, w := |img|, Width(img);
    var s := Classify(img, h, w, 0.0, cfg);
    var c := Luminance(p);
    var gray := LumaGrid(img, h, w);
    assert s.gray == gray;
    assert forall y, x :: 0 <= y < h && 0 <= x < w ==> gray[y][x] == c;
    PositiveArea(h, w);
    UniformStatistics(gray, h, w, c);
    assert s.mean == c;
    ThresholdsAtZeroDeviation(c, cfg);
    assert s.bright == BrightMask(gray, h, w, c);
    NothingAboveUniform(gray, h, w, c);
    GridCountMonotone(s.bacteria, s.bright);
  }

  /** A product of two non-negative numbers is zero only when a factor is. */
  lemma ZeroProduct(a: real, b: real)
    requires 0.0 <= a && 0.0 <= b && a * b == 0.0
    ensures a == 0.0 || b == 0.0
  {
  }

  /** A non-negative root of zero is zero. */
  lemma NoSpreadNoDeviation(std: real)
    requires 0.0 <= std && std * std == 0.0
    ensures std == 0.0
  {
    ZeroProduct(std, std);
  }

  /** Raising the adaptive multiplier never raises the reported count. */
  lemma AnalyzeMonotoneInMultiplier(img: Grid<Pixel>, std: real, cfg: Config, k: real)
    requires Rectangular(img)
    requires IsStdDev(std, LumaGrid(img, |img|, Width(img)), |img|, Width(img))
    requires cfg.adaptiveStdMultiplier <= k
    ensures Analyze(img, std, cfg.(adaptiveStdMultiplier := k)).Success? ==>
              Analyze(img, std, cfg.(adaptiveStdMultiplier := k)).value.bacteriaCount
              <= Analyze(img, std, cfg).value.bacteriaCount
  {
    if 2 <= |img| && 2 <= Width(img) {
      AdaptiveMultiplierMonotone(img, |img|, Width(img), std, cfg, k);
    }
  }
}
