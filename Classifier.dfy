/** The adaptive, glare-aware classifier: luminance grid, image statistics,
    saturation and edge-padded contrast grids, the glare mask and the
    bacteria (bright, non-glare) mask. Every stage is a whole-grid function
    of the decoded image, and every derived grid keeps the image's H×W shape. */
module Classifier {
  import opened Grids
  import opened Pixels

  /** The four tuning constants of the classifier. */
  datatype Config = Config(
    adaptiveStdMultiplier: real,     // bright when luminance > mean + this * std
    glareBrightStdMultiplier: real,  // glare needs luminance > mean + this * std
    glareSaturationMax: real,        // glare needs saturation < this
    glareContrastMax: real)          // glare needs contrast < this

  const DefaultConfig: Config := Config(0.8, 1.5, 20.0, 10.0)

  // ---------------------------------------------------------------------------
  // Per-pixel grids

  /** The luminance of every pixel, in the image's shape. */
  function LumaGrid(img: Grid<Pixel>, h: nat, w: nat): (gray: Grid<real>)
    requires IsShape(img, h, w)
    ensures IsShape(gray, h, w)
    ensures forall y, x :: 0 <= y < h && 0 <= x < w ==> gray[y][x] == Luminance(img[y][x])
    ensures forall y, x :: 0 <= y < h && 0 <= x < w ==> 0.0 <= gray[y][x] <= 255.0
  {
    seq(h, y requires 0 <= y < h => seq(w, x requires 0 <= x < w => Luminance(img[y][x])))
  }

  /** The saturation of every pixel, in the image's shape. */
  function SaturationGrid(img: Grid<Pixel>, h: nat, w: nat): (sat: Grid<nat>)
    requires IsShape(img, h, w)
    ensures IsShape(sat, h, w)
    ensures forall y, x :: 0 <= y < h && 0 <= x < w ==> sat[y][x] == Saturation(img[y][x])
    ensures forall y, x :: 0 <= y < h && 0 <= x < w ==> sat[y][x] <= 255
  {
    seq(h, y requires 0 <= y < h => seq(w, x requires 0 <= x < w => Saturation(img[y][x])))
  }

  // ---------------------------------------------------------------------------
  // Image statistics

  /** Arithmetic mean of the cells (0 for an empty grid). */
  function Mean(g: Grid<real>, h: nat, w: nat): (m: real)
    requires IsShape(g, h, w)
    ensures 0 < h * w ==> m * (h * w) as real == GridSum(g)
  {
    if h * w == 0 then 0.0 else GridSum(g) / (h * w) as real
  }

  function SquaredDeviations(g: Grid<real>, h: nat, w: nat, m: real): (d: Grid<real>)
    requires IsShape(g, h, w)
    ensures IsShape(d, h, w)
    ensures forall y, x :: 0 <= y < h && 0 <= x < w ==> d[y][x] == (g[y][x] - m) * (g[y][x] - m)
  {
    seq(h, y requires 0 <= y < h => seq(w, x requires 0 <= x < w => (g[y][x] - m) * (g[y][x] - m)))
  }

  /** Population variance (divisor H*W, numpy's default ddof = 0); never negative. */
  function Variance(g: Grid<real>, h: nat, w: nat): (v: real)
    requires IsShape(g, h, w)
    ensures 0.0 <= v
  {
    if h * w == 0 then 0.0
    else
      var d := SquaredDeviations(g, h, w, Mean(g, h, w));
      GridSumAtLeast(d, h, w, 0.0);
      GridSum(d) / (h * w) as real
  }

  /** `std` is the population standard deviation of `g`. */
  predicate IsStdDev(std: real, g: Grid<real>, h: nat, w: nat)
    requires IsShape(g, h, w)
  {
    0.0 <= std && std * std == Variance(g, h, w)
  }

  /** The mean lies between the smallest and the largest possible cell. */
  lemma MeanBetween(g: Grid<real>, h: nat, w: nat, lo: real, hi: real)
    requires IsShape(g, h, w) && 0 < h * w
    requires forall y, x :: 0 <= y < h && 0 <= x < w ==> lo <= g[y][x] <= hi
    ensures lo <= Mean(g, h, w) <= hi
  {
    var n := (h * w) as real;
    GridSumAtLeast(g, h, w, lo);
    GridSumAtMost(g, h, w, hi);
    assert GridSum(g) / n * n == GridSum(g);
  }

  /** An image of one value has that value as mean and zero variance. */
  lemma UniformStatistics(g: Grid<real>, h: nat, w: nat, c: real)
    requires IsShape(g, h, w) && 0 < h * w
    requires forall y, x :: 0 <= y < h && 0 <= x < w ==> g[y][x] == c
    ensures Mean(g, h, w) == c
    ensures Variance(g, h, w) == 0.0
  {
    MeanBetween(g, h, w, c, c);
    var d := SquaredDeviations(g, h, w, c);
    GridSumAtMost(d, h, w, 0.0);
    GridSumAtLeast(d, h, w, 0.0);
  }

  /** The adaptive threshold: the mean raised by a multiple of the deviation.
      `ThresholdMonotone` and `ThresholdsAtZeroDeviation` state its meaning. */
  function AdaptiveThreshold(mean: real, std: real, cfg: Config): real
  {
    mean + cfg.adaptiveStdMultiplier * std
  }

  /** The glare brightness cut-off, built the same way with its own multiplier. */
  function GlareThreshold(mean: real, std: real, cfg: Config): real
  {
    mean + cfg.glareBrightStdMultiplier * std
  }

  // ---------------------------------------------------------------------------
  // Contrast: neighbour differences, edge-padded on the right and at the bottom

  /** |g[y][x+1] - g[y][x]|: one column fewer than `g`. */
  function HorizontalDiffs(g: Grid<real>, h: nat, w: nat): (d: Grid<real>)
    requires IsShape(g, h, w) && 1 <= w
    ensures IsShape(d, h, w - 1)
    ensures forall y, x :: 0 <= y < h && 0 <= x < w - 1 ==> d[y][x] == Abs(g[y][x + 1] - g[y][x])
  {
    seq(h, y requires 0 <= y < h => seq(w - 1, x requires 0 <= x < w - 1 => Abs(g[y][x + 1] - g[y][x])))
  }

  /** |g[y+1][x] - g[y][x]|: one row fewer than `g`. */
  function VerticalDiffs(g: Grid<real>, h: nat, w: nat): (d: Grid<real>)
    requires IsShape(g, h, w) && 1 <= h
    ensures IsShape(d, h - 1, w)
    ensures forall y, x :: 0 <= y < h - 1 && 0 <= x < w ==> d[y][x] == Abs(g[y + 1][x] - g[y][x])
  {
    seq(h - 1, y requires 0 <= y < h - 1 => seq(w, x requires 0 <= x < w => Abs(g[y + 1][x] - g[y][x])))
  }

  /** Appends a copy of the last column (edge padding); a column index
      past the end reads the nearest existing column. */
  function EdgePadRight(d: Grid<real>, h: nat, w: nat): (p: Grid<real>)
    requires IsShape(d, h, w) && 1 <= w
    ensures IsShape(p, h, w + 1)
    ensures forall y, x :: 0 <= y < h && 0 <= x < w + 1 ==> p[y][x] == d[y][Min(x, w - 1)]
  {
    seq(h, y requires 0 <= y < h => d[y] + [d[y][w - 1]])
  }

  /** Appends a copy of the last row (edge padding); a row index past the
      end reads the nearest existing row. */
  function EdgePadBottom(d: Grid<real>, h: nat, w: nat): (p: Grid<real>)
    requires IsShape(d, h, w) && 1 <= h
    ensures IsShape(p, h + 1, w)
    ensures forall y :: 0 <= y < h + 1 ==> p[y] == d[Min(y, h - 1)]
  {
    d + [d[h - 1]]
  }

  /** The cell-wise sum of two grids of the same shape. */
  function AddGrids(a: Grid<real>, b: Grid<real>, h: nat, w: nat): (c: Grid<real>)
    requires IsShape(a, h, w) && IsShape(b, h, w)
    ensures IsShape(c, h, w)
    ensures forall y, x :: 0 <= y < h && 0 <= x < w ==> c[y][x] == a[y][x] + b[y][x]
  {
    seq(h, y requires 0 <= y < h => seq(w, x requires 0 <= x < w => a[y][x] + b[y][x]))
  }

  /** After padding on the right, a cell reads the difference at the nearest
      column that has a right neighbour. */
  lemma PaddedHorizontalDiffs(g: Grid<real>, h: nat, w: nat, gx: Grid<real>)
    requires IsShape(g, h, w) && 2 <= w
    requires gx == EdgePadRight(HorizontalDiffs(g, h, w), h, w - 1)
    ensures forall y, x :: 0 <= y < h && 0 <= x < w ==>
              gx[y][x] == Abs(g[y][Min(x, w - 2) + 1] - g[y][Min(x, w - 2)])
  {
    var dx := HorizontalDiffs(g, h, w);
    forall y, x | 0 <= y < h && 0 <= x < w
      ensures gx[y][x] == Abs(g[y][Min(x, w - 2) + 1] - g[y][Min(x, w - 2)])
    {
      var cx := Min(x, w - 2);
      assert 0 <= cx < w - 1;
      assert gx[y][x] == dx[y][cx];
    }
  }

  /** After padding at the bottom, a cell reads the difference at the
      nearest row that has a lower neighbour. */
  lemma PaddedVerticalDiffs(g: Grid<real>, h: nat, w: nat, gy: Grid<real>)
    requires IsShape(g, h, w) && 2 <= h
    requires gy == EdgePadBottom(VerticalDiffs(g, h, w), h - 1, w)
    ensures forall y, x :: 0 <= y < h && 0 <= x < w ==>
              gy[y][x] == Abs(g[Min(y, h - 2) + 1][x] - g[Min(y, h - 2)][x])
  {
    var dy := VerticalDiffs(g, h, w);
    forall y, x | 0 <= y < h && 0 <= x < w
      ensures gy[y][x] == Abs(g[Min(y, h - 2) + 1][x] - g[Min(y, h - 2)][x])
    {
      var cy := Min(y, h - 2);
      assert 0 <= cy < h - 1;
      assert gy[y] == dy[cy];
    }
  }

  /** Local contrast: horizontal plus vertical absolute neighbour difference,
      where the last column and the last row reuse the difference of the
      column or row before them. Defined only when both axes have at least
      two cells, since padding an empty difference axis is an error. */
  function Contrast(g: Grid<real>, h: nat, w: nat): (c: Grid<real>)
    requires IsShape(g, h, w) && 2 <= h && 2 <= w
    ensures IsShape(c, h, w)
    ensures forall y, x :: 0 <= y < h && 0 <= x < w ==>
              var cx, cy := Min(x, w - 2), Min(y, h - 2);
              c[y][x] == Abs(g[y][cx + 1] - g[y][cx]) + Abs(g[cy + 1][x] - g[cy][x])
    ensures forall y, x :: 0 <= y < h && 0 <= x < w ==> 0.0 <= c[y][x]
  {
    var gx := EdgePadRight(HorizontalDiffs(g, h, w), h, w - 1);
    var gy := EdgePadBottom(VerticalDiffs(g, h, w), h - 1, w);
    PaddedHorizontalDiffs(g, h, w, gx);
    PaddedVerticalDiffs(g, h, w, gy);
    AddGrids(gx, gy, h, w)
  }

  // ---------------------------------------------------------------------------
  // Masks

  /** Glare: brighter than `brightCut`, nearly colourless and flat. */
  function GlareMask(gray: Grid<real>, sat: Grid<nat>, contrast: Grid<real>, h: nat, w: nat,
                     brightCut: real, saturationMax: real, contrastMax: real): (m: Grid<bool>)
    requires IsShape(gray, h, w) && IsShape(sat, h, w) && IsShape(contrast, h, w)
    ensures IsShape(m, h, w)
    ensures forall y, x :: 0 <= y < h && 0 <= x < w ==>
              (m[y][x] <==>
                 && gray[y][x] > brightCut
                 && (sat[y][x] as real) < saturationMax
                 && contrast[y][x] < contrastMax)
  {
    seq(h, y requires 0 <= y < h => seq(w, x requires 0 <= x < w =>
      gray[y][x] > brightCut && (sat[y][x] as real) < saturationMax && contrast[y][x] < contrastMax))
  }

  /** Cells strictly brighter than `threshold`. */
  function BrightMask(gray: Grid<real>, h: nat, w: nat, threshold: real): (m: Grid<bool>)
    requires IsShape(gray, h, w)
    ensures IsShape(m, h, w)
    ensures forall y, x :: 0 <= y < h && 0 <= x < w ==> (m[y][x] <==> gray[y][x] > threshold)
  {
    seq(h, y requires 0 <= y < h => seq(w, x requires 0 <= x < w => gray[y][x] > threshold))
  }

  /** Bright cells with the glare cells taken out. */
  function BacteriaMask(bright: Grid<bool>, glare: Grid<bool>, h: nat, w: nat): (m: Grid<bool>)
    requires IsShape(bright, h, w) && IsShape(glare, h, w)
    ensures IsShape(m, h, w)
    ensures SubMask(m, bright)
    ensures forall y, x :: 0 <= y < h && 0 <= x < w ==> !(m[y][x] && glare[y][x])
    ensures forall y, x :: 0 <= y < h && 0 <= x < w ==> (m[y][x] <==> bright[y][x] && !glare[y][x])
  {
    seq(h, y requires 0 <= y < h => seq(w, x requires 0 <= x < w => bright[y][x] && !glare[y][x]))
  }

  // ---------------------------------------------------------------------------
  // The whole classifier

  /** Every intermediate result of one classification. */
  datatype Stages = Stages(
    gray: Grid<real>,
    mean: real,
    saturation: Grid<nat>,
    contrast: Grid<real>,
    glare: Grid<bool>,
    bright: Grid<bool>,
    bacteria: Grid<bool>)

  /** Runs the classifier on an `h`×`w` image whose luminance has standard
      deviation `std`; every derived grid has the image's shape. */
  function Classify(img: Grid<Pixel>, h: nat, w: nat, std: real, cfg: Config): (s: Stages)
    requires IsShape(img, h, w) && 2 <= h && 2 <= w
    ensures IsShape(s.gray, h, w) && IsShape(s.saturation, h, w) && IsShape(s.contrast, h, w)
    ensures IsShape(s.glare, h, w) && IsShape(s.bright, h, w) && IsShape(s.bacteria, h, w)
    ensures SubMask(s.bacteria, s.bright)
  {
    var gray := LumaGrid(img, h, w);
    var mean := Mean(gray, h, w);
    var sat := SaturationGrid(img, h, w);
    var contrast := Contrast(gray, h, w);
    var glare := GlareMask(gray, sat, contrast, h, w, GlareThreshold(mean, std, cfg),
                           cfg.glareSaturationMax, cfg.glareContrastMax);
    var bright := BrightMask(gray, h, w, AdaptiveThreshold(mean, std, cfg));
    Stages(gray, mean, sat, contrast, glare, bright, BacteriaMask(bright, glare, h, w))
  }

  /** What the classifier marks, cell by cell: glare is very bright, nearly
      colourless and flat; a counted pixel is strictly above the adaptive
      threshold and never glare. */
  lemma ClassifyCells(img: Grid<Pixel>, h: nat, w: nat, std: real, cfg: Config, y: nat, x: nat)
    requires IsShape(img, h, w) && 2 <= h && 2 <= w && y < h && x < w
    ensures var s := Classify(img, h, w, std, cfg);
      && s.gray[y][x] == Luminance(img[y][x])
      && s.mean == Mean(s.gray, h, w)
      && (s.glare[y][x] <==>
            && s.gray[y][x] > GlareThreshold(s.mean, std, cfg)
            && (Saturation(img[y][x]) as real) < cfg.glareSaturationMax
            && s.contrast[y][x] < cfg.glareContrastMax)
      && (s.bacteria[y][x] <==> s.gray[y][x] > AdaptiveThreshold(s.mean, std, cfg) && !s.glare[y][x])
  {
  }

  /** The number of counted pixels is bounded by the bright pixels and by the image size. */
  lemma BacteriaCountBound(img: Grid<Pixel>, h: nat, w: nat, std: real, cfg: Config)
    requires IsShape(img, h, w) && 2 <= h && 2 <= w
    ensures GridCount(Classify(img, h, w, std, cfg).bacteria) <= GridCount(Classify(img, h, w, std, cfg).bright) <= h * w
  {
    var s := Classify(img, h, w, std, cfg);
    GridCountMonotone(s.bacteria, s.bright);
    GridCountBound(s.bright, h, w);
  }

  /** With a non-negative deviation, a larger multiplier gives a cut-off at least as high. */
  lemma ThresholdMonotone(mean: real, std: real, a: real, b: real)
    requires a <= b && 0.0 <= std
    ensures mean + a * std <= mean + b * std
  {
    assert b * std - a * std == (b - a) * std;
  }

  /** With zero deviation both thresholds are the mean. */
  lemma ThresholdsAtZeroDeviation(mean: real, cfg: Config)
    ensures AdaptiveThreshold(mean, 0.0, cfg) == mean
    ensures GlareThreshold(mean, 0.0, cfg) == mean
  {
  }

  /** The glare cut-off is at or above the adaptive threshold when its multiplier is. */
  lemma GlareCutAboveThreshold(mean: real, std: real, cfg: Config)
    requires 0.0 <= std && cfg.adaptiveStdMultiplier <= cfg.glareBrightStdMultiplier
    ensures AdaptiveThreshold(mean, std, cfg) <= GlareThreshold(mean, std, cfg)
  {
    ThresholdMonotone(mean, std, cfg.adaptiveStdMultiplier, cfg.glareBrightStdMultiplier);
    assert AdaptiveThreshold(mean, std, cfg) == mean + cfg.adaptiveStdMultiplier * std;
    assert GlareThreshold(mean, std, cfg) == mean + cfg.glareBrightStdMultiplier * std;
  }

  /** Raising the adaptive multiplier to `k` raises the adaptive threshold. */
  lemma AdaptiveThresholdRises(mean: real, std: real, cfg: Config, k: real)
    requires 0.0 <= std && cfg.adaptiveStdMultiplier <= k
    ensures AdaptiveThreshold(mean, std, cfg) <= AdaptiveThreshold(mean, std, cfg.(adaptiveStdMultiplier := k))
  {
    ThresholdMonotone(mean, std, cfg.adaptiveStdMultiplier, k);
    assert AdaptiveThreshold(mean, std, cfg) == mean + cfg.adaptiveStdMultiplier * std;
    assert AdaptiveThreshold(mean, std, cfg.(adaptiveStdMultiplier := k)) == mean + k * std;
  }

  /** The glare cut-off does not involve the adaptive multiplier. */
  lemma GlareIgnoresAdaptiveMultiplier(mean: real, std: real, cfg: Config, k: real)
    ensures GlareThreshold(mean, std, cfg.(adaptiveStdMultiplier := k)) == GlareThreshold(mean, std, cfg)
  {
  }

  /** Raising the brightness threshold only removes cells from the bacteria mask. */
  lemma BacteriaMaskShrinks(gray: Grid<real>, glare: Grid<bool>, h: nat, w: nat, t: real, t': real)
    requires IsShape(gray, h, w) && IsShape(glare, h, w) && t <= t'
    ensures SubMask(BacteriaMask(BrightMask(gray, h, w, t'), glare, h, w),
                    BacteriaMask(BrightMask(gray, h, w, t), glare, h, w))
  {
  }

  /** When the glare cut-off is at least the brightness threshold, every
      glare cell is bright and the bright cells split into counted and glare cells. */
  lemma BrightSplits(gray: Grid<real>, sat: Grid<nat>, contrast: Grid<real>, h: nat, w: nat,
                     t: real, glareCut: real, saturationMax: real, contrastMax: real)
    requires IsShape(gray, h, w) && IsShape(sat, h, w) && IsShape(contrast, h, w) && t <= glareCut
    ensures var glare := GlareMask(gray, sat, contrast, h, w, glareCut, saturationMax, contrastMax);
            var bright := BrightMask(gray, h, w, t);
            SubMask(glare, bright) &&
            GridCount(BacteriaMask(bright, glare, h, w)) + GridCount(glare) == GridCount(bright)
  {
    var glare := GlareMask(gray, sat, contrast, h, w, glareCut, saturationMax, contrastMax);
    var bright := BrightMask(gray, h, w, t);
    GridCountSplit(bright, BacteriaMask(bright, glare, h, w), glare);
  }

  /** With a non-negative deviation and the glare brightness multiplier at
      or above the adaptive one (as in the defaults, 1.5 >= 0.8), every glare
      pixel is bright, so the counted pixels are exactly the bright pixels
      minus the glare pixels. */
  lemma BacteriaAreBrightMinusGlare(img: Grid<Pixel>, h: nat, w: nat, std: real, cfg: Config)
    requires IsShape(img, h, w) && 2 <= h && 2 <= w
    requires 0.0 <= std && cfg.adaptiveStdMultiplier <= cfg.glareBrightStdMultiplier
    ensures SubMask(Classify(img, h, w, std, cfg).glare, Classify(img, h, w, std, cfg).bright)
    ensures GridCount(Classify(img, h, w, std, cfg).bacteria) + GridCount(Classify(img, h, w, std, cfg).glare)
            == GridCount(Classify(img, h, w, std, cfg).bright)
  {
    var s := Classify(img, h, w, std, cfg);
    GlareCutAboveThreshold(s.mean, std, cfg);
    BrightSplits(s.gray, s.saturation, s.contrast, h, w, AdaptiveThreshold(s.mean, std, cfg),
                 GlareThreshold(s.mean, std, cfg), cfg.glareSaturationMax, cfg.glareContrastMax);
  }

  /** The default multipliers are non-negative and ordered (0.8 <= 1.5), so
      the default configuration meets the requires of `BacteriaAreBrightMinusGlare`. */
  lemma DefaultConfigOrdered()
    ensures 0.0 <= DefaultConfig.adaptiveStdMultiplier <= DefaultConfig.glareBrightStdMultiplier
    ensures DefaultConfig.glareSaturationMax == 20.0 && DefaultConfig.glareContrastMax == 10.0
  {
  }

  /** With the default configuration, the counted pixels are exactly the
      bright pixels minus the glare pixels. */
  lemma DefaultBacteriaAreBrightMinusGlare(img: Grid<Pixel>, h: nat, w: nat, std: real)
    requires IsShape(img, h, w) && 2 <= h && 2 <= w && 0.0 <= std
    ensures GridCount(Classify(img, h, w, std, DefaultConfig).bacteria)
            + GridCount(Classify(img, h, w, std, DefaultConfig).glare)
            == GridCount(Classify(img, h, w, std, DefaultConfig).bright)
  {
    DefaultConfigOrdered();
    BacteriaAreBrightMinusGlare(img, h, w, std, DefaultConfig);
  }

  /** Raising the adaptive multiplier never increases the count: the glare
      mask does not depend on it and the adaptive threshold only rises. */
  lemma AdaptiveMultiplierMonotone(img: Grid<Pixel>, h: nat, w: nat, std: real, cfg: Config, k: real)
    requires IsShape(img, h, w) && 2 <= h && 2 <= w
    requires 0.0 <= std && cfg.adaptiveStdMultiplier <= k
    ensures GridCount(Classify(img, h, w, std, cfg.(adaptiveStdMultiplier := k)).bacteria)
            <= GridCount(Classify(img, h, w, std, cfg).bacteria)
  {
    var cfg' := cfg.(adaptiveStdMultiplier := k);
    var lo := Classify(img, h, w, std, cfg);
    var hi := Classify(img, h, w, std, cfg');
    assert hi.gray == lo.gray && hi.mean == lo.mean && hi.saturation == lo.saturation && hi.contrast == lo.contrast;
    GlareIgnoresAdaptiveMultiplier(lo.mean, std, cfg, k);
    AdaptiveThresholdRises(lo.mean, std, cfg, k);
    BacteriaMaskShrinks(lo.gray, lo.glare, h, w, AdaptiveThreshold(lo.mean, std, cfg), AdaptiveThreshold(lo.mean, std, cfg'));
    GridCountMonotone(hi.bacteria, lo.bacteria);
  }
}
