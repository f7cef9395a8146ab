# BactiSee pixel classifier — a Dafny model

BactiSee takes a photo of a surface and reports how much of it looks like
bacterial growth. The `analyze` handler in `api/index.py` works in three steps:

1. It turns the decoded RGB image into BT.601 luminance.
2. It marks a pixel as "bacteria" when it is strictly brighter than the
   adaptive threshold `mean + 0.8·std`, unless it is glare. Glare is a pixel
   that is very bright (above `mean + 1.5·std`), nearly colourless
   (channel spread below 20) and flat (edge-padded neighbour contrast below 10).
3. It reports the count, the share of counted pixels as a percentage rounded
   to two decimals, and a Safe / Warning / Danger label. The label is taken
   from the unrounded share, with strict cut-offs at 2 % and 6 %.

The handler is pure array code with no state. The model is therefore made of
datatypes, functions and lemmas:

- `Grids` holds H×W grids, sums and counts of true cells.
- `Pixels` holds channels, pixels, luminance and saturation.
- `Classifier` holds the statistics, contrast, masks and the whole-classifier
  function `Classify`.
- `Assessor` holds the percentage, the label, the rounding and the report.
- `Analysis` holds `Analyze`, from a decoded image to a report or an error,
  and the end-to-end properties.

Numbers are exact reals. The image's standard deviation is an input of
`Analyze`, tied to the image by `IsStdDev`: a non-negative `std` whose square
is the population variance. The four tuning constants are a `Config` value,
and `DefaultConfig` holds the source's values 0.8, 1.5, 20 and 10.

An image with fewer than two rows or two columns is an error
(`EdgePadOfEmptyAxis`). One neighbour-difference array is then empty, and
numpy refuses to edge-pad an empty axis, so the handler's `except` branch
answers with an error. 1×1 and 1×N images therefore get the error response,
not an assessment.

## Model

| member | source | states |
|---|---|---|
| Pixels.Luminance | api/index.py:37 | the luminance lies between the darkest and brightest channel, hence in [0, 255]; a grey pixel keeps its channel value |
| Pixels.Saturation | api/index.py:46 | max − min of the channels is at most 255, is zero exactly for grey pixels, and is the largest absolute pairwise channel difference |
| Classifier.LumaGrid | api/index.py:37 | the luminance grid has the image's shape, and each cell is that pixel's luminance, within [0, 255] |
| Classifier.SaturationGrid | api/index.py:46 | the saturation grid has the image's shape, and each cell is that pixel's saturation, at most 255 |
| Classifier.DefaultConfigOrdered | api/index.py:12-17 | the default configuration has multipliers 0 ≤ 0.8 ≤ 1.5, saturation limit 20 and contrast limit 10 |
| Classifier.Mean | api/index.py:41 | the mean times the number of cells H·W is the sum of the cells |
| Classifier.AdaptiveThreshold | api/index.py:43 | defined as mean + multiplier · std; its properties are the rows ThresholdMonotone, ThresholdsAtZeroDeviation and AdaptiveThresholdRises |
| Classifier.GlareThreshold | api/index.py:54 | defined as mean + glare multiplier · std; its properties are the rows ThresholdMonotone, ThresholdsAtZeroDeviation and GlareCutAboveThreshold |
| Classifier.ThresholdsAtZeroDeviation | api/index.py:43-54 | with zero deviation, both the adaptive threshold and the glare cut-off are the mean |
| Classifier.Variance | api/index.py:42 | the population variance is never negative, so a real standard deviation exists |
| Classifier.MeanBetween | api/index.py:41 | the mean lies between any lower and upper bound of all cells |
| Classifier.UniformStatistics | api/index.py:41-42 | a grid of one value has that value as mean and zero variance |
| Classifier.HorizontalDiffs | api/index.py:47 | the horizontal differences form H×(W−1) absolute differences of right neighbours |
| Classifier.VerticalDiffs | api/index.py:48 | the vertical differences form (H−1)×W absolute differences of lower neighbours |
| Classifier.EdgePadRight | api/index.py:49 | edge padding adds one column, and a cell past the end reads the last column |
| Classifier.EdgePadBottom | api/index.py:50 | edge padding adds one row, which repeats the last row |
| Classifier.PaddedHorizontalDiffs | api/index.py:47-49 | after padding on the right, each cell holds the difference at the nearest column that has a right neighbour |
| Classifier.PaddedVerticalDiffs | api/index.py:48-50 | after padding at the bottom, each cell holds the difference at the nearest row that has a lower neighbour |
| Classifier.AddGrids | api/index.py:51 | the sum of two H×W grids is H×W, and each cell is the sum of the two cells |
| Classifier.Contrast | api/index.py:47-51 | contrast has the image's shape, equals the horizontal plus the vertical neighbour difference with the last column and row clamped to the one before, and is never negative |
| Classifier.GlareMask | api/index.py:53-57 | a cell is glare exactly when it is brighter than the glare cut-off, its saturation is below the saturation limit and its contrast is below the contrast limit |
| Classifier.BrightMask | api/index.py:59 | a cell is bright exactly when its luminance is strictly above the threshold |
| Classifier.BacteriaMask | api/index.py:59 | a cell is counted exactly when it is bright and not glare; the mask lies inside the bright mask and is disjoint from glare |
| Classifier.Classify | api/index.py:36-59 | every stage has the image's shape, and the counted pixels are a subset of the bright pixels |
| Classifier.ClassifyCells | api/index.py:37-59 | for any configuration, cell by cell: gray is the pixel's luminance; glare is luminance > mean + (glare multiplier)·std, saturation < the saturation limit and contrast < the contrast limit; a pixel is counted iff its luminance > mean + (adaptive multiplier)·std and it is not glare (with the defaults: 1.5, 20, 10 and 0.8) |
| Classifier.BacteriaCountBound | api/index.py:59-60 | the count is at most the number of bright pixels, which is at most H·W |
| Classifier.ThresholdMonotone | api/index.py:43 | with std ≥ 0, a larger multiplier gives a threshold at least as high |
| Classifier.GlareCutAboveThreshold | api/index.py:43-54 | with std ≥ 0 and the adaptive multiplier at most the glare multiplier (0.8 ≤ 1.5 by default), the glare cut-off is at or above the adaptive threshold |
| Classifier.AdaptiveThresholdRises | api/index.py:43 | raising the adaptive multiplier raises the adaptive threshold |
| Classifier.GlareIgnoresAdaptiveMultiplier | api/index.py:53-57 | the glare cut-off does not depend on the adaptive multiplier |
| Classifier.BacteriaMaskShrinks | api/index.py:59 | a higher brightness threshold only removes cells from the counted mask |
| Classifier.BrightSplits | api/index.py:53-59 | when the glare cut-off is at or above the brightness threshold, glare lies inside the bright mask and bright = counted + glare, as counts |
| Classifier.BacteriaAreBrightMinusGlare | api/index.py:43-59 | for any configuration whose adaptive multiplier is at most its glare multiplier, and std ≥ 0, the counted pixels are exactly the bright pixels minus the glare pixels: count(bacteria) + count(glare) = count(bright) |
| Classifier.DefaultBacteriaAreBrightMinusGlare | api/index.py:12-59 | with the default configuration and std ≥ 0: count(bacteria) + count(glare) = count(bright) |
| Classifier.AdaptiveMultiplierMonotone | api/index.py:12-59 | raising the adaptive multiplier never increases the count |
| Grids.RowCount | api/index.py:60 | a row's count is at most its length; it is zero iff no cell is set and equals the length iff every cell is set |
| Grids.GridCount | api/index.py:60 | a mask's count is zero exactly when no cell is set |
| Grids.GridCountBound | api/index.py:60-64 | an H×W mask has at most H·W set cells |
| Grids.GridCountMonotone | api/index.py:59-60 | removing cells from a mask never raises its count |
| Grids.GridCountSplit | api/index.py:59-60 | when each cell of a mask is set in exactly one of two masks, the counts add up |
| Grids.GridSumAtLeast | api/index.py:41 | H·W cells each at least lo sum to at least H·W·lo |
| Grids.GridSumAtMost | api/index.py:41 | H·W cells each at most hi sum to at most H·W·hi |
| Assessor.Percent | api/index.py:64-65 | percent × total = 100 × count; it lies in [0, 100] when count ≤ total, and is zero exactly when nothing is counted |
| Assessor.Status | api/index.py:69-73 | Danger iff percent > 6; Warning iff 2 < percent ≤ 6; Safe iff percent ≤ 2 |
| Assessor.StatusMonotone | api/index.py:69-73 | a higher percentage never gives a milder label |
| Assessor.StatusBoundaries | api/index.py:70-73 | the cut-offs are strict: exactly 2 % is Safe and exactly 6 % is Warning |
| Assessor.StatusOfCount | api/index.py:64-73 | the label in whole numbers: Danger iff 100·count > 6·total, Warning iff 2·total < 100·count ≤ 6·total, Safe iff 100·count ≤ 2·total |
| Assessor.RoundHalfEven | api/index.py:78 | rounding is within one half of the input, keeps integers and sends ties to the even neighbour |
| Assessor.Round2 | api/index.py:78 | rounding to two decimals moves a value by at most 0.005, keeps [0, 100] and keeps 0 |
| Assessor.RoundedPercentageCanHideLabel | api/index.py:65-78 | 501 of 25000 pixels is 2.004 %, reported as 2.0 but labelled Warning, while the rounded figure alone would be Safe |
| Assessor.Assess | api/index.py:62-80 | the report carries the count and a percentage within 0.005 of the exact share and in [0, 100]; its label is the whole-number condition on the count |
| Assessor.AssessNothing | api/index.py:65-78 | nothing counted reports 0 %, Safe |
| Analysis.Analyze | api/index.py:33-82 | fails exactly when the image has fewer than two rows or columns; otherwise reports the classifier's count, which is at most H·W, assessed against H·W pixels |
| Analysis.NothingAboveUniform | api/index.py:59 | nothing in a grid of one value is strictly above that value |
| Analysis.UniformImageHasNoDeviation | api/index.py:41-42 | a uniformly coloured image has the pixel's luminance as mean and standard deviation 0 |
| Analysis.NoSpreadNoDeviation | api/index.py:42 | a non-negative standard deviation of zero variance is zero |
| Analysis.UniformImageCountsNothing | api/index.py:43-60 | with zero deviation, no pixel of a uniformly coloured image is counted, whatever the configuration |
| Analysis.UniformImageIsSafe | api/index.py:41-79 | a uniformly coloured image of at least 2×2 has std 0 and is reported as 0 counted, 0 %, Safe |
| Analysis.AnalyzeMonotoneInMultiplier | api/index.py:12-60 | raising the adaptive multiplier never raises the reported count |

## Left out

- The Flask route, CORS, reading the upload and the 400 answer for a missing `image` field (`api/index.py:19-30`) are HTTP plumbing; `Analyze` starts from a decoded image.
- PIL decoding and RGB conversion (`api/index.py:33`) are a foreign library; the image is given as a rectangular grid of 8-bit channels.
- float32 arithmetic: every quantity is an exact real, so differences that float32 rounding could cause right at a threshold are not modelled.
- Analysis.UniformImageIsSafe: holds for exact arithmetic. In float32 the mean of identical values need not equal that value, so the computed std may be slightly above zero and the threshold may fall just below every pixel; that case is not modelled.
- The square root: `std` is a parameter constrained by `IsStdDev` rather than computed.
- Classifier.Mean: for an empty grid it is defined as 0, where numpy gives NaN; `Analyze` never reaches that case, because it rejects such images first.
- Assessor.Round2: Python's `round` works on the binary float value, so a decimal tie may not be rounded to even; the model rounds the exact real half-to-even, and its contract states only the 0.005 bound.
- The JSON body, the `"status": "success"` field and the text of the exception message in the 500 answer are not modelled. The only failure modelled is the degenerate-shape error.
- The local development runner (`api/index.py:85-88`) and the browser script `public/script.js` are not part of this model.
