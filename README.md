# Illustration-or-photo classifier: a verified model of its scoring core

`identifiesImage.py` labels one image "illust" (flat colour, line art) or
"picture" (photograph). It uses three numbers:

- two **edge-loss ratios**. Each one compares the raw Canny edge map with an
  edge map taken after smoothing, once after a Gaussian blur and once after
  a median blur (`cal_diff`);
- a **dominant-colour fraction** (`get_color`). This is the largest count in
  a histogram of exact pixel values, divided by the number of rows;
- a **score** built from these three (`cal_score`, scaled by 0.625 in
  `identifies_img`). The image is labelled "illust" only when the score is
  strictly greater than 0.5.

This Dafny project models those three pieces over their inputs: the three
edge maps and the decoded pixel buffer. It proves what they compute. The
modules follow the pipeline:

- `Outcomes` (`outcomes.dfy`): the `Result` type for the one error path.
- `ColorDominance` (`color.dfy`): `get_color`. The dictionary is a
  `map<Pixel, int>`. The nested loops update it in `BuildHistogram` and
  `ScanRow`, and the method is proved equal to the function `Histogram`. The
  loop over the dictionary's values is `MaxValue`. `max()` of an empty value
  list raises, so `GetColor` returns `Err(EmptyHistogram)` for a buffer with
  no pixel.
- `EdgeLoss` (`edges.dfy`): `cal_diff`. The maps are `seq<seq<Byte>>`, with
  `Byte` ranging over 0..255. The two summing loops are `SumEntries` and
  `AddRow`, and `mat - c_mat` is the element-wise subtraction `ByteSub`,
  which wraps modulo 256. The ratio uses exact reals.
- `Scoring` (`score.dfy`): `cal_score`, the 0.625 scaling, the strict
  threshold and `identifies_img`.

The code keeps some quirks, and the model keeps them too:

- A colour's first occurrence is stored as 0, so each stored count is its
  number of occurrences minus one.
- The fraction is divided by the number of rows.
- `cal_diff` and `cal_score` have no guard against a zero divisor.
- The threshold is strict.

So a uniform R×C buffer gives (R·C − 1)/R, not C (`UniformBuffer`). A
score of exactly 0.5 gives "picture" (`BoundaryIsPicture`). A zero sum of
ratios is outside the domain of `cal_score`, and it happens exactly when both
smoothed maps equal the raw one (`UnchangedEdgesDivideByZero`).

## Model

| member | source | states |
|---|---|---|
| `ColorDominance.Record` | identifiesImage.py:43-46 | A colour already in the dictionary gets its count plus one. A new colour is stored with 0. All other keys are unchanged. |
| `ColorDominance.Histogram` | identifiesImage.py:39-46 | The dictionary is empty exactly when the scan meets no pixel. |
| `ColorDominance.HistogramSnoc` | identifiesImage.py:41-46 | Scanning one more pixel records it in the dictionary built so far. |
| `ColorDominance.ScanRow` | identifiesImage.py:41-46 | Given the dictionary for the pixels before a row, the inner loop gives the dictionary for those pixels followed by the row. |
| `ColorDominance.BuildHistogram` | identifiesImage.py:39-46 | After the nested loops, the dictionary is the histogram of all pixels in row-major order. |
| `ColorDominance.HistogramCounts` | identifiesImage.py:39-46 | The keys are exactly the distinct colours of the buffer. Each stored count is that colour's number of occurrences minus one. |
| `ColorDominance.SumRecord` | identifiesImage.py:43-46 | Recording a known colour adds one to the sum of the stored counts. Recording a new colour adds nothing. |
| `ColorDominance.HistogramSum` | identifiesImage.py:40-46 | The stored counts add up to the number of pixels minus the number of distinct colours. |
| `ColorDominance.MaxStored` | identifiesImage.py:48 | For a non-empty dictionary, the maximum is one of the stored values and no stored value is larger. |
| `ColorDominance.MaxValue` | identifiesImage.py:48 | The loop computing `max` over the values returns a stored value that no value exceeds. |
| `ColorDominance.MaxStoredIsLargestCount` | identifiesImage.py:39-48 | The maximum stored count belongs to a colour of the buffer. It is that colour's occurrences minus one, and no colour occurs more often. |
| `ColorDominance.GetColor` | identifiesImage.py:29-51 | The result equals `ColorResult`: an error when the buffer has no pixel, otherwise the maximum stored count divided by the number of rows. |
| `ColorDominance.ColorResultMeaning` | identifiesImage.py:48 | A buffer without pixels fails. Otherwise there is a most frequent colour p, and the result is (occurrences of p − 1) / rows. |
| `ColorDominance.UniformBuffer` | identifiesImage.py:48 | An R×C buffer of one colour gives (R·C − 1)/R, not C. |
| `ColorDominance.AllDistinct` | identifiesImage.py:48 | A buffer whose pixels are pairwise distinct gives 0. |
| `EdgeLoss.RowSum` | identifiesImage.py:64-65 | A row of bytes sums to a value between 0 and 255 × its length. |
| `EdgeLoss.Sum` | identifiesImage.py:62-65 | A map of bytes has a non-negative sum. |
| `EdgeLoss.AddRow` | identifiesImage.py:64-65 | The inner loop adds the row's samples to the running total. |
| `EdgeLoss.SumEntries` | identifiesImage.py:62-65 | The nested loops return the sum of every sample of the map. The same loops are used for `sum_diff`. |
| `EdgeLoss.ByteSub` | identifiesImage.py:67 | uint8 subtraction gives a − b when a ≥ b and a − b + 256 when it wraps, so 0 − 255 = 1. |
| `EdgeLoss.Diff` | identifiesImage.py:67 | `mat - c_mat` has the shape of `mat`, and each cell is the uint8 subtraction `ByteSub` of the two samples. Its properties are `BinaryCell`, `SubtractZero` and `KeptEdgesBoundRatio`. |
| `EdgeLoss.CalDiff` | identifiesImage.py:53-75 | The result is (sum of `mat - c_mat`)/255 divided by (sum of `mat`)/255. It requires a non-zero sum of `mat` because there is no guard. |
| `EdgeLoss.LossRatioNonnegative` | identifiesImage.py:67-73 | The ratio is never negative. |
| `EdgeLoss.BinaryCell` | identifiesImage.py:67 | For 0/255 samples, a difference cell is 255 when the edge is only in `mat`, 1 when it is only in `c_mat`, and 0 otherwise. |
| `EdgeLoss.BinarySumCountsEdges` | identifiesImage.py:62-66 | For an edge map, `sum_mat` after the division by 255 is exactly the number of edges. |
| `EdgeLoss.BinaryDiffSum` | identifiesImage.py:67-71 | For two edge maps, the summed difference is 255 per edge lost by smoothing plus 1 per edge that only the smoothed map has. |
| `EdgeLoss.BinaryLossRatio` | identifiesImage.py:62-73 | For two edge maps, the ratio is (lost edges + gained edges / 255) / raw edges. |
| `EdgeLoss.UnchangedLosesNothing` | identifiesImage.py:67-73 | If `c_mat == mat`, the ratio is 0. |
| `EdgeLoss.SubtractZero` | identifiesImage.py:67 | Subtracting an all-zero map leaves the map unchanged. |
| `EdgeLoss.BlankLosesEverything` | identifiesImage.py:67-73 | If `c_mat` is all zeros, the ratio is 1. |
| `EdgeLoss.KeptEdgesBoundRatio` | identifiesImage.py:67-73 | If every edge of `c_mat` is an edge of `mat`, no cell wraps (each difference cell is `mat − c_mat`) and the ratio lies in [0, 1]. |
| `EdgeLoss.NoLossIffUnchanged` | identifiesImage.py:67-73 | The ratio is 0 if and only if `c_mat == mat`. |
| `EdgeLoss.ZeroSumAllZero` | identifiesImage.py:62-71 | A map sums to 0 if and only if every sample is 0. |
| `Scoring.CalScore` | identifiesImage.py:77-80 | (1/(g + m))·0.8 + (c/100)·0.2, positive for a positive ratio sum and a non-negative colour fraction. It requires g + m ≠ 0 because there is no guard. Its properties are `ScoreClosedForm`, `ScoreMonotoneInColor` and `ScoreAntitoneInEdgeLoss`. |
| `Scoring.Score` | identifiesImage.py:88 | `cal_score` scaled by 0.625, which shrinks a positive score and keeps it positive. |
| `Scoring.Decide` | identifiesImage.py:90-93 | The label is "picture" exactly when the score is at most 0.5, because the comparison is strict. See `IllustIff` and `BoundaryIsPicture`. |
| `Scoring.ScoreClosedForm` | identifiesImage.py:77-88 | The scaled score is 0.5/(g + m) + c/800. |
| `Scoring.IllustIff` | identifiesImage.py:77-93 | The label is "illust" if and only if 1/(g + m) + c/400 > 1. |
| `Scoring.BoundaryIsPicture` | identifiesImage.py:88-93 | Ratios 0.5 and 0.5 with colour fraction 0 give a score of exactly 0.5, which is labelled "picture" because the comparison is strict. |
| `Scoring.ScoreMonotoneInColor` | identifiesImage.py:77-80 | A larger colour fraction never lowers the score. |
| `Scoring.ScoreAntitoneInEdgeLoss` | identifiesImage.py:77-80 | A larger positive sum of ratios never raises the score. |
| `Scoring.IllustPreserved` | identifiesImage.py:88-93 | An "illust" image stays "illust" when its ratio sum drops (staying positive) and its colour fraction rises. |
| `Scoring.UnchangedEdgesDivideByZero` | identifiesImage.py:67-80 | The ratio sum, the divisor `cal_score` does not guard, is 0 if and only if both smoothed maps equal the raw map. |
| `Scoring.IdentifiesImg` | identifiesImage.py:83-93 | The label equals `Classify`: the colour error passed through, or the strict threshold applied to the scaled score of the two ratios and the colour fraction. |
| `Scoring.CompleteEdgeLoss` | identifiesImage.py:83-93 | If both smoothing steps remove every edge, the ratio sum is 2, and the image is "illust" exactly when its colour fraction exceeds 200. |

## Left out

- `create_canny_img` (lines 6-27): it consists of OpenCV calls (`imread`, `Canny`, `GaussianBlur`, `medianBlur`). The three edge maps are inputs of `IdentifiesImg`.
- Image loading in `get_color` (line 37): `GetColor` receives the decoded buffer. The model does not tie the buffer to the edge maps, although both come from the same file.
- Single-channel buffers in `get_color`: there `tuple(at)` at line 42 raises on a scalar pixel. The model's pixels are always channel tuples.
- All console output (lines 49, 79, 89 and the batch loop), the unused `matplotlib` import, and the `__main__` batch over two directories with its accuracy printout (lines 95-119). These are I/O.
- Floating point: every division, the weights and the threshold are exact reals. Values that IEEE rounding would put on the other side of 0.5 are not modelled.
- NumPy scalar promotion of the accumulators: `sum_mat` and `sum_diff` are unbounded integers. Only the array-level uint8 wrap of `mat - c_mat` is kept.
- `CalDiff`: it requires a raw map with a non-zero sum. When the raw map has samples but no edge, NumPy gives `nan` when neither map has an edge and `inf` when only `c_mat` has edges, instead of raising; a map without samples keeps the accumulators as Python numbers and raises `ZeroDivisionError`. None of these outcomes is modelled.
- `CalScore`: it requires a non-zero sum of ratios. NumPy would give `inf` there, and the source would label the image "illust"; that path is not modelled. `Score`, `Classify` and `IdentifiesImg` carry the same requirement.
