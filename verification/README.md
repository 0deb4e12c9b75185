# Point operators: the lookup-table engine and histogram equalisation

This project models the lookup-table (LUT) engine of an 8-bit image toolkit.
Point operators map each sample of an image through a 256-entry table, so
each output sample depends only on the input sample at the same position.
The model covers:

- `apply_lut`, which checks the table and the element types, copies the image
  into a flat buffer, rewrites each sample `v` to `lut[v]` in a loop, and
  gives the buffer the input's shape back;
- the integer table builders `adjust_brightness` and `adjust_contrast`;
- the histogram-equalisation mapping that `read_image` computes inline. It
  totals the histogram, forms the probability mass and its cumulative sum,
  scales by 255, clamps, casts to bytes, and applies the table with
  `apply_lut`.

Files:

- `numeric.dfy` (module `Numeric`): the clamp to [0, 255] in the order of the
  two `np.where` passes. It also holds the float-to-uint8 cast (truncation,
  which is the floor on non-negative values) and the histogram total `Sum`
  and first moment `Moment`, with their lemmas.
- `image_model.dfy` (module `ImageModel`): numpy arrays reduced to what the
  operators look at. An `Image` is a shape plus its samples flattened in
  row-major order, with the channel index running fastest. A `Lut` is a
  one-dimensional table. Each carries a `DType` flag: `UInt8` or any other
  type. The module also defines the errors and the Python exception class
  each raises.
- `point_operators.dfy` (module `PointOperators`): `ApplyLut` is a method
  whose loop rewrites a fresh `array` buffer in place. It is proved against
  the reference function `Lookup`. The brightness and contrast builders
  are functions, with lemmas about them.
- `equalize_image.dfy` (module `EqualizeImage`): `CountPixels` is the
  accumulator loop. `Pmf`, `CumSum` and `EqualizationLut` build the table.
  `Equalize` is the equalisation step: total the histogram, build the table,
  apply it.

Modelling choices:

- Images and tables are values. `apply_lut` never changes its input, because
  it works on a copy; here the input is a value and the copy is a fresh
  array.
- An image array is assumed well formed: its samples fill its shape, and a
  uint8 array holds only bytes. numpy guarantees both.
- Floating-point values (`scale`, the pmf and the cdf) are exact `real`s.
- At the error edges the model follows what the code does:
  - `adjust_contrast` with a zero histogram total evaluates `0/0`, which is
    NaN. `int()` of NaN raises `ValueError`, so the model returns
    `Err(NaNBrightness)`, whose class is `ValueError`.
  - `apply_lut` on an array that is neither 2-D nor 3-D still runs the loop,
    and then fails to unpack the shape. That is a `ValueError`, modelled as
    `Err(ShapeNotUnpackable)`.
  - Equalisation checks neither the histogram length nor a zero total. The
    histogram collaborator always yields 256 bins, so `Equalize` requires
    that. A zero total is discussed under "Left out".

## Model

| member | source | states |
|---|---|---|
| `Numeric.ClampByte` | assignment/point_operators.py:63-65 | the result is a byte; a value already in [0, 255] is kept, one above saturates to 255 and one below to 0 |
| `Numeric.ClampReal` | assignment/point_operators.py:98-99 | the same saturation on exact reals: the result lies in [0, 255], and values already in range are kept |
| `Numeric.Truncate` | assignment/point_operators.py:101 | the uint8 cast of a value already clamped to [0, 255] is a byte, the largest integer not above the value |
| `Numeric.Sum` | equalize_image.py:30-32 | reference definition of the histogram total (also `np.sum(hist)` at assignment/point_operators.py line 95); what it means is stated by the `Sum…` lemma rows below and by `CountPixels` |
| `Numeric.Moment` | assignment/point_operators.py:95 | reference definition of the first moment, the sum of i·hist[i]; what it means is stated by `MomentBound`, `OnesSumAndMoment` and `MeanBrightness` |
| `Numeric.SumPrefixStep` | equalize_image.py:30-31 | adding bin k to the total of bins 0..k-1 gives the total of bins 0..k, which is one step of the accumulation loop |
| `Numeric.SumPrefixMonotone` | equalize_image.py:30-31 | with non-negative counts a longer prefix never has a smaller total |
| `Numeric.SumZeroPrefix` | equalize_image.py:30-31 | a prefix of empty bins totals zero |
| `Numeric.SumZeroTail` | equalize_image.py:30-31 | when every bin from k on is empty, the bins below k already hold the whole total |
| `Numeric.OnesSumAndMoment` | assignment/point_operators.py:95 | one count in each of n bins gives total n and first moment n(n-1)/2 |
| `Numeric.MomentBound` | assignment/point_operators.py:95 | the first moment of a histogram is at most (length - 1) times its total |
| `ImageModel.Error.Raised` | assignment/point_operators.py:30-46 | only the element-type failure raises `TypeError`; the LUT length, shape-unpacking, contrast-argument and NaN failures raise `ValueError` |
| `PointOperators.Lookup` | assignment/point_operators.py:36-37 | looking up every sample keeps the number of samples |
| `PointOperators.LookupAt` | assignment/point_operators.py:36-37 | the output sample at every position p is `lut[input[p]]` |
| `PointOperators.LookupDrop` | assignment/point_operators.py:36-37 | dropping samples commutes with the lookup, so no output depends on neighbouring samples |
| `PointOperators.LookupIdentity` | assignment/point_operators.py:36-37 | a table mapping every intensity to itself leaves the samples unchanged |
| `PointOperators.LookupConstant` | assignment/point_operators.py:36-37 | a table with one value everywhere maps every sample to that value |
| `PointOperators.LookupPerChannel` | assignment/point_operators.py:7-9 | on interleaved colour samples, channel c of the output is the same table applied to channel c of the input alone |
| `PointOperators.ApplyLut` | assignment/point_operators.py:4-46 | a table without 256 entries gives `ValueError` whatever the image holds. Otherwise a table or image that is not uint8 gives `TypeError`, and a shape that is neither 2-D nor 3-D gives `ValueError`. On success the shape is kept, the result is uint8, and every sample p is `lut[img[p]]` |
| `PointOperators.AdjustBrightness` | assignment/point_operators.py:49-67 | a 256-entry uint8 table whose entry i is i + offset when that is a byte, 255 above the range and 0 below it |
| `PointOperators.BrightnessZeroIsIdentity` | assignment/point_operators.py:63-67 | the table for offset 0 leaves every 8-bit image unchanged |
| `PointOperators.BrightnessSaturates` | assignment/point_operators.py:63-67 | with offset >= 255 every output sample is 255, and with offset <= -255 every output sample is 0 |
| `PointOperators.MeanBrightness` | assignment/point_operators.py:95 | the mean brightness is the truncated quotient of the first moment by the total, so b·total <= moment < (b+1)·total. It lies in [0, 255] for a 256-bin histogram with a positive total |
| `PointOperators.ContrastRaw` | assignment/point_operators.py:97 | the raw contrast value: its distance from the mean brightness b is the distance of i from b times `scale` |
| `PointOperators.AdjustContrast` | assignment/point_operators.py:70-101 | a wrong histogram length or a negative scale gives `ValueError`, and so does a zero total. Otherwise the table has 256 uint8 entries, and entry i is floor(scale·i + (1 - scale)·b) when that lies in [0, 255], 255 above and 0 below |
| `PointOperators.ContrastUnitScaleIsIdentity` | assignment/point_operators.py:97-101 | scale 1 gives the identity table for every histogram |
| `PointOperators.ContrastZeroScaleFlattens` | assignment/point_operators.py:97-101 | scale 0 maps every intensity to the mean brightness |
| `PointOperators.ContrastFixesMean` | assignment/point_operators.py:71 | the mean brightness b is a fixed point of the table at every scale. The docstring's "without affecting brightness" holds only in this pivot sense: clamping can move the output image's mean |
| `PointOperators.ContrastMonotone` | assignment/point_operators.py:97-101 | a non-negative scale gives a non-decreasing table |
| `PointOperators.ContrastUniformExample` | assignment/point_operators.py:95-101 | one count per bin gives mean brightness 127 (127.5 truncated), and scale 2 gives entry i = clamp(2i - 127, 0, 255) |
| `EqualizeImage.CountPixels` | equalize_image.py:30-32 | after the accumulation loop, `pixels` is the sum of all 256 histogram counts |
| `EqualizeImage.Pmf` | equalize_image.py:34 | one mass per bin, each non-negative, with mass times pixel count equal to the bin's count |
| `EqualizeImage.CumSum` | equalize_image.py:35 | one cumulative value per entry, the last of which is the total of all entries |
| `EqualizeImage.EqualizationLut` | equalize_image.py:34-40 | the equalisation table has 256 entries, all bytes, of type uint8 |
| `EqualizeImage.CumSumIsRunningSum` | equalize_image.py:35 | the cumulative sum starts at the first mass and adds one mass per intensity |
| `EqualizeImage.PmfPrefixSum` | equalize_image.py:34-35 | the masses of intensities below k total the counts below k over the pixel count |
| `EqualizeImage.CdfExact` | equalize_image.py:34-35 | the cdf at i is (h[0] + … + h[i]) / pixels |
| `EqualizeImage.CdfMonotone` | equalize_image.py:34-35 | with non-negative counts the cdf is non-decreasing |
| `EqualizeImage.CdfEndsAtOne` | equalize_image.py:30-35 | with the true pixel count the cdf ends at exactly 1 |
| `EqualizeImage.EqualizationExact` | equalize_image.py:34-40 | entry i of the table is floor(255·(h[0] + … + h[i]) / total); the clamps never fire |
| `EqualizeImage.EqualizationMonotone` | equalize_image.py:34-40 | i <= j implies lut[i] <= lut[j] |
| `EqualizeImage.EqualizationZeroBelowFirst` | equalize_image.py:34-40 | intensities at or below which every bin is empty map to 0 |
| `EqualizeImage.EqualizationFullFromLast` | equalize_image.py:30-40 | intensities at or above the last non-empty bin map to 255 |
| `EqualizeImage.EqualizationStepExample` | equalize_image.py:30-40 | 100 pixels all at 128 give a step table: 0 below 128 and 255 from 128 on |
| `EqualizeImage.Equalize` | equalize_image.py:30-42 | the equalised image is `apply_lut` of the image with the equalisation table. It keeps the shape, each pixel p is `lut[img[p]]`, and pixels keep their brightness order. A zero total is reported as an error |

## Left out

- `adjust_exposure` (assignment/point_operators.py:104-126) and
  `log_transform` (assignment/point_operators.py:129-137) are not modelled.
  Their tables come from floating-point `**` and `log10` followed by a byte
  cast, which exact arithmetic cannot reproduce.
- Floating-point rounding is idealised: `scale`, the pmf, the cdf and the
  contrast mapping use exact reals. In floats the mean-brightness quotient
  can round across an integer, and the float `cdf[255]` can fall slightly
  below 1. Any entry where 255·cdf is exactly an integer can come out one
  lower than the value `EqualizationExact` states (for example, with counts 7
  and 1 out of 10, the float 0.7 + 0.1 is just below 0.8, giving 203 instead
  of 204).
- Equalize: a zero total is reported as `Err(EmptyHistogram)`. The code
  instead divides by zero, producing NaN, and casts NaN to uint8, which numpy
  leaves platform-defined.
- numpy's integer width: `np.arange(256) + offset` is int64, so offsets
  beyond about ±9.2·10^18 overflow or are refused by numpy. The model uses
  unbounded integers.
- Element types other than "uint8 or not" are a single flag. A table that is
  not one-dimensional (a 16×16 array has size 256) is not modelled; the
  table is always a flat sequence.
- The histogram collaborator `assignment.analysis.histogram` is not part of
  this model. Histograms are given as sequences of natural numbers.
- All I/O and presentation are left out: `io.imread`/`io.imsave`, the
  `as_gray` conversion, plotting, argument parsing and `main`
  (equalize_image.py:10-28, 44-71). The image `Equalize` receives is taken
  as the 2-D uint8 array that `read_image` obtains.
