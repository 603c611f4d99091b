# Marker detection: the integer and combinatorial stages of `lib/vision.ts`

This project models the stages of the browser-side marker detector that work
on explicit pixel buffers, and proves what each stage computes:

- **Grayscale** (`toGray`): an RGBA byte buffer becomes one intensity byte per
  pixel, `0.299 R + 0.587 G + 0.114 B` truncated toward zero.
- **Threshold** (`otsu`): a 256-bin histogram and a scan for the threshold of
  largest between-class variance (Otsu's method). The earliest threshold wins
  ties, and the result is 0 when no threshold splits the image.
- **Binarize** (`binarize`): intensities become a 0/1 mask. The polarity flag
  picks "dark is foreground" (`<= th`) or "light is foreground" (`> th`).
- **Labeling, UnionFind, ComponentStats and Grid** (`ccl`): connected-component
  labelling with 4-connectivity. A raster pass reads the north and west
  neighbours, hands out provisional labels from 2 upward, and joins labels in a
  union-find forest with path halving. A resolution pass then replaces every
  label by its root and gathers, per root, the area, the bounding box and the
  coordinate sums, in order of first appearance.
- **Quad** (`orderQuad`): the corners top-left, top-right, bottom-right and
  bottom-left, taken as the first points of least or greatest `x + y` and `x - y`.
- **Polygon** (`polygonArea`): the shoelace area.
- **Warp** (the sampling loop of `warpProjective`): every destination pixel
  takes the RGB of the source pixel its projection rounds to, or white when
  that pixel lies outside the source, and is made opaque. The projection is a
  parameter `sample` mapping a destination pixel `(x, y)` to the rounded source
  coordinate `(xi, yi)`.

Layout: `pixels.dfy` (the `Byte` type and counting), `geometry.dfy` (the
plane `Point` shared by `quad.dfy` and `polygon.dfy`), `grayscale.dfy`,
`threshold.dfy`, `binarize.dfy`, `union_find.dfy` (class `Forest`: the growing
`parent` table, with ghost roots and ranks), `grid.dfy` (adjacency, chains of
touching pixels, connectivity), `component_stats.dfy` (the resolution pass
stated as a function over the final label map), `labeling.dfy` (the two passes
over an `array`), `quad.dfy`, `polygon.dfy` and `warp.dfy`.

The source's loops stay loops. Each method that fills a fresh typed array
allocates a local Dafny array, fills it and returns its contents as a sequence.
The `ccl` label buffer and the union-find table are updated in place.

## Model

| member | source | states |
|---|---|---|
| Grayscale.Luma | lib/vision.ts:9 | the intensity of one pixel is the largest integer v with `1000 v <= 299 R + 587 G + 114 B` |
| Grayscale.ToGray | lib/vision.ts:4-12 | the output has one entry per whole pixel (a quarter of the input length, rounded down); entry j is the truncated luma of bytes 4j, 4j+1 and 4j+2; a trailing partial pixel yields nothing |
| Grayscale.GrayIsLocal | lib/vision.ts:8-10 | entry j depends only on bytes 4j..4j+2: two buffers that agree there give the same entry, whatever their alpha bytes and other pixels |
| Grayscale.LumaOfGray | lib/vision.ts:9 | a pixel with R = G = B keeps its value, because the weights sum to one |
| Grayscale.LumaWithinChannels | lib/vision.ts:9 | the intensity lies between the darkest channel minus one and the brightest channel |
| Threshold.Histogram | lib/vision.ts:15-16 | 256 bins, and bin v counts the pixels of intensity v |
| Threshold.FillHistogram | lib/vision.ts:15-16 | the increment loop yields exactly the histogram of the buffer |
| Threshold.Otsu | lib/vision.ts:14-33 | the result is 0 when no threshold puts pixels on both sides; otherwise it is the earliest threshold of largest between-class variance |
| Threshold.ScanThresholds | lib/vision.ts:20-31 | the scan that skips while the background is empty, stops once the foreground is, and replaces the best only on a strictly larger variance yields Otsu's threshold |
| Threshold.ClassVariance | lib/vision.ts:27-29 | the variance computed from the two class means equals `(sumB * wF - sumF * wB)^2 / (wB * wF)`, a form with one division |
| Threshold.SpreadClosedForm | lib/vision.ts:27-29 | `wB * wF * (mB - mF)^2` with `mB = sumB / wB` and `mF = sumF / wF` equals `(sumB * wF - sumF * wB)^2 / (wB * wF)` |
| Threshold.ScanSkip | lib/vision.ts:22-23 | while the background weight is 0 no threshold has split yet, so skipping keeps the scan's state |
| Threshold.ScanStop | lib/vision.ts:24-25 | once the background holds every pixel no later threshold splits, so stopping returns Otsu's threshold |
| Threshold.ScanAdvance | lib/vision.ts:26-30 | at a splitting threshold the variance is positive, and the best is replaced exactly when the variance is strictly larger |
| Threshold.BetweenPositive | lib/vision.ts:27-29 | every threshold with pixels on both sides has a strictly positive between-class variance |
| Threshold.WeightMonotone | lib/vision.ts:22 | the background weight never decreases as the threshold rises |
| Threshold.HistogramTotal | lib/vision.ts:16-17 | the histogram's bins add up to the number of pixels |
| Threshold.SingleIntensityThreshold | lib/vision.ts:20-32 | an empty image, or one with a single intensity, has threshold 0 |
| Threshold.TwoLevelThreshold | lib/vision.ts:20-32 | an image with exactly two intensities a < b has threshold a, the earliest of the equally good splits |
| Binarize.Classify | lib/vision.ts:38-40 | the mask value is 0 or 1, and is 1 exactly when the intensity is at most `th` (inverted) or above `th` (direct) |
| Binarize.Binarize | lib/vision.ts:35-43 | same length as the input, every entry 0 or 1, and an entry is 1 exactly when the intensity is at most `th` (inverted) or above `th` (direct) |
| Binarize.PolaritiesComplement | lib/vision.ts:37-41 | the two polarities give complementary masks |
| Binarize.MaskMonotone | lib/vision.ts:38-40 | raising the threshold only adds foreground under the inverted polarity and only removes it under the direct one |
| UnionFind.Relabel | lib/vision.ts:63 | after root `from` joins root `to`, exactly the nodes whose root was `from` have root `to` |
| UnionFind.HalvingKeepsForest | lib/vision.ts:58 | re-linking a node to its grandparent keeps every root and the forest invariant |
| UnionFind.LinkKeepsForest | lib/vision.ts:63 | linking one root under another keeps the forest invariant |
| UnionFind.Forest.constructor | lib/vision.ts:55 | the table starts with label 0 and the pre-allocated label 1, each its own root |
| UnionFind.Forest.MakeSet | lib/vision.ts:77-78 | the next label joins the table as its own singleton set |
| UnionFind.Forest.Find | lib/vision.ts:57-60 | the result is the root of the argument and is its own parent; path halving changes no node's root |
| UnionFind.Forest.Unite | lib/vision.ts:61-64 | afterwards the two arguments share the first argument's old root; every member of the second's set moves to that root and nothing else moves |
| UnionFind.Forest.Link | lib/vision.ts:63 | the second root's parent becomes the first root, and the second root's members take the first root |
| Grid.RowCol | lib/vision.ts:70-72 | pixel `y * w + x` sits at column x and row y |
| Grid.RowInImage | lib/vision.ts:69-70 | every row of the image lies inside the buffer |
| Grid.AdjacentMeansTouching | lib/vision.ts:74-75 | a pixel is adjacent to the one below it in the same column and to the one to its right in the same row, and to no other |
| Grid.ConnectedRefl | lib/vision.ts:76-79 | every foreground pixel is connected to itself |
| Grid.ConnectedStep | lib/vision.ts:80-87 | touching foreground pixels are connected |
| Grid.ConnectedSym | lib/vision.ts:86 | connectivity is symmetric |
| Grid.ConnectedTrans | lib/vision.ts:86 | connectivity is transitive |
| Labeling.North | lib/vision.ts:74 | 0 in the first row; otherwise the label of the pixel one row above |
| Labeling.West | lib/vision.ts:75 | 0 in the first column; otherwise the label of the pixel to the left |
| Labeling.NeighboursRead | lib/vision.ts:74-75 | the pixels above and to the left, when present, touch the next pixel |
| Labeling.EarlierNeighbour | lib/vision.ts:74-75 | the pixels above and to the left are the only earlier pixels touching the next pixel |
| Labeling.ResolveLabels | lib/vision.ts:92-110 | the loop replaces every label by its root and builds the records of the resolved labels |
| Labeling.StepBackground | lib/vision.ts:73 | a background pixel gets 0 and keeps the raster-pass invariant |
| Labeling.StepFresh | lib/vision.ts:76-79 | a foreground pixel with no labelled neighbour opens a new label and keeps the invariant |
| Labeling.StepCopy | lib/vision.ts:80-83 | a pixel copying its only labelled neighbour's label keeps the invariant |
| Labeling.CopyAgrees | lib/vision.ts:80-83 | after a copy, touching labelled pixels still have labels with one root |
| Labeling.CopyConnects | lib/vision.ts:80-83 | after a copy, pixels whose labels share a root are still connected |
| Labeling.MergeConnects | lib/vision.ts:86 | joining the sets of two connected pixels keeps "same root implies connected" |
| Labeling.StepMerge | lib/vision.ts:84-87 | a pixel with two labelled neighbours takes the upper label, the sets are joined, and the invariant holds |
| Labeling.PixelRuleKeeps | lib/vision.ts:72-87 | the labelling rule for one pixel keeps the raster-pass invariant |
| Labeling.LabelPixel | lib/vision.ts:73-87 | the branch taken on the north and west labels gives the label and the forest change that the labelling rule prescribes |
| Labeling.RasterPixel | lib/vision.ts:72-75 | reading the neighbours, labelling the pixel and storing the label extends the invariant by one pixel |
| Labeling.RasterRow | lib/vision.ts:70-88 | one row of the raster pass extends the invariant by that row |
| Labeling.RasterPass | lib/vision.ts:69-89 | after the raster pass: 0 exactly on background, labels of roots at least 2, touching pixels share a root, and pixels sharing a root are connected |
| Labeling.Resolved | lib/vision.ts:92-96 | one resolved label per pixel |
| Labeling.ResolvedAt | lib/vision.ts:93-96 | a background pixel stays 0, and every other label is replaced by the root of its set |
| Labeling.FinalLabels | lib/vision.ts:92-96 | after resolution: 0 exactly on background, every foreground label at least 2, touching foreground pixels share a label, and two foreground pixels share a label exactly when they are connected |
| Labeling.ResolvePixel | lib/vision.ts:92-96 | a labelled pixel takes its root and is added to that root's record; the forest's roots do not change |
| Labeling.AddPixelToRecord | lib/vision.ts:99-109 | the record of the root, created at the pixel if it is new, takes one more pixel, a box widened to hold it and the pixel's coordinates added to the sums |
| Labeling.ResolvePass | lib/vision.ts:91-113 | every label becomes the root of its set, and the published list is the per-root statistics of the final labels |
| Labeling.Ccl | lib/vision.ts:52-114 | one label per pixel, 0 exactly on background, at least 2 on foreground, one label exactly on each connected set, and the components computed from those labels |
| ComponentStats.TallyOf | lib/vision.ts:91-110 | the records are keyed by exactly the non-zero labels present, and each key is listed once in insertion order |
| ComponentStats.Records | lib/vision.ts:112 | the list holds the records in insertion order |
| ComponentStats.FirstIndex | lib/vision.ts:99-103 | the first pixel carrying a label |
| ComponentStats.VisitRecord | lib/vision.ts:99-109 | one visit of a pixel with label l gives l a record (created with id l when new) holding one more pixel, with a box that holds the pixel; every other record stays; a new label is listed last |
| ComponentStats.TallyOfTake | lib/vision.ts:92-110 | one more pixel extends the tally by one visit |
| ComponentStats.TallyDescribes | lib/vision.ts:99-109 | every record carries its label as id, area = its pixel count > 0, a box holding each of its pixels and touched on every side, and its coordinate sums |
| ComponentStats.TallyAreaTotal | lib/vision.ts:104 | the record areas add up to the number of foreground pixels |
| ComponentStats.TallyFirstSeen | lib/vision.ts:99-103 | the records are ordered by their labels' first pixels in raster order |
| ComponentStats.ComponentsDescribe | lib/vision.ts:99-112 | each published component has a non-zero id present in the labels and describes exactly the pixels with that label |
| ComponentStats.ComponentsOrdered | lib/vision.ts:112 | the components follow the order of first pixels, so no id is listed twice |
| ComponentStats.ComponentsCover | lib/vision.ts:94-103 | every foreground label has a component |
| ComponentStats.ComponentsArea | lib/vision.ts:104 | the component areas add up to the number of foreground pixels |
| Quad.MinOf | lib/vision.ts:121 | the least value of the list is in the list and at most every entry |
| Quad.MaxOf | lib/vision.ts:122 | the greatest value of the list is in the list and at least every entry |
| Quad.IndexOf | lib/vision.ts:121-124 | the first position of a value, or -1 when it is absent |
| Quad.Sums | lib/vision.ts:119 | one entry per point, entry i being `x + y` of point i |
| Quad.Diffs | lib/vision.ts:120 | one entry per point, entry i being `x - y` of point i |
| Quad.OrderQuad | lib/vision.ts:118-126 | four entries, all undefined for an empty list |
| Quad.FirstOfMin | lib/vision.ts:121 | `indexOf` of the minimum is the first position of least value |
| Quad.FirstOfMax | lib/vision.ts:122 | `indexOf` of the maximum is the first position of greatest value |
| Quad.OrderQuadCorners | lib/vision.ts:118-126 | each corner is an input point: the first of least `x + y`, the first of greatest `x - y`, the first of greatest `x + y` and the first of least `x - y`, in that order |
| Quad.SquareInAnyOrder | lib/vision.ts:118-126 | the four corners of an axis-aligned square, listed in any order, come back as top-left, top-right, bottom-right, bottom-left |
| Polygon.Abs | lib/vision.ts:135 | the absolute value is non-negative and equals the value or its negation |
| Polygon.Area | lib/vision.ts:135 | the area is never negative |
| Polygon.PolygonArea | lib/vision.ts:128-136 | the loop's result is half the absolute shoelace sum |
| Polygon.PartialIsChain | lib/vision.ts:130-134 | before the last vertex the loop sums the open chain of cross products |
| Polygon.LoopIsShoelace | lib/vision.ts:130-134 | the loop's sum, with its wrap to vertex 0, is the closed shoelace sum |
| Polygon.AreaRotate | lib/vision.ts:128-136 | the area does not depend on the starting vertex |
| Polygon.AreaReverse | lib/vision.ts:128-136 | listing the vertices in the opposite direction keeps the area |
| Polygon.AreaEmpty | lib/vision.ts:128-136 | a polygon with no vertices has area 0 |
| Polygon.AreaUnitSquare | lib/vision.ts:128-136 | the unit square (0,0), (1,0), (1,1), (0,1) has area 1 |
| Warp.SourceFits | lib/vision.ts:212-215 | the four bytes of a source pixel lie inside the source buffer |
| Warp.Channel | lib/vision.ts:211-218 | alpha is 255, and so are red, green and blue outside the source; inside, channel c is source byte `(yi * srcW + xi) * 4 + c` |
| Warp.Bump | lib/vision.ts:213-218 | one more write to byte i adds one to its count and leaves the other counts alone |
| Warp.TargetAt | lib/vision.ts:210-218 | byte c of destination pixel (x, y) is channel c of the pixel's sample |
| Warp.WarpSampling | lib/vision.ts:203-221 | the buffer has `dstW * dstH * 4` bytes, each written exactly once; every pixel is opaque, with the RGB of the source pixel `(yi * srcW + xi) * 4` when `(xi, yi)` is inside the source and white otherwise |
| Warp.BufferMeans | lib/vision.ts:210-218 | a buffer of target bytes gives every pixel its sampled colour |
| Warp.WarpRow | lib/vision.ts:204-220 | one row sets the bytes of that row's pixels, each once |
| Warp.SamplePixel | lib/vision.ts:210-218 | the four bytes of one pixel become its sampled colour, each written once, and no other byte changes |
| Warp.IdentityWarp | lib/vision.ts:203-221 | with the identity projection onto a canvas of the same size, the output is the source with every alpha set to 255 |
| Warp.ByteOfPixel | lib/vision.ts:210 | every byte of an RGBA buffer is a channel of some pixel |

## Left out

- `computeHomography`, `solveLinearSystem` and `invert3x3` (lib/vision.ts:138-189) are not modelled. They are IEEE floating-point numerics with `|| 1e-12` substitutions.
- The projection inside `warpProjective` (lib/vision.ts:205-209) is not modelled: float division and `Math.round`, including a zero denominator. The loop takes the rounded coordinate from the parameter `sample`.
- The canvas and DOM calls of `warpProjective` (lib/vision.ts:191-201, 222-223) are left out. The source buffer is a parameter, and the destination buffer is the result.
- Grayscale.ToGray: models the exact floor of `(299 R + 587 G + 114 B) / 1000`. The source evaluates the products in IEEE doubles before `| 0`, which can differ by one at boundaries where the exact sum is a multiple of 1000. `LumaOfGray` holds for the exact value.
- Threshold.Otsu: the means and the variance are exact reals, not doubles, so ties and near-ties are decided exactly. The histogram bins are unbounded naturals, not 32-bit counters, so a wrap beyond 2^32 - 1 pixels per bin is not modelled.
- Labeling.Ccl: labels are unbounded integers, not `Int32`, so a wrap is not modelled. It requires `|binary| == width * height`. A shorter mask makes the source read `undefined` bytes, which is not modelled.
- Labeling.LabelPixel: decides the label first, and RasterPixel then stores it once. The source stores it inside each branch. The stored value and the forest updates are the same.
- Polygon.PolygonArea and the Quad functions use exact reals. NaN, infinities and rounding of `x + y`, `x - y` and the cross products are not modelled.
- Quad.OrderQuad: for an empty list the source's `Math.min(...[])` is `Infinity`, `indexOf` gives -1 and every corner is `undefined`; the model returns four `None`. For a list holding a NaN coordinate, `indexOf` may find nothing; this is not modelled.
- Binarize.Binarize: the threshold is any integer. The source's number argument could be fractional, which is not modelled.
- `app/layout.tsx` and the upload component are user interface and are not part of this model. Marker filtering and ranking, the quad-area gate and the pipeline's error handling are not part of this model either.
