# Scale-less SIFT: a verified model of the discrete core

This project models, in Dafny, the parts of the Scale-less SIFT pipeline
(`SLS/src`) that are loops, index arithmetic and selection rules, and proves
what they compute:

- **Dense local matching** (`computeDenseFlowLocal`, module `DenseFlow`):
  for every source cell, a brute-force nearest-neighbour search over a
  square window of the target field, clamped to the grid and scanned row by
  row with a strict `<`, so the first minimum met wins.
- **Flow evaluation** (`evaluateFlowAgainstHomography`, module `FlowEval`):
  sample the flow on a stride grid, measure each sample's end-point error
  against a homography, and summarise the errors as count, mean, median and
  the percentages within 2 and within 5 pixels.
- **Dense descriptor grid** (`generateDescriptors`, module `DenseSift`): a
  stride grid inside the padded image, one keypoint per grid point and
  scale, and the descriptor of point `i` at scale `si` stored in column
  `si + i * numSigma` of a 128-row matrix.
- **Subspace encoding** (`computeSLSDescriptors`, module `SlsSubspace`):
  each point's block of columns is mean-centred; its leading left singular
  vectors `H` give `A = H H^T`; the diagonal of `A` is scaled by `1/sqrt(2)`;
  the upper triangle is gathered into a vector; that vector is normalised
  when its norm exceeds `1e-8`; and it is stored at cell `(p / s1, p % s1)`.
- **PCA sample selection and projection** (`dimReduce`, module
  `DimReduce`): pass-through, shuffled index lists, the sampling budget
  with `std::vector::resize` semantics, the sample rows in order, and one
  shared, uncentred projection of both images.

The stride scans shared by the evaluator and the descriptor grid are in
module `Grid`. Module `Common` holds the `Result` type, integer helpers,
sums, the inner product and the column-matrix type.

Floating-point values are exact reals. The library routines enter as
inputs:

- SIFT is an extractor function from keypoints to a descriptor batch.
- `cv::SVD` is a function giving the left singular vectors of a thin
  decomposition.
- `cv::PCA` is a function giving the eigenvectors.
- `cv::randShuffle` is the permutation it applies.
- `std::sqrt` is a parameter. The results that depend on it being the
  square root of non-negative numbers assume `IsSqrt`; the operations
  themselves accept any function.

Details of the code that the model keeps:

- `dimReduce` splits the sampling budget into `totalCols / 2` columns of
  the first matrix and `totalCols - totalCols / 2` of the second. It
  passes the data through only when `dimReduction <= 0`.
- The encoded vectors' inner product is half the Frobenius inner product
  `trace(A B)` of the two symmetric matrices: off-diagonal entries appear
  once and the diagonal is scaled by `1/sqrt(2)`.
- A vector whose norm is at most `1e-8` is stored unchanged.
- A point whose column block is empty is skipped, and its cell is never
  written.
- Matching a field against itself can give non-zero flow: an equal
  descriptor earlier in the window wins, because the scan replaces the
  best cell only on a strictly smaller distance.

## Model

| member | source | states |
|---|---|---|
| `DenseFlow.SqDistPrefix` | SLS/src/FlowUtils.cpp:45-50 | the accumulated squared channel distance is never negative |
| `DenseFlow.CellDistance` | SLS/src/FlowUtils.cpp:45-50 | the channel loop leaves exactly the squared distance over the first n channels of the two cells |
| `DenseFlow.BestMatch` | SLS/src/FlowUtils.cpp:33-57 | the window search returns the cell of the selection rule: a clamped-window cell below FLT_MAX that is no farther than any window cell and strictly nearer than every cell scanned before it, or the source position when no cell gets below FLT_MAX |
| `DenseFlow.TrackCell` | SLS/src/FlowUtils.cpp:44-55 | one step of the scan with the strict `<` keeps the scan invariant: best distance so far, first minimum among the cells seen |
| `DenseFlow.TrackEnd` | SLS/src/FlowUtils.cpp:42-57 | once every window row is scanned, the kept cell satisfies the selection rule |
| `DenseFlow.MatchRow` | SLS/src/FlowUtils.cpp:30-62 | one outer iteration stores, for every cell of row y, the offset to its match, and leaves every other row of the flow unchanged |
| `DenseFlow.ComputeDenseFlowLocal` | SLS/src/FlowUtils.cpp:9-66 | fails exactly when sizes or channel counts differ, with a size mismatch reported first; otherwise returns a fresh H x W flow whose every entry is the offset from the cell to its match |
| `DenseFlow.MatchIsUnique` | SLS/src/FlowUtils.cpp:42-55 | scan order plus strict comparison make the match unique |
| `DenseFlow.MatchWithinWindow` | SLS/src/FlowUtils.cpp:37-43 | with r >= 0 the match lies on the target grid and at most r cells away on each axis |
| `DenseFlow.NegativeRadiusKeepsPosition` | SLS/src/FlowUtils.cpp:33-43 | with r < 0 the window is empty and the match is the source cell itself, so the flow is (0, 0) |
| `DenseFlow.ZeroDistanceMeansEqual` | SLS/src/FlowUtils.cpp:45-50 | a zero squared distance means the descriptors agree in every channel |
| `DenseFlow.SelfDistanceZero` | SLS/src/FlowUtils.cpp:45-50 | a descriptor is at distance 0 from itself |
| `DenseFlow.SelfMatchIsExact` | SLS/src/FlowUtils.cpp:42-55 | matching a field against itself finds a cell at distance 0 whose descriptor equals the source cell's |
| `DenseFlow.SelfMatchMayMoveToEarlierCell` | SLS/src/FlowUtils.cpp:51-55 | in a 1 x 2 field of equal descriptors the right cell matches the left one: self-matching need not give zero flow |
| `Grid.ScanRow` | SLS/src/FlowUtils.cpp:130 | every point of a row scan lies on that row, between its start and its end |
| `Grid.ScanGrid` | SLS/src/dense_sift.cpp:47-48 | every point of the nested scan lies inside the scanned rectangle |
| `Grid.StrideCountFromZero` | SLS/src/FlowUtils.cpp:129-130 | a scan from 0 below n takes ceil(n / step) strides |
| `Grid.ScanRowLength` | SLS/src/FlowUtils.cpp:130 | a row scan visits ceil((end - start) / step) points |
| `Grid.ScanRowSameLength` | SLS/src/dense_sift.cpp:48 | every row holds the same number of points |
| `Grid.ScanGridLength` | SLS/src/dense_sift.cpp:47-51 | the nested scan visits (row strides) x (column strides) points |
| `Grid.ScanRowAt` | SLS/src/dense_sift.cpp:48-49 | the k-th point of a row is k strides right of its start |
| `Grid.ScanGridRow` | SLS/src/dense_sift.cpp:47-51 | point r * perRow + c of the scan is point c of row y + r * step |
| `Grid.ScanGridAt` | SLS/src/dense_sift.cpp:47-51 | point r * perRow + c is (xStart + c * step, y0 + r * step): rows outer, columns inner |
| `Grid.ScanRowMember` | SLS/src/FlowUtils.cpp:130 | a row scan visits exactly the points of its row a whole number of strides from its start and before its end |
| `Grid.ScanGridMember` | SLS/src/FlowUtils.cpp:129-130 | the nested scan visits exactly the rectangle's points a whole number of strides from its first row and first column |
| `FlowEval.SquaredError` | SLS/src/FlowUtils.cpp:139-144 | the squared end-point error against the projected point is never negative |
| `FlowEval.ErrorsAt` | SLS/src/FlowUtils.cpp:129-147 | one error per visited pixel |
| `FlowEval.MeasurableSplit` | SLS/src/FlowUtils.cpp:129-147 | a scan of two parts is measurable exactly when both parts are |
| `FlowEval.ErrorsAtAppend` | SLS/src/FlowUtils.cpp:145 | the errors of two consecutive scans are the errors of the first followed by those of the second |
| `FlowEval.SamplesMeasurable` | SLS/src/FlowUtils.cpp:129-131 | every sampled pixel lies inside the flow field |
| `FlowEval.CountAtMost` | SLS/src/FlowUtils.cpp:170-174 | a count of errors within a threshold never exceeds the number of errors |
| `FlowEval.CountAtLeast` | SLS/src/FlowUtils.cpp:161-168 | the number of errors at or above a value, never more than the number of errors; it states the upper half of the median split (at least half of the errors are at or above the median) |
| `FlowEval.CountAppend` | SLS/src/FlowUtils.cpp:170-174 | counts add up over concatenation |
| `FlowEval.Insert` | SLS/src/FlowUtils.cpp:161 | inserting keeps the elements (plus the new one) and keeps an ascending sequence ascending |
| `FlowEval.InsertCounts` | SLS/src/FlowUtils.cpp:161 | an insertion adds one to a count exactly when the inserted error meets the threshold |
| `FlowEval.SortedOf` | SLS/src/FlowUtils.cpp:161 | the sorted errors are ascending, of the same length, and a permutation of the errors |
| `FlowEval.SortedOfCounts` | SLS/src/FlowUtils.cpp:161-176 | sorting does not change how many errors fall at or below, or at or above, a threshold |
| `FlowEval.SortedUnique` | SLS/src/FlowUtils.cpp:161 | two ascending permutations of the same errors are equal, so the sort result is determined |
| `FlowEval.SortAscending` | SLS/src/FlowUtils.cpp:161 | the in-place sort leaves the ascending permutation of the old buffer |
| `FlowEval.SinkLast` | SLS/src/FlowUtils.cpp:161 | one insertion step extends the sorted prefix by one and permutes the buffer |
| `FlowEval.CollectRow` | SLS/src/FlowUtils.cpp:130-146 | the inner loop produces the errors of row y at columns 0, step, 2 step, ... in order |
| `FlowEval.CollectErrors` | SLS/src/FlowUtils.cpp:126-147 | the sampling loops produce one error per sample, in scan order |
| `FlowEval.SumErrors` | SLS/src/FlowUtils.cpp:157-158 | the accumulation loop computes the sum of the errors |
| `FlowEval.CountWithin` | SLS/src/FlowUtils.cpp:170-174 | the counting loop counts the errors at most 2 and at most 5 |
| `FlowEval.SummarizeErrors` | SLS/src/FlowUtils.cpp:149-177 | all zero for no errors; otherwise the mean in sampling order, the odd/even median of the sorted errors, and both percentages of the sorted errors |
| `FlowEval.SortedStatistics` | SLS/src/FlowUtils.cpp:161-176 | sorting a copy of the errors yields the median and the counts at or below 2 and 5 of the ascending order of the errors |
| `FlowEval.MeanWithin` | SLS/src/FlowUtils.cpp:157-159 | the mean of errors that all lie in [lo, hi] lies in [lo, hi] |
| `FlowEval.MedianWithin` | SLS/src/FlowUtils.cpp:162-168 | the median of values that all lie in [lo, hi] lies in [lo, hi] |
| `FlowEval.PercentsOrdered` | SLS/src/FlowUtils.cpp:170-176 | 0 <= percentage within 2 <= percentage within 5 <= 100 |
| `FlowEval.EvaluateFlowAgainstHomography` | SLS/src/FlowUtils.cpp:111-179 | fails exactly when H is not 3 x 3; otherwise returns the summary of the sampled errors |
| `FlowEval.SampleCount` | SLS/src/FlowUtils.cpp:129-130 | ceil(H / step) * ceil(W / step) samples, and none exactly when the field has no rows or no columns |
| `FlowEval.SampleAt` | SLS/src/FlowUtils.cpp:129-130 | sample r * ceil(W / step) + c is pixel (c * step, r * step) |
| `FlowEval.SampledIff` | SLS/src/FlowUtils.cpp:129-130 | a pixel is sampled exactly when it is in the field and both coordinates are multiples of the stride |
| `FlowEval.EmptyFieldSummary` | SLS/src/FlowUtils.cpp:150-155 | the sample count is ceil(H / step) * ceil(W / step), and the summary is all zeros exactly when the field is empty |
| `FlowEval.SampleErrorAt` | SLS/src/FlowUtils.cpp:131-145 | sample r * ceil(W / step) + c is the error of the flow at pixel (c * step, r * step) |
| `FlowEval.SampleErrorZero` | SLS/src/FlowUtils.cpp:142-145 | an error is never negative and is zero exactly when the predicted point is the ground-truth point, which then counts within 2 and 5 pixels |
| `FlowEval.SampleErrorsNonNegative` | SLS/src/FlowUtils.cpp:144-145 | every collected error is non-negative |
| `FlowEval.SumBounds` | SLS/src/FlowUtils.cpp:157-158 | errors in [lo, hi] sum to between n lo and n hi |
| `FlowEval.MeanBounds` | SLS/src/FlowUtils.cpp:159 | the mean of such a sum lies in [lo, hi] |
| `FlowEval.WithinSorted` | SLS/src/FlowUtils.cpp:161 | sorting keeps the errors in [lo, hi] |
| `FlowEval.CountMonotone` | SLS/src/FlowUtils.cpp:172-173 | a higher threshold never counts fewer errors, so count2 <= count5 |
| `FlowEval.PercentBounds` | SLS/src/FlowUtils.cpp:175-176 | c1 <= c2 <= n gives 0 <= 100 c1 / n <= 100 c2 / n <= 100 |
| `FlowEval.SummaryBounds` | SLS/src/FlowUtils.cpp:149-177 | for errors in [lo, hi]: numSamples is the count, mean and median lie in [lo, hi], and 0 <= percentBelow2px <= percentBelow5px <= 100 |
| `FlowEval.MedianSplitsSorted` | SLS/src/FlowUtils.cpp:162-168 | in an ascending sequence at least half the elements are at most the median and at least half are at least it |
| `FlowEval.MedianSplitsSamples` | SLS/src/FlowUtils.cpp:161-168 | the reported median splits the sampled errors in halves |
| `DenseSift.KeypointsAt` | SLS/src/dense_sift.cpp:71-80 | one keypoint per grid point, at that point, with the scale's patch size and angle 0 |
| `DenseSift.Batches` | SLS/src/dense_sift.cpp:67-83 | one extractor batch per scale |
| `DenseSift.FirstError` | SLS/src/dense_sift.cpp:92-96 | the copy succeeds exactly when no scale's batch misses a row or has a width reshape rejects |
| `DenseSift.ScaleWritten` | SLS/src/dense_sift.cpp:92-96 | copying a scale keeps the number of columns |
| `DenseSift.FilledStep` | SLS/src/dense_sift.cpp:67-97 | copying scale si's batch extends the filled scales by one, leaving later scales' columns zero |
| `DenseSift.BuildCoords` | SLS/src/dense_sift.cpp:43-51 | the nested loop produces the grid points in row-major order |
| `DenseSift.AppendRow` | SLS/src/dense_sift.cpp:48-50 | the inner loop appends exactly the row scan of y, in order, to the points so far |
| `DenseSift.BuildKeypoints` | SLS/src/dense_sift.cpp:71-80 | the keypoint loop produces one keypoint per grid point |
| `DenseSift.CopyScale` | SLS/src/dense_sift.cpp:92-96 | fails exactly when the batch misses a row or has a width reshape rejects, with the exception met first; otherwise column si + i * numSigma receives point i's row and no other column changes |
| `DenseSift.DescribeScales` | SLS/src/dense_sift.cpp:67-97 | the scale loop stops at the first failing scale; otherwise the matrix has the full column layout |
| `DenseSift.GenerateDescriptors` | SLS/src/dense_sift.cpp:11-100 | an empty image yields nothing; otherwise numPoints is the grid size, s1 = ceil(W / g), s2 = ceil(H / g), and in the fresh matrix column si + i * numSigma holds row i of scale si's batch when that batch is 128 wide, and its initial zeros otherwise |
| `DenseSift.FirstErrorAt` | SLS/src/dense_sift.cpp:67-96 | the first failing scale decides the exception |
| `DenseSift.ColumnOfParts` | SLS/src/dense_sift.cpp:94 | column si + i * numSigma divides back into point i and scale si |
| `DenseSift.ColumnOfInRange` | SLS/src/dense_sift.cpp:61-94 | point i owns the block [i numSigma, (i + 1) numSigma), inside the numPoints * numSigma columns |
| `DenseSift.ColumnLayoutBijective` | SLS/src/dense_sift.cpp:61-96 | (i, si) to si + i * numSigma is a bijection onto the columns, so each column is written once |
| `DenseSift.LayoutAt` | SLS/src/dense_sift.cpp:92-96 | in the finished matrix, column si + i * numSigma is row i of scale si's batch, 128 long |
| `DenseSift.GridShape` | SLS/src/dense_sift.cpp:26-59 | the grid of an h x w image padded by pad has ceil(h / g) * ceil(w / g) points, point r * ceil(w / g) + c being (pad + c g, pad + r g) |
| `DenseSift.GridLength` | SLS/src/dense_sift.cpp:44-59 | a padded scan has ceil(w / g) columns and ceil(h / g) * ceil(w / g) points |
| `DenseSift.GridPointsInside` | SLS/src/dense_sift.cpp:47-51 | the grid holds exactly the points of [pad, cols - pad) x [pad, rows - pad) a whole number of strides from (pad, pad) |
| `SlsSubspace.BuildInds` | SLS/src/sls_subspace.cpp:18-22 | the nested loop produces the upper-triangle list |
| `SlsSubspace.AppendRow` | SLS/src/sls_subspace.cpp:21-22 | the inner loop appends i * D + j for j = i .. D - 1 |
| `SlsSubspace.TriRowAt` | SLS/src/sls_subspace.cpp:21-22 | row i's segment from column j has D - j entries, entry k being i * D + j + k |
| `SlsSubspace.TriFromLength` | SLS/src/sls_subspace.cpp:20-22 | rows i .. D - 1 contribute (D - i)(D - i + 1) / 2 entries |
| `SlsSubspace.UpperTriangleLength` | SLS/src/sls_subspace.cpp:14-22 | inds has SL = D (D + 1) / 2 entries |
| `SlsSubspace.FlatIndex` | SLS/src/sls_subspace.cpp:52-56 | flat index i * D + j divides back into row i and column j |
| `SlsSubspace.TriRowMember` | SLS/src/sls_subspace.cpp:21-22 | an index is in row i's segment from j exactly when its row is i and its column is at least j |
| `SlsSubspace.TriFromMember` | SLS/src/sls_subspace.cpp:20-22 | an index is in the list from row i on exactly when i <= its row <= its column |
| `SlsSubspace.TriFromAbove` | SLS/src/sls_subspace.cpp:20-22 | entries from row i on are at least i * D |
| `SlsSubspace.TriFromIncreasing` | SLS/src/sls_subspace.cpp:20-22 | the list from any row on is strictly increasing |
| `SlsSubspace.UpperTriangleProperties` | SLS/src/sls_subspace.cpp:14-22 | inds has SL entries, is strictly increasing, and holds exactly the flat indices below D * D whose row is at most their column, each once |
| `SlsSubspace.GramEntrySymmetric` | SLS/src/sls_subspace.cpp:47 | entry (i, j) of H H^T equals entry (j, i) |
| `SlsSubspace.GramSymmetric` | SLS/src/sls_subspace.cpp:47 | A = H H^T is symmetric |
| `SlsSubspace.TriFromInRange` | SLS/src/sls_subspace.cpp:52-56 | every index from row i on addresses an entry of the D x D matrix |
| `SlsSubspace.UpperTriangleInRange` | SLS/src/sls_subspace.cpp:52-56 | every entry of inds addresses an entry of the D x D matrix |
| `SlsSubspace.FrobSplitColumn` | SLS/src/sls_subspace.cpp:47-56 | the trace sum splits off one column |
| `SlsSubspace.ColumnMirrorsRow` | SLS/src/sls_subspace.cpp:47 | for symmetric matrices a column sum equals the matching row sum |
| `SlsSubspace.ScaledDiagonalScales` | SLS/src/sls_subspace.cpp:49-50 | scaling the diagonal multiplies exactly the diagonal entries and leaves the rest |
| `SlsSubspace.RowDotOffDiagonal` | SLS/src/sls_subspace.cpp:49-50 | strictly above the diagonal the scaled matrices agree with the originals |
| `SlsSubspace.DiagonalRow` | SLS/src/sls_subspace.cpp:24-50 | with s * s = 1/2, a row segment from the diagonal contributes half the diagonal product plus the off-diagonal terms |
| `SlsSubspace.FrobPeel` | SLS/src/sls_subspace.cpp:47-56 | the trace sum from row i peels off row i's diagonal and twice its off-diagonal terms |
| `SlsSubspace.GatherOne` | SLS/src/sls_subspace.cpp:55-56 | gathering index i * D + j reads entry (i, j) |
| `SlsSubspace.GatherRowDot` | SLS/src/sls_subspace.cpp:55-56 | the gathered row segments of two matrices have the row's partial inner product |
| `SlsSubspace.GatherAppend` | SLS/src/sls_subspace.cpp:55-56 | gathering a concatenated index list is concatenating the gathers |
| `SlsSubspace.TriFromDotSplit` | SLS/src/sls_subspace.cpp:20-56 | the gathered triangle from row i splits into row i and the rest |
| `SlsSubspace.HalfFrobeniusFrom` | SLS/src/sls_subspace.cpp:47-56 | twice the inner product of the gathered triangles from row i is the trace sum from row i |
| `SlsSubspace.DiagScaleSquare` | SLS/src/sls_subspace.cpp:24 | the diagonal scale 1 / sqrt(2) squares to 1/2 |
| `SlsSubspace.EncodingInnerProduct` | SLS/src/sls_subspace.cpp:24-56 | for symmetric A, B the encoded vectors' inner product is half of trace(A B) |
| `SlsSubspace.SumSqIsDot` | SLS/src/sls_subspace.cpp:58 | the squared norm is the vector's inner product with itself |
| `SlsSubspace.EncodingNorm` | SLS/src/sls_subspace.cpp:47-58 | the encoded vector's squared norm is half of trace(A A) |
| `SlsSubspace.SumSqDivided` | SLS/src/sls_subspace.cpp:59 | dividing every entry by n divides the squared norm by n^2 |
| `SlsSubspace.NormalisedUnit` | SLS/src/sls_subspace.cpp:58-59 | the guarded normalisation keeps the length, gives unit norm when the norm exceeds 1e-8, and otherwise leaves h unchanged with squared norm at most 1e-16 |
| `SlsSubspace.PointEncodingCases` | SLS/src/sls_subspace.cpp:28-59 | 1 <= d <= D; a point is skipped exactly when its block is empty; fails exactly when the block is narrower than d; otherwise yields SL numbers of unit norm or of norm at most 1e-8 |
| `SlsSubspace.CenteredRowsSumZero` | SLS/src/sls_subspace.cpp:36-39 | after mean-centring, every row of the block sums to zero |
| `SlsSubspace.CenterColumns` | SLS/src/sls_subspace.cpp:38-39 | the loop subtracts the mean column from every column in place |
| `SlsSubspace.ScaleDiagonal` | SLS/src/sls_subspace.cpp:49-50 | the loop multiplies exactly the diagonal entries by the scale, in place |
| `SlsSubspace.GatherTriangle` | SLS/src/sls_subspace.cpp:52-56 | h[k] = A[inds[k] / D][inds[k] % D] for every k |
| `SlsSubspace.CenteredBlock` | SLS/src/sls_subspace.cpp:34-39 | the cloned block of the point's columns, minus its row means |
| `SlsSubspace.GramArray` | SLS/src/sls_subspace.cpp:47 | the D x D matrix H H^T |
| `SlsSubspace.EncodeSubspace` | SLS/src/sls_subspace.cpp:47-56 | the flattened, diagonal-scaled upper triangle of H H^T |
| `SlsSubspace.NormaliseInPlace` | SLS/src/sls_subspace.cpp:58-59 | h divided by its norm when that exceeds 1e-8, unchanged otherwise |
| `SlsSubspace.EncodePoint` | SLS/src/sls_subspace.cpp:28-59 | one loop iteration computes the point's encoding, skip or error |
| `SlsSubspace.CellOfPoint` | SLS/src/sls_subspace.cpp:16-63 | for p < s1 s2, cell (p / s1, p % s1) is inside the volume and is the only cell at flat position p |
| `SlsSubspace.StorePoint` | SLS/src/sls_subspace.cpp:61-63 | the memcpy fills cell (p / s1, p % s1) with h and changes no other cell |
| `SlsSubspace.ComputeSlsDescriptors` | SLS/src/sls_subspace.cpp:7-67 | fails exactly when some point's block is narrower than the subspace dimension; otherwise a fresh s2 x s1 volume whose cell (p / s1, p % s1) holds point p's encoding, and whose other cells are unwritten |
| `SlsSubspace.EncodePoints` | SLS/src/sls_subspace.cpp:26-64 | the loop over points fails exactly when some point is too narrow for the rank, and on success every cell below numPoints holds its point's final value |
| `SlsSubspace.ProcessPoint` | SLS/src/sls_subspace.cpp:28-63 | one iteration fails exactly when point p is too narrow for the rank, and otherwise extends the stored prefix by point p |
| `SlsSubspace.RecordPoint` | SLS/src/sls_subspace.cpp:61-63 | storing point p's encoding extends the stored prefix by one point and touches no other cell |
| `SlsSubspace.PointFails` | SLS/src/sls_subspace.cpp:30-45 | the SVD step fails exactly when the block has columns but fewer than min(max(1, subsDim), D) |
| `SlsSubspace.ChannelsAsWritten` | SLS/src/sls_subspace.cpp:16 | CV_32FC(n) has between 1 and 512 channels: n when n <= 512, fewer than n otherwise |
| `SlsSubspace.ChannelOverflow` | SLS/src/sls_subspace.cpp:14-63 | D = 32 gives 528 floats per cell but 16 channels, D = 128 gives 8256 but 64, and the copy into the last cell ends past the volume |
| `SlsSubspace.ChannelsTooFew` | SLS/src/sls_subspace.cpp:14-63 | for D >= 32 each copy reaches into the next cell, and the last one past the volume |
| `SlsSubspace.CellRangesDisjoint` | SLS/src/sls_subspace.cpp:16-63 | with SL floats per cell, every cell's range lies inside the volume and is disjoint from every other cell's |
| `DimReduce.Iota` | SLS/src/dim_reduce.cpp:24-26 | the fill loop gives a fresh list 0, 1, ..., n - 1 |
| `DimReduce.IdentityCount` | SLS/src/dim_reduce.cpp:24-26 | 0 .. n - 1 holds each index below n once and nothing else |
| `DimReduce.ShuffledIdentity` | SLS/src/dim_reduce.cpp:24-29 | the shuffled list is the permutation, and holds each index below n exactly once |
| `DimReduce.ResizeShape` | SLS/src/dim_reduce.cpp:33-34 | resize gives m entries: the old ones first, then 0 |
| `DimReduce.BudgetSizes` | SLS/src/dim_reduce.cpp:31-35 | over budget, the lists have totalCols / 2 and totalCols - totalCols / 2 entries, exactly totalCols in all |
| `DimReduce.EveryColumnOnce` | SLS/src/dim_reduce.cpp:24-39 | within budget, every column of both matrices is sampled exactly once |
| `DimReduce.SampledInRange` | SLS/src/dim_reduce.cpp:24-35 | a sampled index falls outside its matrix only when the matrix has no columns and resize padded the list with 0 |
| `DimReduce.PushAll` | SLS/src/dim_reduce.cpp:38-39 | the push loop gives the sample rows of the columns in index order, or the error push_back meets first |
| `DimReduce.PushColumnsResult` | SLS/src/dim_reduce.cpp:38-39 | pushing succeeds exactly when every index is a column and any earlier rows have the same width; the samples are the old rows followed by those columns in order |
| `DimReduce.SampleColumns` | SLS/src/dim_reduce.cpp:37-39 | the two push loops build exactly the sample matrix of the kept indices, first matrix first |
| `DimReduce.SampleMatrixOrder` | SLS/src/dim_reduce.cpp:37-39 | with valid indices and equal heights the sample matrix exists; any sample matrix has one row per index, image 1's columns in idx1 order first, then image 2's in idx2 order |
| `DimReduce.ProjectionLinear` | SLS/src/dim_reduce.cpp:45-51 | the projection is linear and maps zero to zero: no mean is subtracted |
| `DimReduce.ReduceDimensions` | SLS/src/dim_reduce.cpp:5-54 | copies both inputs with an empty basis when dimReduction <= 0; otherwise samples, runs PCA and projects both images on the eigenvectors, or reports the error met |
| `DimReduce.ReducedShapes` | SLS/src/dim_reduce.cpp:45-51 | a reduction keeps N1 and N2 columns, gives both images the same height, and maps equal columns of the two images to equal columns: one shared basis |

## Left out

- SIFT extraction, `cv::SVD::compute`, `cv::PCA` and `cv::randShuffle` are
  library calls. They are inputs to the model: an extractor function, a
  left-singular-vector function, an eigenvector function and permutations.
  What they compute is not modelled.
- `std::sqrt` is a parameter. The norm in `cv::norm` is that parameter
  applied to the sum of squares. Only the lemmas and the
  `SlsSubspace.ComputeSlsDescriptors` chain assume `IsSqrt`, that it is the
  exact square root on non-negative reals.
- Floating-point rounding, `float`/`double` widths and the `1e-8f` constant
  are not modelled: all arithmetic is exact real arithmetic. The threshold
  is the exact real 1e-8.
- 32-bit `int` overflow is not modelled: `p * numSigma`, `numPoints *
  numSigma` and `r * s1 + c` are unbounded integers.
- The progress printing of the matcher and the diagnostic for a SIFT batch
  of unexpected shape are console output, not modelled. A batch of
  unexpected shape is still copied as OpenCV would, and is only an error
  where OpenCV throws.
- `flowToColor` and `warpImage` are visualisation code built on `atan2`,
  HSV conversion and `cv::remap`, and are not part of this model. Neither
  are the image loading, colour conversion and command-line drivers.
- The padding and patch sizes computed from sigma are floating point. The
  pad is a parameter of `DenseSift.GenerateDescriptors`, and the padded
  image is the input extended by pad on every side.
- `cv::copyMakeBorder` and the 8-bit conversion are not modelled: the
  extractor receives only the keypoints.
- `DenseSift.GenerateDescriptors` represents the early return for an empty
  image as `Failure(EmptyImage)`, not as an empty descriptor grid.
- `SlsSubspace.ComputeSlsDescriptors` represents a cell the function never
  writes (no point there, or a skipped point) as the empty vector. In the
  source it holds uninitialised memory.
- `SlsSubspace.ComputeSlsDescriptors` gives every cell its own SL-long
  vector, the layout the code intends. The overflow of the as-written
  channel count is stated separately (see Findings).
- `FlowEval.EvaluateFlowAgainstHomography` requires the homography's third
  coordinate to be non-zero at every sampled pixel. With double arithmetic
  a zero there gives an infinite or NaN error, which the model does not
  represent.
- `FlowEval.EvaluateFlowAgainstHomography` requires `step >= 1` (and takes
  `step` as a `nat`). A step of 0 divides by zero in the `reserve` size
  (FlowUtils.cpp:127), and a negative step makes the row loop walk below
  row 0; both are undefined behaviour, so the model does not cover them.
- `DenseSift.GenerateDescriptors` requires `gridSpacing >= 1 && |sigmas| >= 1`.
  A grid spacing of 0 divides by zero in the `reserve` size
  (dense_sift.cpp:44-45), and an empty sigma schedule calls `back()` on an
  empty vector (dense_sift.cpp:21); both are undefined behaviour.
- `SlsSubspace.ComputeSlsDescriptors` requires `dp.rows >= 1`. With D = 0
  the volume type `CV_32FC(0)` has no valid channel count (OpenCV accepts 1
  to 512), so the result is not defined by the code; the model does not
  cover an empty descriptor dimension.
- `FlowEval.SortAscending` stands for `std::sort` by an insertion sort. Only
  its result, the ascending permutation, is claimed to match.
- `DimReduce.ReduceDimensions` leaves what PCA returns for an empty or
  unusual sample matrix to the eigenvector function it is given.

## Findings

| source | as written | input that shows it | evidently intended | confidence | as-written member | corrected member |
|---|---|---|---|---|---|---|
| SLS/src/sls_subspace.cpp:14-63 | the volume is created as `CV_32FC(SL)` with SL = D (D + 1) / 2. OpenCV keeps at most 512 channels, so the count wraps to ((SL - 1) mod 512) + 1. Each `memcpy` still copies SL floats per cell. | D = 32, the default `dimReduction`: SL = 528 but 16 channels per cell, so the copy for point 0 overwrites cells 1 to 32 and the copy for the last cell runs 512 floats past the buffer. D = 128 (no reduction): 8256 floats into 64 channels. | each cell holds SL floats, and the cells' ranges are disjoint and inside the volume | not executed | `SlsSubspace.ChannelsAsWritten`, `SlsSubspace.ChannelOverflow`, `SlsSubspace.ChannelsTooFew` | `SlsSubspace.CellRangesDisjoint` |
