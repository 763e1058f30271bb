# hictools compartment core, modelled in Dafny

This project models the numerical core of hictools, a Python toolkit for
Hi-C contact matrices, and proves properties of that model. It covers:

- **Contact decay** (`get_decay`, `linear_bins`). This is the mean contact of
  every diagonal offset of a matrix. Offsets are grouped by a list of
  boundaries. NaN and zero cells can be ignored, and per-group cell counts
  can be recorded.
- **Compartment sorting** (`corr_sorter`, `plain_sorter`). Every eigenvector
  is scored against a correlation matrix and oriented so that its positive
  side ("A") has the stronger internal correlation. The vectors are then
  sorted stably: plausible ones first, then by descending score.
- **PCA** (class `Pca`). It stores the column means, the centred matrix and
  its SVD U·S·Vh after the sign flip taken from sklearn (`_flip_svd`). It
  offers:
  - dimension reduction (`shrink_c`, `shrink_r`);
  - transform and inverse transform;
  - partial reconstruction;
  - the lazily cached `variance` and `variance_ratio` properties.
- **Toeplitz views** (`SliceMixin`, `Toeplitz`, `Expected`). These are lazy
  Toeplitz matrices, given by a first column and a first row, that serve
  rectangular blocks for a pair of slices.
- **Array helpers** from `utils.py`:
  - `mask_array` / `index_array`;
  - `check_slice`;
  - `remove_small_gap`;
  - the dense branch of `is_symmetric`;
  - `fill_diag`.

Contact values in `get_decay`, `is_symmetric` and `variance_ratio` are exact
reals with an explicit NaN (`Base.Cell`). The sorter and the PCA factors are
plain reals with no NaN. Arrays that are
only read become sequences of rows. Arrays the source changes in place stay
arrays:

- `fill_diag` works on an `array2`;
- `_flip_svd` works on the `array2` factors;
- the output buffers of `get_decay` are arrays.

The `Pca` object is a class with mutable caches for the two lazy properties.
Python's indexing and slicing rules (negative indices, clamping of bounds,
strides) are modelled once, in module `PySeq`.

Files:

| file | module | contents |
|---|---|---|
| base.dfy | `Base` | Option, Result, Error, Cell, Abs, Sign, IsMatrix |
| pyseq.dfy | `PySeq` | `range`, `a[i]`, `a[start:stop:step]` |
| utils.dfy | `Utils` | the helpers from `utils.py` |
| decay.dfy | `Decay` | `linear_bins`, `get_decay` |
| sorter.dfy | `Sorter` | `corr_sorter`, `plain_sorter` |
| pca.dfy | `Decomposition` | `_flip_svd`, the `Pca` class |
| toeplitz.dfy | `Slicing` | `SliceMixin`, `Toeplitz`, `Expected` |

## Model

| member | source | states |
|---|---|---|
| Base.Sign | hictools/compartment.py:357 | the sign is 1, 0 or -1, and sign times x is the absolute value of x |
| PySeq.WalkAt | hictools/compartment.py:48 | the k-th element of `range(start, stop, step)` is `start + k * step` |
| PySeq.WalkReaches | hictools/compartment.py:48 | a forward range contains `start + k * step` at position k exactly when that value is below `stop` |
| PySeq.IndexOf | hictools/compartment.py:441 | `a[i]` succeeds exactly for `-len <= i < len`, negative indices counting from the end; otherwise IndexError |
| PySeq.SliceRange | hictools/compartment.py:445 | `a[i:j]` with in-range bounds is the contiguous run `a[i..j]` |
| PySeq.SlicePrefix | hictools/compartment.py:448 | `a[:j]` for `j >= 0` is the first `min(j, len)` elements |
| PySeq.SliceDropLast | hictools/compartment.py:446 | `a[:-1]` drops exactly the last element |
| PySeq.SliceReverse | hictools/compartment.py:446 | `a[::-1]` has the same length and holds `a` back to front |
| PySeq.SliceStrideAt | hictools/compartment.py:460 | `a[::s]` holds the elements at the positions of `range(0, len, s)` |
| Utils.TrueIndices | hictools/utils.py:274 | `np.where(mask)[0]` is strictly increasing and holds exactly the True positions |
| Utils.GapLeft | hictools/utils.py:277 | a gap index is adjacent to its predecessor in the index list iff the mask is True just left of it |
| Utils.GapRight | hictools/utils.py:278 | a gap index is adjacent to its successor in the index list iff the mask is True just right of it |
| Utils.SingleGapMeansIsolated | hictools/utils.py:276-280 | a recorded single gap is exactly a True position with no True neighbour in the mask |
| Utils.SingleGaps | hictools/utils.py:274-284 | with fewer than 3 gap indices nothing is recorded; otherwise exactly the isolated gap indices are recorded, the end tests included |
| Utils.StepRecorded | hictools/utils.py:276-284 | one loop pass extends the recorded set from the first i indices to the first i + 1, plus the two ends |
| Utils.KeptIsNotSmallGap | hictools/utils.py:285-286 | the set difference of gap indices and single gaps marks exactly the positions SmallGapsRemoved keeps |
| Utils.RemoveSmallGap | hictools/utils.py:266-288 | the result has the input's length and is True only where the input is; with fewer than 3 True positions it is the input unchanged, otherwise every isolated True is cleared and the rest kept |
| Utils.LoneGapPairKept | hictools/utils.py:281-284 | `[T, F, T]` has only two gap indices, so it comes back unchanged, while the documented behaviour clears both isolated gaps |
| Utils.SmallGapsRemovedNoIsolated | hictools/utils.py:266-271 | after removal every remaining True was True before and has a True neighbour |
| Utils.SmallGapsRemovedIdempotent | hictools/utils.py:266-271 | removing small gaps twice is removing them once |
| Utils.FillFlat | hictools/utils.py:327-332 | the row-major flat assignment writes the value at the given positions and keeps every other cell; with `copy` a fresh array is returned and the argument is unchanged, without it the argument itself is changed and returned |
| Utils.FillDiag | hictools/utils.py:313-334 | fill_diag as written: the cells at the flat slice `st:ed:cols+1` get the value and all others keep theirs; the copy rules are those of the source |
| Utils.FillDiagAtMostOne | hictools/utils.py:329-332 | for every shape and offset, the slice as written selects at most one cell |
| Utils.FillPositions | hictools/utils.py:329-332 | every flat position the slice as written selects lies inside the `rows * cols` buffer; FillDiagAtMostOne and FillDiagOnDiagonal say which |
| Utils.FillDiagOnDiagonal | hictools/utils.py:329-332 | any cell the slice as written selects lies on the requested diagonal (`j - i == offset`) |
| Utils.FillDiagThreeByThree | hictools/utils.py:329-332 | on a 3 x 3 array with offset 1 the code selects flat position 1 only, while the intended slice selects 1 and 5 |
| Utils.FillDiagFixedCell | hictools/utils.py:317-325 | with stop bound `max(0, cols - offset) * cols`, cell (i, j) is selected exactly when `j - i == offset`, for every shape and every offset |
| Utils.FillDiagFixed | hictools/utils.py:313-334 | fill_diag as documented: exactly the cells on the `offset` diagonal get the value, the rest are unchanged, with the same copy rules |
| Utils.MaskArgs | hictools/utils.py:67-81 | mask_array succeeds iff every argument can be masked: vectors by `v[mask]`, matrices by `m[:, mask]`, tuples recursively; one result per argument |
| Utils.IndexArgs | hictools/utils.py:84-91 | index_array yields one result per argument, each the argument indexed by the integer array, and fails exactly when some argument cannot be indexed |
| Utils.FilterIsGather | hictools/utils.py:79 | a boolean mask keeps exactly the entries at the True positions, in their order |
| Utils.MaskVecIsIndex | hictools/utils.py:79 | on a vector, boolean masking equals integer indexing by `np.where(mask)[0]` |
| Utils.MaskIsIndex | hictools/utils.py:74-81 | on any nest of arguments the mask fits, mask_array by a mask equals mask_array by the mask's True positions |
| Utils.MaskArgsIsIndex | hictools/utils.py:67-91 | mask_array with a boolean mask gives what index_array gives with `np.where(mask)[0]` |
| Utils.CheckSlice | hictools/utils.py:94-98 | an integer n becomes `slice(0, n, 1)`; a slice is returned unchanged |
| Utils.CheckSliceTakesPrefix | hictools/utils.py:94-96 | applying the normalised slice of a non-negative n takes the first n elements |
| Utils.CheckSliceIdempotent | hictools/utils.py:94-98 | normalising a normalised slice changes nothing |
| Utils.IsSymmetric | hictools/utils.py:292-310 | a dense array gets a boolean answer; any argument that is neither ndarray nor sparse gets ValueError |
| Utils.IsClose | hictools/utils.py:303 | `np.isclose` with `equal_nan=True`: equal cells are close at any non-negative tolerance, NaN is close only to NaN, and at zero tolerance close means equal |
| Utils.SymmetricPasses | hictools/utils.py:302-304 | a matrix equal to its transpose (NaN mirrored by NaN) passes at every non-negative tolerance |
| Utils.ZeroToleranceIsTranspose | hictools/utils.py:302-304 | with zero tolerances the test holds iff the matrix equals its transpose |
| Decay.LinearBins | hictools/compartment.py:15-16 | `linear_bins(lo, hi)` is `0` followed by `lo, ..., hi - 1` |
| Decay.LinearBinsFixed | hictools/compartment.py:15-16 | the boundaries `lo, ..., hi` that give every offset a group of its own |
| Decay.LinearBinsShape | hictools/compartment.py:15-16 | the default boundaries for n are sorted, lie within `[0, n]` and form n pairs |
| Decay.Diagonal | hictools/compartment.py:49 | `mat.diagonal(k)` holds `mat[i][i + k]`, with numpy's length for the shape |
| Decay.Filter | hictools/compartment.py:50-61 | sub_data is no longer than the diagonal and holds only cells the policy keeps |
| Decay.Keep | hictools/compartment.py:50-60 | a cell is kept exactly when no active flag drops it: `ignore_nan` drops NaN, `ignore_zero` drops 0 |
| Decay.FilterMembers | hictools/compartment.py:50-61 | a cell is in sub_data iff it is in the diagonal and the policy keeps it |
| Decay.FilterKeepsAll | hictools/compartment.py:59-60 | when every cell is kept, sub_data is the whole diagonal |
| Decay.NanSum | hictools/compartment.py:58 | `np.nansum` is always a number |
| Decay.Mean | hictools/compartment.py:64 | no pixels give 0; otherwise the average is NaN iff the sum is, and average times count is the sum |
| Decay.Fill | hictools/compartment.py:65-67 | `a[start:end] = v` sets exactly the positions in `[start, end)` and keeps the rest |
| Decay.DecayUpTo | hictools/compartment.py:43-67 | the profile after the first m boundary pairs has one entry per offset |
| Decay.NumberUpTo | hictools/compartment.py:43-67 | the counts after the first m boundary pairs have one entry per offset |
| Decay.GetDecay | hictools/compartment.py:19-79 | the returned profile (and with `record` the counts) is the one the boundary pairs define; `ndiags` defaults to the matrix size |
| Decay.ProcessPair | hictools/compartment.py:43-67 | one pass of the outer loop turns the buffers for m pairs into the buffers for m + 1 pairs |
| Decay.GroupTotals | hictools/compartment.py:46-62 | the inner loop computes the group's sum and its kept-cell count |
| Decay.FillRange | hictools/compartment.py:65-67 | the slice assignment on the buffer leaves it equal to Fill of its old contents |
| Decay.Step | hictools/compartment.py:43-67 | a pair starting at or beyond ndiags is skipped; any other pair fills its range with the group mean and count |
| Decay.StepAt | hictools/compartment.py:43-67 | the same, offset by offset |
| Decay.Uncovered | hictools/compartment.py:38-45 | an offset that no processed pair covers keeps mean 0 and count 0 |
| Decay.InGroup | hictools/compartment.py:43-67 | with sorted boundaries an offset in pair q holds that group's mean and count, or 0 when the group starts at or beyond ndiags |
| Decay.LastOffsetUnwritten | hictools/compartment.py:15-16 | with the default boundaries the last offset, n - 1, is in no group and stays 0 with count 0 |
| Decay.OnesProfile | hictools/compartment.py:15-16 | on an all-ones n x n matrix the default boundaries give mean 1 and count n - k for every offset k below n - 1, but 0 at offset n - 1 |
| Decay.OnesProfileFixed | hictools/compartment.py:19-79 | with boundaries `0, ..., n` every offset k of the all-ones matrix gets mean 1 and count n - k |
| Decay.OnesGroup | hictools/compartment.py:46-64 | a single-offset group of the all-ones matrix has n - k cells and mean 1 |
| Decay.SumOfOnes | hictools/compartment.py:52-61 | the sum and nansum of k ones are k |
| Decay.SumOfNumbers | hictools/compartment.py:52-61 | a sum of numbers is a number |
| Decay.SumWithNaN | hictools/compartment.py:61 | `np.sum` of a vector holding NaN is NaN |
| Decay.MeanIsNumber | hictools/compartment.py:50-64 | when NaN or zero cells are ignored, every group sum and group mean is a number |
| Decay.GroupSumKeepsNaN | hictools/compartment.py:52-61 | once one offset's sum is NaN, the group sum is NaN |
| Decay.NaNPoisonsGroup | hictools/compartment.py:59-64 | with neither flag set, a single NaN cell makes the whole group's mean NaN |
| Decay.CountAtLeast | hictools/compartment.py:62 | a group's count is at least the kept cells of any one of its offsets |
| Decay.NaNCountedAsZero | hictools/compartment.py:56-58 | with only ignore_zero, a NaN cell is counted as a pixel but adds nothing to the sum |
| Sorter.MinOf | hictools/compartment.py:173 | `np.min` is an element that no element is below |
| Sorter.MaxOf | hictools/compartment.py:173 | `np.max` is an element that no element is above |
| Sorter.PosMask | hictools/compartment.py:162 | `component > 0` marks exactly the positive entries |
| Sorter.NegMask | hictools/compartment.py:163 | `component < 0` marks exactly the negative entries |
| Sorter.NonPosMask | hictools/compartment.py:175 | `~(component > 0)` marks exactly the entries at most 0 |
| Sorter.SidesNonEmpty | hictools/compartment.py:173-175 | a component with both signs has a positive maximum and non-empty A, B and non-A sides, so both ratios are defined |
| Sorter.PlausibleBand | hictools/compartment.py:176-182 | a component is plausible exactly when `0.1 <= diverse <= 10` and `1/15 <= ratio <= 15` |
| Sorter.Diverse | hictools/compartment.py:173 | `|min| / max` is non-negative, the maximum of a two-signed component being positive |
| Sorter.Ratio | hictools/compartment.py:174-175 | `#(> 0) / #(<= 0)` is positive, both sides being non-empty |
| Sorter.Plausible | hictools/compartment.py:176-182 | the plausibility test; PlausibleBand states it as two closed bands |
| Sorter.Scale | hictools/compartment.py:190 | `component * c` scales every entry by c |
| Sorter.FlipSwapsSides | hictools/compartment.py:162-190 | negating a component swaps its positive and negative masks; scaling by 1 changes nothing |
| Sorter.FlipMeans | hictools/compartment.py:160-168 | negating a component swaps mean_aa and mean_bb |
| Sorter.MeanAA | hictools/compartment.py:160-168 | the mean of corr over the positive side; FlipMeans shows negation swaps it with MeanBB |
| Sorter.MeanBB | hictools/compartment.py:160-168 | the mean of corr over the negative side; FlipMeans shows negation swaps it with MeanAA |
| Sorter.MeanAB | hictools/compartment.py:160-168 | the mean of corr between the two sides; ScoreSignFree uses that it is symmetric on a symmetric corr |
| Sorter.OrientedSideIsStronger | hictools/compartment.py:186-190 | unless mean_aa equals mean_bb, the oriented vector is still a component and its A side has the larger within-side mean |
| Sorter.TieZeroesVector | hictools/compartment.py:190 | when mean_aa equals mean_bb, `np.sign(0)` zeroes the stored vector |
| Sorter.NegateTwice | hictools/compartment.py:190 | scaling by -1 and then by -s is scaling by s, for any sign s |
| Sorter.OrientationCanonical | hictools/compartment.py:186-190 | a component and its negation are stored as the same oriented vector |
| Sorter.BlockSumTranspose | hictools/compartment.py:165-167 | on a symmetric matrix the block sum over rows R and columns C equals the one over C and R |
| Sorter.ScoreSignFree | hictools/compartment.py:186-191 | on a symmetric correlation matrix a component and its negation get the same score |
| Sorter.PrecTransitive | hictools/compartment.py:196 | the sort order (plausible first, then higher score, then original position) is transitive |
| Sorter.PrecTotal | hictools/compartment.py:196 | of two distinct indices exactly one comes first |
| Sorter.Insert | hictools/compartment.py:196 | inserting an index adds exactly that index to the multiset |
| Sorter.InsertSorted | hictools/compartment.py:196 | insertion into a sorted index list keeps it sorted |
| Sorter.SortFrom | hictools/compartment.py:196 | the first k indices sorted: a permutation of `0..k-1` in sort order |
| Sorter.SortOrder | hictools/compartment.py:196 | the order `sorted(..., reverse=True)` produces is a permutation of all indices and is sorted |
| Sorter.SortOrderMeaning | hictools/compartment.py:196 | plausible entries come before implausible ones; among equally plausible entries scores do not increase; entries with equal keys keep their input order |
| Sorter.SortOrderIsPermutation | hictools/compartment.py:196 | every index occurs exactly once in the order |
| Sorter.ScoreAllAt | hictools/compartment.py:170-194 | the k-th entry of coms is the score record of the k-th eigenvector |
| Sorter.ScoreOne | hictools/compartment.py:172-194 | the loop body computes one eigenvector's oriented vector, score and plausibility |
| Sorter.ScoreComponent | hictools/compartment.py:186-194 | one record of coms; OrientedSideIsStronger, TieZeroesVector, OrientationCanonical and ScoreSignFree state what it keeps |
| Sorter.CorrSorter | hictools/compartment.py:145-198 | the result has one vector per eigenvector: the oriented vectors taken in the sort order of their score records |
| Sorter.PlainSorter | hictools/compartment.py:201-202 | plain_sorter returns the eigenvectors unchanged |
| Decomposition.ArgMaxAbs | hictools/compartment.py:356-359 | `argmax(abs(v))` is the first position of largest absolute value |
| Decomposition.FlipColumns | hictools/compartment.py:365-368 | `U[:, :len] *= signs` multiplies column j by `signs[j]` in place |
| Decomposition.FlipRows | hictools/compartment.py:370-373 | `Vh[:len, :] *= signs[:, None]` multiplies row j by `signs[j]` in place |
| Decomposition.FlipSvd | hictools/compartment.py:350-375 | both factors are flipped in place by the signs taken from U (or from Vh) |
| Decomposition.ZeroSignZeroColumn | hictools/compartment.py:356-357 | a zero sign only comes from an all-zero column |
| Decomposition.FlipKeepsAbs | hictools/compartment.py:365-368 | flipping keeps every absolute value |
| Decomposition.FlipCanonical | hictools/compartment.py:351-352 | after the flip, the entry of largest absolute value in each column of U is non-negative and is still at the same position |
| Decomposition.SignsAfterFlip | hictools/compartment.py:351-357 | the signs of a flipped U are all 1, or 0 for zero columns |
| Decomposition.FlipIdempotent | hictools/compartment.py:350-375 | flipping a flipped decomposition again changes neither U nor Vh |
| Decomposition.SignFreeColumn | hictools/compartment.py:357 | negating a column of U negates the sign taken from it |
| Decomposition.FlipSignFree | hictools/compartment.py:351-352 | negating any columns of U, with the matching rows of Vh, before the flip gives the same flipped U and Vh: the output does not depend on the signs the solver picked |
| Decomposition.FlipKeepsProducts | hictools/compartment.py:365-373 | each product `U[i][j] * Vh[j][k]` is unchanged by the flip |
| Decomposition.FlipKeepsSvdEntry | hictools/compartment.py:365-373 | each entry of `U S Vh` is unchanged by the flip |
| Decomposition.FlipKeepsSvd | hictools/compartment.py:350-375 | the flip leaves the product `U S Vh`, the decomposed matrix, unchanged |
| Decomposition.ColumnMeans | hictools/compartment.py:342 | one mean per column |
| Decomposition.Centered | hictools/compartment.py:343 | `mat - mean` subtracts each column's mean from its column |
| Decomposition.CenterRoundTrip | hictools/compartment.py:235-240 | adding the mean back to the centred matrix gives the original matrix |
| Decomposition.CenteredColumnsSumToZero | hictools/compartment.py:342-343 | every column of the centred matrix sums to 0 |
| Decomposition.VarianceOf | hictools/compartment.py:258-262 | `S**2 / (nrow - 1)` has one non-negative entry per singular value |
| Decomposition.Divide | hictools/compartment.py:271 | dividing by the total gives NaN entries exactly when the total is 0 |
| Decomposition.RatioRead | hictools/compartment.py:266-272 | variance_ratio as written succeeds iff the ratio or the variance is cached; otherwise it raises TypeError but leaves the variance cached; a cached ratio is returned as it is |
| Decomposition.RetryAfterTypeError | hictools/compartment.py:270-271 | on a fresh object the first read fails with TypeError and the second returns the ratios |
| Decomposition.RatioIsShareOfSquares | hictools/compartment.py:266-271 | the ratios are `S[j]**2 / sum(S**2)`, NaN when that sum is 0 |
| Decomposition.SharesSumToOne | hictools/compartment.py:271 | shares of a positive total are non-negative numbers summing to 1 |
| Decomposition.RatiosSumToOne | hictools/compartment.py:266-272 | when some singular value is non-zero, the variance ratios are non-negative and sum to 1 |
| Decomposition.ProjectBackSplit | hictools/compartment.py:331-333 | projecting onto two blocks of components and back is the sum of the two projections |
| Decomposition.Pca.constructor | hictools/compartment.py:209-347 | stores the shape, column means, centred matrix and flipped SVD; the flip keeps `U S Vh`; both caches start empty |
| Decomposition.Pca.Mat | hictools/compartment.py:235-240 | `center + mean` has the original shape |
| Decomposition.Pca.ShrinkC | hictools/compartment.py:290-302 | succeeds iff `1 <= n <= ncol`, with n defaulting to ncol, else ValueError; an nrow x n matrix |
| Decomposition.Pca.ShrinkR | hictools/compartment.py:304-316 | succeeds iff `1 <= n <= nrow`, with n defaulting to nrow, else ValueError; an n x ncol matrix |
| Decomposition.Pca.Transform | hictools/compartment.py:274-279 | shrink_c with n_components: defined iff the matrix has a column; nrow x n_components |
| Decomposition.Pca.InverseTransform | hictools/compartment.py:281-288 | succeeds iff A has n_components columns, else ValueError; one row per row of A, ncol wide |
| Decomposition.Pca.Reconstruct | hictools/compartment.py:318-333 | `(start, end)`, or `(0, start)` when end is None, succeeds iff `0 <= start < end <= ncol`, else IndexError |
| Decomposition.Pca.ShrinkCPrefix | hictools/compartment.py:290-302 | shrinking to a columns is the first a columns of shrinking to b |
| Decomposition.Pca.ShrinkRPrefix | hictools/compartment.py:304-316 | shrinking to a rows is the first a rows of shrinking to b |
| Decomposition.Pca.TransformRoundTrip | hictools/compartment.py:274-333 | `inverse_transform(transform())` is `reconstruct(n_components)` |
| Decomposition.Pca.ReconstructSplit | hictools/compartment.py:331-333 | reconstructing from `s..e` is the sum of reconstructing from `s..m` and `m..e`, minus one copy of the mean |
| Decomposition.Pca.Variance | hictools/compartment.py:256-263 | returns `S**2 / (nrow - 1)` and caches it; the ratio cache is untouched |
| Decomposition.Pca.VarianceRatioAsWritten | hictools/compartment.py:265-272 | variance_ratio as written: result and new variance cache as RatioRead gives them; the ratio is cached only on success |
| Decomposition.Pca.VarianceRatio | hictools/compartment.py:265-272 | variance_ratio as documented: returns `variance / sum(variance)` and caches both |
| Slicing.FillSlice | hictools/compartment.py:381-394 | an integer i becomes the one-element span `i:i+1:1`; a slice keeps its step, or gets 1 when it has none |
| Slicing.FillIntSelectsOne | hictools/compartment.py:382-383 | the span from an in-range integer selects exactly that element |
| Slicing.FillKeepsForwardSelection | hictools/compartment.py:384-392 | for a forward slice, filling in the defaults does not change what it selects |
| Slicing.AxisSlices | hictools/compartment.py:396-404 | the items of a key of slices are all slices |
| Slicing.IsSlices | hictools/compartment.py:397-404 | a key is served only when it is a slice or a tuple of slices; CheckSlices gives TypeError otherwise |
| Slicing.CheckSlices | hictools/compartment.py:406-434 | a key that is not slices gives TypeError; fewer than two slices give ValueError; a reversed span gives ValueError; otherwise the two filled spans, a single slice serving both axes |
| Slicing.MakeToeplitz | hictools/compartment.py:425-427 | the row defaults to the column |
| Slicing.Expected | hictools/compartment.py:465-469 | an Expected view has the decay profile as both column and row |
| Slicing.ToeplitzMatrix | hictools/compartment.py:460 | `scipy.linalg.toeplitz(c, r)` has entry `c[i - j]` on and below the diagonal and `r[j - i]` above it |
| Slicing.Assemble | hictools/compartment.py:460-462 | a zero step raises ValueError; otherwise a 1 x 1 result is flattened and anything else is a matrix |
| Slicing.Corner | hictools/compartment.py:439-441 | the 1 x 1 path succeeds iff the index is in range, reading from the end for negative indices, else IndexError |
| Slicing.GetItem | hictools/compartment.py:429-462 | `__getitem__` as written: key errors pass through; a 1 x 1 block is a scalar |
| Slicing.GetItemFixed | hictools/compartment.py:429-462 | corrected `__getitem__`: key errors pass through; a 1 x 1 block is a scalar |
| Slicing.ServeSpans | hictools/compartment.py:435-462 | the serving code as written: a scalar exactly for a 1 x 1 request, and otherwise ValueError exactly for a zero step |
| Slicing.ServeSpansFixed | hictools/compartment.py:435-462 | the same shape and error rules for the corrected serving code |
| Slicing.LeadColumn | hictools/compartment.py:444-453 | `varray` as written: past the diagonal it reads `row`; ColumnContinuesFromRow shows the wrong entry |
| Slicing.LeadRow | hictools/compartment.py:444-458 | `harray` as written: past the diagonal it reads `col`; RowContinuesFromCol shows the wrong entry |
| Slicing.LeadColumnFixed | hictools/compartment.py:444-453 | the corrected `varray`; ColumnAboveDiagonal and ColumnBelowDiagonal show it is the block's first column |
| Slicing.LeadRowFixed | hictools/compartment.py:444-458 | the corrected `harray`; RowAboveDiagonal and RowBelowDiagonal show it is the block's first row |
| Slicing.DiagIsEntry | hictools/compartment.py:422-427 | every entry of the Toeplitz matrix is determined by its diagonal `i - j` |
| Slicing.ExpectedDiag | hictools/compartment.py:465-469 | diagonal k of an Expected view holds `decay[abs(k)]` |
| Slicing.BackRunAt | hictools/compartment.py:446-454 | `a[:n + 1][::-1][:-1]` is `a[n], a[n - 1], ..., a[1]` |
| Slicing.ReflectedAt | hictools/compartment.py:446-458 | the lead run is the reflected part followed by the continuation, cut to the requested length |
| Slicing.ColumnAboveDiagonal | hictools/compartment.py:444-450 | when the block starts on or above the diagonal, the corrected lead column holds the matrix's first block column |
| Slicing.ColumnBelowDiagonal | hictools/compartment.py:451-453 | when the block starts below the diagonal, the lead column `col[n:n+height]` holds the first block column |
| Slicing.RowAboveDiagonal | hictools/compartment.py:444-445 | when the block starts on or above the diagonal, the lead row `row[n:n+width]` holds the first block row |
| Slicing.RowBelowDiagonal | hictools/compartment.py:451-458 | when the block starts below the diagonal, the reflected lead row holds the first block row |
| Slicing.StridedMatrix | hictools/compartment.py:460 | the Toeplitz matrix of the strided lead runs is the strided block of the view |
| Slicing.AssembleFixed | hictools/compartment.py:444-462 | with equal positive steps the corrected lead runs assemble into the requested block |
| Slicing.BlockKeyReads | hictools/compartment.py:429-437 | a two-slice key reaches the serving code with its filled spans |
| Slicing.BlockRead | hictools/compartment.py:429-462 | for any in-range block with equal positive steps, corrected `__getitem__` returns the block of the Toeplitz matrix: its entry `[i][j]` is the matrix entry at row `r0 + i*s`, column `c0 + j*s`, as a scalar, flat or dense result as the source shapes it |
| Slicing.ExpectedBlock | hictools/compartment.py:465-469 | the same for an Expected view, whose entries are `decay[abs(i - j)]` |
| Slicing.GetItemAgreesWhenSymmetric | hictools/compartment.py:429-462 | on a view with equal column and row, the code as written agrees with the corrected one except on 1 x 1 requests below the diagonal |
| Slicing.ScalarBelowDiagonalWraps | hictools/compartment.py:439-441 | `Expected([1, 2, 3])[1:2, 0:1]` gives 3 as written; the corrected read gives 2 |
| Slicing.ColumnContinuesFromRow | hictools/compartment.py:446-448 | `Toeplitz([1, 2, 3], [1, 5, 6])[0:3, 1:2]` gives `[[5], [1], [5]]` as written; the corrected read gives `[[5], [1], [2]]` |
| Slicing.RowContinuesFromCol | hictools/compartment.py:455-456 | `Toeplitz([1, 2, 3], [1, 5, 6])[1:2, 0:3]` gives `[[2, 1, 2]]` as written; the corrected read gives `[[2, 1, 5]]` |
| Slicing.BlockPastTheEnd | hictools/compartment.py:381-394 | an unclamped stop past the end gives a wrongly shaped block: `Expected([1, 2, 3])[1:5, 0:5]` is `[[2, 1, 2, 3], [3, 2, 1, 2]]` both as written and corrected, while the matrix rows are `[2, 1, 2]` and `[3, 2, 1]` |

## Left out

- `eig`, `pca`, `get_pca_compartment` and `get_eigen_compartment` (compartment.py:82-142) are wrappers around numpy and scipy eigen-solvers. They are not modelled.
- The SVD itself (compartment.py:344) is not modelled. `Pca.constructor` takes U, S and Vh as parameters. Nothing here proves that they form an SVD of the centred matrix, so round trips that need orthogonality (`inverse_transform(transform())` equal to the matrix) are out of reach. `TransformRoundTrip` relates the operations to each other instead.
- `Pca.components` and `Pca.singular_values` return stored fields. They are the class fields `Vh` and `S`.
- `Decomposition.Pca.Variance`, `Decomposition.Pca.VarianceRatio`, `Decomposition.Pca.VarianceRatioAsWritten`, `Decomposition.RatioRead` and `Decomposition.RetryAfterTypeError`: require `nrow >= 2`. With one row numpy divides by zero and returns inf or NaN. IEEE infinities are not modelled.
- `Decomposition.FlipSvd`: requires a square U, as `full_matrices=True` gives. With U-based signs, the only call (compartment.py:345), `signs` has one entry per column of U, so the `len_signs > len_u` branch at line 365 cannot run there. With Vh-based signs it runs whenever Vh has more rows than U; `FlipColumns` models that branch by clipping the signs, as `FlipRows` does for the `len_signs > len_vh` branch at line 370.
- `Sorter.CorrSorter`: requires a correlation matrix. The `corr is None` path (compartment.py:184-185) computes a value that is then thrown away and goes on with `corr = None`. It is left out.
- `Sorter.CorrSorter`: `corr` and the eigenvectors are NaN-free reals. A NaN correlation, as an all-zero row gives, is not modelled. In the source it makes the block mean NaN (compartment.py:165-167), `np.sign` then turns the stored vector into NaN (line 190), the score becomes NaN (line 191), and `sorted` on NaN keys (line 196) gives an order that depends on the input order.
- `Sorter.CorrSorter`: requires every eigenvector to have both a positive and a negative entry. Otherwise `np.mean` of an empty block is NaN, and an eigenvector with no entry `<= 0` makes the division of the two counts `len(...) / len(...)` at compartment.py:175 raise ZeroDivisionError. Neither is modelled.
- `Decay.GetDecay`: requires boundaries within `[0, n]`. numpy's clipping of out-of-range slice bounds and `diagonal` on negative offsets are not modelled. The `span_fn` parameter is replaced by the boundary list it returns.
- `Decay.GetDecay`: the result is exact real arithmetic. With an integer matrix numpy would truncate the averages to the matrix dtype; that is not modelled.
- `Utils.FillFlat`, `Utils.FillDiag` and `Utils.FillDiagFixed`: treat `mat` as a C-contiguous buffer that `ravel()` views. For a non-contiguous array (a transpose, a strided view, Fortran order) `ravel()` returns a copy, so with `copy=False` the source writes nothing and returns `mat` unchanged. The model always writes and does not capture that lost write.
- `Utils.IsSymmetric`: the sparse branch (utils.py:305-308) is left out. Non-square and non-2-D dense arrays are left out too. Most raise a broadcasting ValueError, but 1 x n and n x 1 arrays broadcast against their transpose and get a boolean answer, and a 1-D array is its own transpose and gets True.
- `Utils.MaskArgs`: mask_array and index_array are generators yielding tuples. The model returns a sequence.
- `Slicing.BlockRead`: requires `col[0] == row[0]`, the convention `scipy.linalg.toeplitz` assumes. Blocks whose two slices have different steps are only modelled by `GetItem`, without a theorem. Negative steps are also outside `BlockRead`: they pass the `start <= stop` check, and `__getitem__` then serves reversed lead runs that no theorem here covers.
- `Slicing.BlockRead` and `Slicing.ExpectedBlock`: require the block to lie inside the matrix (`0 <= r0 < r1 <= len(col)`, `0 <= c0 < c1 <= len(row)`). `_fill_slice` (compartment.py:381-394) neither normalises a negative start nor clamps a stop past the end. So for such keys both the code as written and `GetItemFixed` return a block of the wrong shape, and no corrected reading is modelled. `BlockPastTheEnd` shows one: `Expected([1, 2, 3])[1:5, 0:5]` gives `[[2, 1, 2, 3], [3, 2, 1, 2]]`, where the matrix holds `[[2, 1, 2], [3, 2, 1]]`. Likewise `[-1:3, 0:3]` yields a 4 x 2 block, and `[5:6, 5:6]` yields `row[0]` rather than an empty block.
- Floating point in general: all arithmetic is on exact reals plus NaN. Tolerances, rounding and infinities are not modelled.
- `auto_open`, `stream_to_file`, `RayWrap`, `mimic_method`, `get_logger`, `records2bigwigs`, the `LazyProperty`/`lazy_method`/`suppress_warning` decorators and the hgserver package are I/O, concurrency or logging. They are not part of this model.

## Findings

| source | as written | input that shows it | evidently intended | confidence | as-written member | corrected member |
|---|---|---|---|---|---|---|
| hictools/utils.py:281-284 | the tests for the two ends sit inside the loop, so with fewer than three gap indices nothing is ever recorded | `remove_small_gap([True, False, True])` returns the mask unchanged | both isolated gaps cleared: `[False, False, False]` | medium, not executed | Utils.RemoveSmallGap, Utils.LoneGapPairKept | Utils.SmallGapsRemoved, Utils.SmallGapsRemovedNoIsolated, Utils.SmallGapsRemovedIdempotent |
| hictools/compartment.py:15-16 | the default boundaries `0, 0, 1, ..., n-1` form an empty first group and never reach offset n - 1 | `get_decay` of an all-ones n x n matrix leaves offset n - 1 at 0 with count 0 | every offset gets its own group; the all-ones profile is 1 everywhere | medium, not executed | Decay.LinearBins, Decay.OnesProfile, Decay.LastOffsetUnwritten | Decay.LinearBinsFixed, Decay.OnesProfileFixed |
| hictools/compartment.py:271 | the line divides the cache `_variance` before `self.variance` has filled it | on a fresh `Pca`, reading `variance_ratio` first raises TypeError (None divided by a float); a second read succeeds | `variance / variance.sum()` returned on the first read | high, not executed | Decomposition.Pca.VarianceRatioAsWritten, Decomposition.RatioRead, Decomposition.RetryAfterTypeError | Decomposition.Pca.VarianceRatio, Decomposition.RatiosSumToOne, Decomposition.RatioIsShareOfSquares |
| hictools/compartment.py:439-441 | below the diagonal the 1 x 1 path reads `col[n_diags]` with a negative `n_diags`, which counts from the end | `Expected([1, 2, 3])[1:2, 0:1]` gives 3 | the entry at row 1, column 0: 2 | high, not executed | Slicing.GetItem, Slicing.ScalarBelowDiagonalWraps | Slicing.GetItemFixed, Slicing.BlockRead, Slicing.ExpectedBlock |
| hictools/compartment.py:444-448 | above the diagonal the lead column continues with `row[:height - n_diags]` instead of the column | `Toeplitz([1, 2, 3], [1, 5, 6])[0:3, 1:2]` gives `[[5], [1], [5]]` | `[[5], [1], [2]]`, the second column of the Toeplitz matrix | high, not executed | Slicing.GetItem, Slicing.ColumnContinuesFromRow | Slicing.GetItemFixed, Slicing.BlockRead |
| hictools/compartment.py:455-456 | below the diagonal the lead row continues with `col[:width - n_diags]` instead of the row | `Toeplitz([1, 2, 3], [1, 5, 6])[1:2, 0:3]` gives `[[2, 1, 2]]` | `[[2, 1, 5]]`, the second row of the Toeplitz matrix | high, not executed | Slicing.GetItem, Slicing.RowContinuesFromCol | Slicing.GetItemFixed, Slicing.BlockRead |
| hictools/utils.py:329-332 | the stop of the flat slice is `max(0, length - offset)`, not that times the length, so the stride stops inside the first row | `fill_diag` of a 3 x 3 array with offset 1 writes only `[0, 1]`, not `[1, 2]` | every cell of the `offset` diagonal written | high, not executed | Utils.FillDiag, Utils.FillDiagAtMostOne, Utils.FillDiagThreeByThree | Utils.FillDiagFixed, Utils.FillDiagFixedCell |
