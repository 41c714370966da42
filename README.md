# SUGAR core in Dafny

This project models the numerical core of `sk_sugar`, a Python implementation of
SUGAR (Synthesis Using Geometrically Aligned Random-walks). SUGAR fills sparse regions
of a data set with new points in three steps:

1. It estimates the density of every point from a Gaussian kernel: the degree `d_hat`
   and the sparsity `s_hat = 1 / d_hat`.
2. From the degrees it computes how many points to generate around each point
   (`numpts`), then draws Gaussian points around replicated centres (`generate`).
3. It corrects the new points by diffusion through the original points, using the
   measure-based Gaussian correlation kernel and MAGIC (`mgc_magic`, `magic`).

The modules follow the functions of `sk_sugar/core.py`:

| module | file | models |
|---|---|---|
| `Errors` | errors.dfy | the exceptions the code raises, as a `Result` |
| `ExtReals` | ext.dfy | IEEE division, with its infinities and NaN, on extended reals |
| `Matrices` | matrices.dfy | numpy sums, transposes, matrix products and symmetrisation |
| `Sorting` | sorting.dfy | `np.sort`, minimum, maximum and rank counts |
| `Sigma` | sigma.dfy | `validate_sigma` |
| `Kernel` | kernel.dfy | `gauss_kernel`: bandwidths `knn`, `minmax`, `median`, `std`, number and callable; decay; clean-up; symmetrisation |
| `Degrees` | degrees.dfy | `degrees` |
| `FeatureScaling` | feature_scale.dfy | `feature_scale` |
| `Budget` | budget.dfy | `numpts` |
| `Generate` | generate.dfy | `generate` with local covariances |
| `Percentile` | percentile.dfy | `matlab_percentile` |
| `Magic` | magic.dfy | `magic` |
| `MgcMagic` | mgc.dfy | `mgc_magic` |

Some modelling choices:

- Matrices are sequences of rows, and their shape is passed alongside. This keeps a
  0 x c matrix distinct from a c x 0 one.
- The functions raise exceptions; the model returns an `Err` on exactly those inputs.
- Loops in the source are `method`s in the model:
  - the per-point estimate loop of `numpts`;
  - the replication loop of `generate`;
  - the diffusion loop of `magic`;
  - the masked writes `K[...] = 0` of `gauss_kernel`.

  Each method is proved equal to a specification function, and the properties are
  proved about that function.
- External inputs become parameters of the model:
  - the pairwise distances (`cdist`);
  - the decay `exp(-(d/sigma)^a)`;
  - the `std` bandwidth, which needs a square root;
  - the determinant or power factor of density equalisation, an abstract non-negative
    weight per point;
  - the Gaussian draw `np.random.multivariate_normal`.

Where the documentation of the functions and their code disagree, the model follows the code:

- The type annotation of `sigma` lists `"minimax"`, but `validate_sigma` accepts only
  `"minmax"` (core.py:38-39, 68-75). `Sigma.MinimaxRejected` states it.
- `degrees` scales the degrees by `data.shape[1]`, the number of features, so they add
  up to the feature count and not to the number of points (core.py:241, 246).
- The docstring of `mgc_magic` says nothing is done for `t = 0`. The code logs, still
  builds both kernels (so an invalid `sigma` still raises) and calls `magic` with no
  diffusion step (core.py:687-702). `MgcMagic.NoDiffusion` states this.

One place departs from the code on purpose. `generate` does not pair every copy of a
point with that point's covariance matrix, which is evidently what it means to do (see
Findings). The model of `generate` uses the intended pairing, and the code as written is
modelled separately by `Generate.TiledCovariances`.

## Model

| member | source | states |
|---|---|---|
| Sigma.ValidateSigma | sk_sugar/core.py:68-75 | a sigma is accepted exactly when it is one of the names minmax, median, std, knn, a callable or a number; anything else raises ValueError |
| Sigma.MinimaxRejected | sk_sugar/core.py:38-39 | "minimax", the spelling in the type annotation, is refused and "minmax" accepted |
| Kernel.PyIndex | sk_sugar/core.py:158 | indexing an axis of length n succeeds exactly for -n <= k < n, counting negative k from the end, and raises IndexError otherwise |
| Kernel.KnnBandwidth | sk_sugar/core.py:155-158 | the knn bandwidth exists exactly when k is a valid row index, and it holds one value per column |
| Kernel.KnnRank | sk_sugar/core.py:156-158 | column j's knn bandwidth is a distance of that column with at most idx distances strictly below it and at least idx + 1 at or below it |
| Kernel.KnnNearest | sk_sugar/core.py:156-158 | with k = 0 each column's bandwidth is its smallest distance |
| Kernel.KnnFarthest | sk_sugar/core.py:156-158 | with k = -1 each column's bandwidth is its largest distance |
| Kernel.KnnSelfDistance | sk_sugar/core.py:155-158 | on a self-distance matrix k = 0 gives every point bandwidth 0 |
| Kernel.MinMaxBandwidth | sk_sugar/core.py:140-143 | minmax needs a non-empty square matrix (a mismatch raises a shape error, an empty one an empty reduction) and gives a non-negative scalar |
| Kernel.OffsetColumnMin | sk_sugar/core.py:141 | with distances below 10^15 the offset keeps the diagonal out, so each column minimum is the distance to the nearest other point |
| Kernel.MinMaxCovers | sk_sugar/core.py:141-142 | every point has another point within the minmax radius eps |
| Kernel.MinMaxTight | sk_sugar/core.py:141-142 | some point has no other point closer than eps, so no smaller radius covers all points |
| Kernel.MinMaxSinglePoint | sk_sugar/core.py:141-143 | for a single point the offset 10^15 stays in the radius: sigma = 2 (d + 10^15)^2 |
| Kernel.MedianBounds | sk_sugar/core.py:147 | the median lies between the minimum and the maximum |
| Kernel.MedianPermutation | sk_sugar/core.py:147 | the median depends only on the multiset of values |
| Kernel.MedianHalves | sk_sugar/core.py:147 | at least half of the values are at or below the median and at least half at or above it |
| Kernel.MedianBandwidth | sk_sugar/core.py:146-147 | the median bandwidth is NaN exactly when the distance matrix has no entry, and a scalar otherwise |
| Kernel.MedianBandwidthBounds | sk_sugar/core.py:146-147 | the median of the row medians stays within any bounds on the distances |
| Kernel.ComputeBandwidth | sk_sugar/core.py:140-167 | every bandwidth chosen broadcasts against the columns, and an invalid sigma raises before any bandwidth is computed |
| Kernel.Decayed | sk_sugar/core.py:172-173 | a NaN bandwidth makes every decayed entry NaN |
| Kernel.CleanEntry | sk_sugar/core.py:175-176 | after the clean-up an entry is 0 or at least 1e-3; entries of at least 1e-3 are kept, and any non-zero result is the decayed value |
| Kernel.Threshold | sk_sugar/core.py:175-176 | the cleaned kernel is non-negative and each entry is the clean-up of its decayed value |
| Kernel.ThresholdInPlace | sk_sugar/core.py:175-176 | the two masked writes, done in place on the array, leave each entry as the clean-up of its old value |
| Kernel.GaussKernel | sk_sugar/core.py:133-181 | an invalid sigma raises; otherwise the kernel has the distance matrix's shape, is non-negative, and is symmetric when square |
| Kernel.KernelEntriesCleaned | sk_sugar/core.py:175-179 | before symmetrisation every entry is 0 or at least 1e-3, and a non-square kernel is returned unsymmetrised |
| Kernel.KernelSymmetrised | sk_sugar/core.py:178-179 | a square kernel is the average of the cleaned kernel and its transpose |
| Kernel.KernelUnitRange | sk_sugar/core.py:172-179 | when none of the decayed values formed for the kernel exceeds 1, every kernel entry lies in [0, 1] |
| Kernel.StdKernel | sk_sugar/core.py:150-172 | the std bandwidth is used as computed, times fac, exactly when it broadcasts against the columns; otherwise the division raises a shape error |
| Kernel.CallableKernel | sk_sugar/core.py:164-172 | a callable's bandwidth sigma(D) is used as returned, times fac, exactly when it broadcasts against the columns; otherwise the division raises a shape error |
| Kernel.KnnKernel | sk_sugar/core.py:155-169 | the knn kernel exists exactly for a valid k, and its bandwidth is the knn bandwidth times fac |
| Kernel.NumberKernel | sk_sugar/core.py:161-169 | a number is used as the bandwidth times fac and never fails |
| Degrees.NormaliseSum | sk_sugar/core.py:246 | with a non-zero total the normalised values are finite and add up to the multiplier |
| Degrees.DegreesSumToDim | sk_sugar/core.py:245-246 | with a non-zero total the degrees are finite and add up to `data.shape[1]` |
| Degrees.SparsityInverse | sk_sugar/core.py:246-247 | wherever d_hat is finite and non-zero, s_hat * d_hat = 1 |
| Degrees.IsolatedPoint | sk_sugar/core.py:245-247 | a point whose column sums to 0 has degree 0 and infinite sparsity |
| Degrees.DegreesOfNonNegativeKernel | sk_sugar/core.py:245-247 | with a non-zero total the degrees are non-negative; with a zero total every degree and sparsity is NaN |
| Degrees.Degrees | sk_sugar/core.py:240-248 | degrees succeed exactly when the kernel does, an invalid sigma raises, and s_hat is the reciprocal of d_hat |
| Degrees.DegreesNormalised | sk_sugar/core.py:240-248 | for a kernel that is not all zero the degrees are finite, non-negative and add up to the feature count |
| FeatureScaling.FeatureScale | sk_sugar/core.py:294-296 | feature scaling fails exactly on an empty vector and keeps the length |
| FeatureScaling.RescaleRange | sk_sugar/core.py:295 | bounds lo < hi map [lo, hi] onto [0, 1], lo to 0 and hi to 1 |
| FeatureScaling.FeatureScaleRange | sk_sugar/core.py:294-296 | a non-constant vector is mapped onto [0, 1], its minimum to 0 and its maximum to 1 |
| FeatureScaling.RescaleMonotone | sk_sugar/core.py:295 | with lo < hi rescaling keeps the order of the entries |
| FeatureScaling.FeatureScaleMonotone | sk_sugar/core.py:294-296 | feature scaling keeps the order of the entries |
| FeatureScaling.FeatureScaleConstant | sk_sugar/core.py:294-296 | a constant vector becomes all NaN (0 / 0) |
| Budget.Distances | sk_sugar/core.py:409 | max(d) - d_i is never negative |
| Budget.Estimates | sk_sugar/core.py:367-410 | every number estimate, with or without equalisation, is non-negative |
| Budget.NumPtsSpec | sk_sugar/core.py:362-422 | numpts fails exactly on an empty degree vector and otherwise gives one count per point |
| Budget.NumPts | sk_sugar/core.py:362-384 | the loop filling the estimates one point at a time computes numpts |
| Budget.FloorsSum | sk_sugar/core.py:398-412 | the floors add up to at most the sum and to more than the sum minus the length |
| Budget.ScaledSum | sk_sugar/core.py:397-412 | the scaled counts add up to at most their unfloored total and to more than it minus N |
| Budget.UnflooredTotal | sk_sugar/core.py:397-410 | the unfloored total is M * S / (S + 1e-17) and at most M for M >= 0 |
| Budget.ShareBelowOne | sk_sugar/core.py:397-410 | the guard 1e-17 keeps S / (S + 1e-17) in [0, 1) |
| Budget.FinishCounts | sk_sugar/core.py:414-422 | the counts are the floored ones whenever the zero fallback does not apply |
| Budget.Unequalised | sk_sugar/core.py:403-412 | without equalisation the estimates are max(d) - d_i, and the counts are finished from them with no density weight |
| Budget.DefaultTarget | sk_sugar/core.py:405-407 | without equalisation an omitted M (0) means M = N |
| Budget.CountFormula | sk_sugar/core.py:409-412 | without equalisation each count is floor((max(d) - d_i) * M / (S + 1e-17)) unless every count was 0 |
| Budget.ScaledSigns | sk_sugar/core.py:397-412 | for M >= 0 no scaled count is negative, and a zero estimate gets none |
| Budget.CountsWithoutEqualisation | sk_sugar/core.py:404-422 | without equalisation and for M >= 0 no count is negative, and a point of maximal degree gets no points unless the fallback applies |
| Budget.TotalAtMostTarget | sk_sugar/core.py:404-422 | without equalisation and for M >= 0 the counts add up to at most M (N when omitted) unless the fallback applies |
| Budget.TotalNearTarget | sk_sugar/core.py:404-422 | without equalisation the counts add up to more than their unfloored total minus N unless the fallback applies |
| Budget.ZeroFallback | sk_sugar/core.py:414-417 | when the floored counts add up to 0 every point gets one point, with a warning |
| Budget.WarningsAreAdvisory | sk_sugar/core.py:414-422 | warnings do not change the counts: whenever the floored counts are not all 0 they are returned as they are, and the overflow warning is logged exactly when they add up to more than 10^4 |
| Budget.UnderConstrainedWarning | sk_sugar/core.py:387-396 | with equalisation the under-constrained warning is logged exactly when M is given and M / S < 0.1 with IEEE division |
| Generate.Step | sk_sugar/core.py:484-498 | one pass of the loop succeeds exactly when npts[i] and labels[i] exist and a point with copies has a reshapable covariance; its copies are paired with noise_cov[i] as intended (see Findings) |
| Generate.RunGenerate | sk_sugar/core.py:484-512 | the loop appending centres, covariances and labels, then drawing one point per centre, computes generate with the intended covariance pairing (see Findings) |
| Generate.SourcesShape | sk_sugar/core.py:484-498 | there are np.sum(npts) copies, each from a point before n with a non-zero count |
| Generate.SourcesBlock | sk_sugar/core.py:484-502 | the copies of point i sit together, right after those of the earlier points |
| Generate.SourcesGrouped | sk_sugar/core.py:484-502 | the copies follow the order of the data |
| Generate.SourcesCount | sk_sugar/core.py:486-497 | point i is the source of exactly npts[i] copies, and a point with no copies is the source of none |
| Generate.ReplicateAdmissible | sk_sugar/core.py:484-498 | the loop gets past the first n points exactly when each of them is admissible |
| Generate.FailurePersists | sk_sugar/core.py:484-498 | once a point raises, generate raises that exception |
| Generate.ReplicateCovariances | sk_sugar/core.py:495-501 | the j-th replicated covariance is the covariance of the j-th copy's source, the pairing intended at line 497 (see Findings) |
| Generate.ReplicateCentres | sk_sugar/core.py:486-502 | the j-th replicated centre is the data row of the j-th copy's source; with no features no point may have copies |
| Generate.ReplicateLabels | sk_sugar/core.py:487-489 | with labels, labels_out nests one pair per point and lists the label of every copy's source; without labels it stays [] |
| Generate.GenerateReplicates | sk_sugar/core.py:484-513 | generate succeeds exactly when every point is admissible and some count is non-zero; then it draws np.sum(npts) points, the j-th around the j-th copy's data row with that source's covariance |
| Generate.GenerateBlocks | sk_sugar/core.py:484-513 | the points come in blocks in the order of the data, the block of point i holding npts[i] draws around data[i] with noise_cov[i], as intended at line 497 (see Findings) |
| Generate.GenerateLabels | sk_sugar/core.py:487-513 | the labels returned give, for every point drawn, the label of its source |
| Generate.TiledCovariances | sk_sugar/core.py:497 | the tile and reshape, as written, yield npts[i] blocks, one per copy |
| Generate.TiledCovariancesScramble | sk_sugar/core.py:497 | as written, with D >= 2 and two or more copies the first block's second row is noise_cov[i]'s first row, so the block is not noise_cov[i] when those rows differ |
| Generate.TiledCovariancesExample | sk_sugar/core.py:497 | as written, [[1, 2], [3, 4]] with two copies gives [[1, 2], [1, 2]] and [[3, 4], [3, 4]], not two copies of the matrix |
| Percentile.MatlabPercentile | sk_sugar/core.py:540-543 | a percentile exists exactly for a non-empty vector; `data[0]` of an empty one raises IndexError |
| Percentile.PositionOfRank | sk_sugar/core.py:541-542 | the rank 100 (i + 0.5) / n of the i-th value sits at interpolation position i |
| Percentile.PositionMonotone | sk_sugar/core.py:541-542 | the position grows strictly with the percentile |
| Percentile.RankBounds | sk_sugar/core.py:541-542 | a percentile lies below the first rank exactly when its position is below 0, and at or above the last rank exactly when its position is at or above n - 1 |
| Percentile.InterpBetween | sk_sugar/core.py:542 | between two ranks the interpolation lies between the two sorted values around it |
| Percentile.InterpBounds | sk_sugar/core.py:542 | on sorted values the interpolation lies between the first and the last |
| Percentile.InterpAtIndex | sk_sugar/core.py:542 | at a whole position i the interpolation is the i-th value |
| Percentile.InterpMonotone | sk_sugar/core.py:542 | on sorted values the interpolation does not decrease with the position |
| Percentile.PercentileBounds | sk_sugar/core.py:540-543 | every percentile lies between the minimum and the maximum |
| Percentile.PercentileLeft | sk_sugar/core.py:542 | below the first rank 50 / n the percentile is the minimum (`left=data[0]`) |
| Percentile.PercentileRight | sk_sugar/core.py:542 | at or above the last rank the percentile is the maximum (`right=data[-1]`) |
| Percentile.PercentileAtRank | sk_sugar/core.py:540-543 | at the rank of the i-th smallest value the percentile is that value |
| Percentile.PercentileMonotone | sk_sugar/core.py:540-543 | percentiles do not decrease as p grows |
| Percentile.PercentilePermutation | sk_sugar/core.py:540 | the percentile depends only on the values, not on their order |
| Percentile.PercentileScale | sk_sugar/core.py:540-543 | scaling the values by c > 0 scales every percentile by c |
| Magic.MagicSpec | sk_sugar/core.py:582-612 | magic raises a shape error exactly when a step is asked for and neither dimension of the data matches the kernel; with rescaling, data without features raises in `apply_along_axis` and data without points raises IndexError at `data[0]`; otherwise it succeeds, the imputed data has the oriented data's shape and the operator is diag(inverse row sums) @ kernel |
| Magic.RunMagic | sk_sugar/core.py:596-612 | the loop applying the operator t times and then rescaling computes magic |
| Magic.OperatorEntry | sk_sugar/core.py:590-594 | each operator entry is the kernel entry times its row's inverse sum |
| Magic.OperatorRowSums | sk_sugar/core.py:590-594 | every kernel row with a non-zero sum becomes a row summing to 1, and a zero row stays all zero |
| Magic.OperatorUnitRange | sk_sugar/core.py:590-594 | the operator of a non-negative kernel has its entries in [0, 1] |
| Magic.DotAverage | sk_sugar/core.py:599-600 | non-negative weights adding up to 1, applied to values in [lo, hi], give a value in [lo, hi] |
| Magic.StepWithin | sk_sugar/core.py:599-600 | a step of a non-negative operator with no zero row keeps the data within its bounds |
| Magic.DiffuseWithin | sk_sugar/core.py:598-600 | any number of steps keeps the data within its bounds |
| Magic.NoStepsNoChange | sk_sugar/core.py:596-600 | with t <= 0 and no rescale the data comes back unchanged, apart from its orientation |
| Magic.OrdinaryData | sk_sugar/core.py:582-600 | data whose rows match the kernel is kept, and without rescaling the imputed data is the operator applied t times to it |
| Magic.TransposedData | sk_sugar/core.py:582-600 | data given features by points is transposed and then diffused |
| Magic.RescaleRestoresPercentile | sk_sugar/core.py:603-610 | rescaling a feature by a positive finite ratio restores the data's 95th percentile in that column |
| MgcMagic.MeasureWeighted | sk_sugar/core.py:694 | weighting by s_hat succeeds exactly when its length is the column count or 1, and raises a shape error otherwise |
| MgcMagic.Compose | sk_sugar/core.py:694-700 | the composed kernel exists exactly for a broadcastable s_hat and is square and symmetric |
| MgcMagic.MgcKernel | sk_sugar/core.py:690-700 | an invalid sigma raises, and the MGC kernel is M x M and symmetric |
| MgcMagic.MgcMagicSpec | sk_sugar/core.py:687-703 | mgc_magic raises for an invalid sigma whatever t is; it succeeds exactly when the kernel exists and a rescale has data to work on; it returns the kernel and its diffusion operator |
| MgcMagic.MeasureLength | sk_sugar/core.py:694-700 | once both kernels exist, the only remaining failure is an s_hat of the wrong length |
| MgcMagic.ComposeNonNegative | sk_sugar/core.py:694-700 | non-negative kernels and weights give a non-negative MGC kernel |
| MgcMagic.MgcKernelNonNegative | sk_sugar/core.py:690-700 | with non-negative sparsities the MGC kernel is non-negative |
| MgcMagic.WeightedProduct | sk_sugar/core.py:694-699 | weighting the columns of A by s and multiplying by A transposed gives the matrix of Σ_l s[l] A[i][l] A[j][l] |
| MgcMagic.GramSymmetric | sk_sugar/core.py:699-700 | that weighted Gram matrix is symmetric |
| MgcMagic.ThresholdedTransposed | sk_sugar/core.py:690-691 | with a scalar bandwidth the cleaned kernel of the transposed distances is the transposed cleaned kernel |
| MgcMagic.ScalarKernelTransposed | sk_sugar/core.py:690-691 | with a numeric sigma the X-to-Y kernel is the transpose of the Y-to-X kernel |
| MgcMagic.ScalarBandwidthGram | sk_sugar/core.py:690-700 | with a numeric sigma and one sparsity per original point, the MGC kernel exists and is exactly Σ_l s_hat[l] K[i][l] K[j][l] for the Y-to-X kernel K: the symmetrisation changes nothing |
| MgcMagic.NoDiffusion | sk_sugar/core.py:687-702 | with t = 0 the kernel is still built, and without rescaling Y comes back unchanged with the MGC kernel and its operator |
| MgcMagic.MgcOperatorStochastic | sk_sugar/core.py:700-702 | each MGC operator row with a non-zero kernel sum adds up to 1, a zero row stays zero, and with non-negative sparsities every entry is in [0, 1] |
| Matrices.Symmetrize | sk_sugar/core.py:178-179 | (m + m.T) / 2 is symmetric, leaves a symmetric matrix unchanged, and keeps non-negativity |
| Matrices.SymmetrizeBounds | sk_sugar/core.py:178-179 | averaging with the transpose keeps entries within any bounds |
| Sorting.SortSpec | sk_sugar/core.py:540 | `np.sort` returns a sorted permutation of its input |
| Sorting.SortRank | sk_sugar/core.py:156-158 | the i-th sorted value has at most i values strictly below it and at least i + 1 at or below it |
| ExtReals.Div | sk_sugar/core.py:246 | IEEE division of reals is finite exactly when the divisor is non-zero; 0 / 0 is NaN and a positive number over 0 is +inf |
| ExtReals.Recip | sk_sugar/core.py:247 | 1 / x is finite for a finite non-zero x, +inf for 0, 0 for an infinity and NaN for NaN |
| ExtReals.RecipInverse | sk_sugar/core.py:247 | for a finite non-zero x, (1 / x) * x = 1 |

## Left out

- Logging is left out: every `logger` call only reports.
- `local_covariance`, `sugar` and `generate_imbalanced_circle` are outside the modelled core. They are the driver and helpers around it.
- `cdist` is left out. Distances are an input of the model, and `cdist(X, Y)` is taken to be the transpose of `cdist(Y, X)`.
- The decay `exp(-(D / sigma)^a)` is a parameter because it is floating-point exponentiation. `Kernel.KernelUnitRange` takes as a hypothesis that none of the decayed values it forms, one per distance of D with its column's bandwidth, exceeds 1. That holds for the non-negative distances `cdist` gives with a positive bandwidth, for any `a`; a negative bandwidth with an odd `a` gives values above 1 and is excluded by the hypothesis.
- The `std` bandwidth and a user callable are parameters: `std` needs a square root, and the callable is caller code.
- Kernel.CheckBroadcast: when D has a single column, numpy broadcasts a bandwidth vector of any length m against it and returns a rows x m kernel. The model reports a shape error instead, so every kernel has the shape of D.
- Kernel.CallableKernel: the same single-column broadcast is not modelled for a callable's bandwidth, nor (Kernel.StdKernel) for the std bandwidth.
- Kernel.ThresholdInPlace: models only the two masked writes of the clean-up on an array. The kernel itself is built from the functional `Kernel.Threshold`, which gives each entry the same clean-up.
- Kernel.MinMaxBandwidth: does not model the broadcasting of `D + eye(rows)` for a non-square distance matrix, which numpy rejects or turns into other shapes; any non-square input is a shape error here.
- The determinant or power factor of density equalisation (core.py:369-384) is an abstract non-negative weight per point, because it needs `det` and fractional powers.
- Floating-point rounding is left out: overflow to infinity, signed zeros, and the rounding of `e * M / (S + 1e-17)`, whose exact real value the model floors. In float64 `S + 1e-17` equals S once S is about 0.2 or more, so wherever `e * M / S` is a whole number the program's count is one higher than the model's. For example degree = [0, 1] with M omitted gives counts [2, 0] in the program and [1, 0] in the model, so the totals of `Budget.CountFormula` and `Budget.TotalNearTarget` can sit below the program's.
- The scalar-noise branch of `generate` (core.py:469-481) is left out. It calls `.T` on a Python list and `np.ones(1, D)` with an integer dtype argument, so it cannot run as written.
- Generate.RunGenerate: counts are natural numbers. A negative count from a negative M makes `np.tile` raise, and that error is not modelled.
- Generate.GenerateSpec: covariances are replicated as intended, each copy of point i with noise_cov[i]. In the source, copy j of point i gets block j of `Generate.TiledCovariances(noise_cov[i], D, npts[i])`, which differs from noise_cov[i] for D >= 2 (see Findings).
- Generate.GenerateSpec: covariance matrices must be D x D and the data N x D. These shapes are preconditions, not modelled errors.
- Magic.MagicSpec: the kernel must be square, n x n, as the docstring of `magic` says and as `mgc_magic` always passes. The source also accepts an N x M kernel, which with t = 1 and M x D data returns N x D; that case is not modelled.
- The Gaussian draws are left out. `np.random.multivariate_normal` is an arbitrary function of centre and covariance, so randomness itself is not modelled.
- MgcMagic.MeasureWeighted: treats s_hat as a flat vector. An s_hat of shape (M, 1) would scale rows instead, and with a single original point a longer s_hat broadcasts before the matrix product raises. Both cases end in the same shape error or are not modelled.
- MgcMagic.MgcKernel: s_hat is a vector of finite reals. The NaN or infinite sparsities that `degrees` can produce are not passed through the kernel product.

## Findings

| source | as written | input that shows it | evidently intended | confidence | as-written member | corrected member |
|---|---|---|---|---|---|---|
| sk_sugar/core.py:497 | `np.tile(noise_cov[i], npts[i]).reshape(-1, D, D)` repeats each row of the covariance side by side, so the reshape groups copies of the same row into one block | D = 2, npts[i] = 2, noise_cov[i] = [[1, 2], [3, 4]] gives [[1, 2], [1, 2]] and [[3, 4], [3, 4]] | npts[i] copies of noise_cov[i], one per replicated centre | high; not executed | Generate.TiledCovariancesExample | Generate.GenerateReplicates |
