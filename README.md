# easy-mca: a Dafny model of the MCA pipeline and its SVD wrapper

easy-mca performs Multiple Correspondence Analysis on categorical data. This project models its
two core files.

`mca.ts` exports `MCA(rows, categories, options)`. The steps are:

- It keeps each variable that has at least one category, and takes their widths side by side as the
  indicator columns.
- It builds the indicator matrix Z. A variable a row gives has 1 under each category equal to its
  value. A variable the row leaves out has `1/|categories|` under each of its categories.
- It scales Z by `1/totalCount` and collects the row sums D_r and the column sums D_c.
- It overwrites Z with the normalised residual `invSqrt(D_r[i])·invSqrt(D_c[j])·(Z[i][j] − D_r[i]·D_c[j])`.
- It runs an SVD. For a wide matrix it runs it on the transpose.
- It turns the singular values into eigenvalues E, with or without the Benzécri correction.
- It counts the rank and the inertia, keeps the leading `rank` eigenvalues L, and returns the
  factor scores `D_r[i]·S[j]·P[i][j]` and the explained variances `L[j]/inertia`.

`svd-fix.ts` exports `fixedSVD(A, epsilon, checkFactor)`, which wraps the svd-js primitive:

- It transposes wide inputs.
- When the singular values are not in non-increasing order of magnitude, it re-sorts them together
  with their singular vectors.
- When `checkFactor > 0`, it rebuilds P·diag(s)·Q and fails on the first entry that is off by more
  than `checkFactor`.

## How the model is organised

- **`Matrix`:** matrices as sequences of rows, with transpose and the row and column sums.
- **`Seqs`:** sums, index permutations and the multiset facts about them.
- **`SvdFix`:** `svd-fix.ts`.
- **`Categories`, `Indicator`, `Normalize`, `Eigen` and `Mca`:** `mca.ts`, step by step.

Arithmetic is on `real`.

The SVD primitive and `Math.sqrt` are parameters of the model:

- **The SVD primitive:** `svd: (Mat, real) -> Factors`. For a tall argument B (m×n, n ≤ m) it
  promises only the shapes svd-js documents: u is m×n, q has n entries and v is n×n. The
  reconstruction lemmas assume, in addition, that B = u·diag(q)·vᵀ exactly (`PrimitiveExact`).
- **`sqrt`:** it is known only to map 0 to 0 and positives to positives (`RootLike`).

The steps that update state in the source are methods with loops:

- unpacking the categories;
- building the indicator matrix and its running `totalCount`;
- scaling, summing and overwriting Z;
- the rank and inertia loop;
- `isSorted`;
- `checkSVD`'s rebuild-and-compare;
- `transpose`.

Each is proved equal to a function, and the properties are lemmas about those functions. Z is an
`array2<real>` for the two in-place passes. It is loaded from the sequence of rows that the `map`
over the observations produces.

Behaviour of mca.ts worth noting, which the model keeps:

- The rank is the number of eigenvalues above the tolerance over all of E, wherever they sit, and
  not a prefix that stops at the first one below it. A count of 0 becomes |E|.
- The Benzécri correction is applied to the singular value itself, not to its square. The
  comparison is `s < 1/K`, then `(K/(K−1)·(s − 1/K))²`.
- Without correction the factor scores use the eigenvalue L[j] directly, and they use D_r[i], not
  its inverse square root.

## Model

| member | source | states |
|---|---|---|
| Matrix.Transpose | svd-fix.ts:5-15 | for an m×n x the result is n×m and entry (i, j) is x[j][i]; mca.ts:22-32 defines the same function |
| Matrix.TransposeInvolution | svd-fix.ts:5-15 | transposing a rectangular matrix with at least one column twice gives it back |
| Matrix.RowAndColumnTotals | mca.ts:102-108 | the row sums and the column sums of a matrix have the same total |
| SvdFix.SvdArg | svd-fix.ts:24-39 | the matrix handed to svd-js is always tall, and it is A itself exactly when A is not wide |
| SvdFix.RunSvdAsWritten | svd-fix.ts:24-39 | runSVD as written: for a tall A, u comes back transposed (n×m for an m×n A) and v is svd-js's v unchanged |
| SvdFix.RunSvdAsWrittenMisreconstructs | svd-fix.ts:25-31 | for A = [[0,−1],[1,0]] and an exact primitive, the as-written factors rebuild entry (0,1) as 1 instead of −1 |
| SvdFix.RunSvd | svd-fix.ts:24-39 | corrected runSVD: P is m×k, s has k = min(m, n) entries, Q is k×n, and s is the primitive's q |
| SvdFix.RunSvdReconstructs | svd-fix.ts:24-39 | with an exact primitive, P·diag(s)·Q equals A entry by entry in both orientations |
| SvdFix.IsSorted | svd-fix.ts:41-48 | true exactly when no entry is larger in magnitude than the one before it |
| SvdFix.PermuteRearranges | svd-fix.ts:18-20 | permute under an index permutation puts x[perm[i]] at i and keeps the multiset of entries |
| SvdFix.SortByAbs | svd-fix.ts:102-104 | sorting the indices keeps them as a multiset and in range |
| SvdFix.SortByAbsSorted | svd-fix.ts:102-104 | the sorted indices are in non-increasing order of the magnitude of q |
| SvdFix.SortOrderSorts | svd-fix.ts:102-106 | perm is a permutation of the indices of q, and q read through it is sorted by decreasing magnitude with the same multiset |
| SvdFix.Reordered | svd-fix.ts:98-109 | the reordered P, s, Q keep the shapes m×k, k, k×n |
| SvdFix.ReorderedPairsVectors | svd-fix.ts:98-109 | one permutation moves s, the columns of P and the rows of Q together; s ends sorted by magnitude with the same multiset; nothing moves when q was sorted |
| SvdFix.PermutedProduct | svd-fix.ts:105-108 | reading the terms of P·diag(s)·Q through a permutation leaves each rebuilt entry unchanged |
| SvdFix.ReorderedKeepsProduct | svd-fix.ts:98-109 | the reordering does not change P·diag(s)·Q in any entry |
| SvdFix.Reorder | svd-fix.ts:98-109 | the isSorted test and the sort-and-permute block compute the reordering |
| SvdFix.CheckSvd | svd-fix.ts:65-91 | no failure exactly when every rebuilt entry is within the tolerance; a failure names an entry that is off, with its expected and actual values, and every entry before it in row-major order is within the tolerance |
| SvdFix.FixedSvd | svd-fix.ts:93-121 | a success is the reordered corrected runSVD result; it fails exactly when checkFactor > 0 and some rebuilt entry is off by more than checkFactor |
| SvdFix.FixedSvdAcceptsExact | svd-fix.ts:111-114 | with an exact primitive the check never fails, whatever the tolerance |
| Categories.KeptPositions | mca.ts:58-65 | the kept positions are increasing, and t is among them exactly when variable t has a category |
| Categories.KeptVariables | mca.ts:58-65 | one kept key per kept category list, every kept list is non-empty, and every variable with a category is kept with its whole list |
| Categories.UnpackCategories | mca.ts:54-65 | the loop yields the kept keys and lists, and columnDimension is their total width |
| Indicator.Matches | mca.ts:80-87 | no category matches exactly when the value is not among the categories |
| Indicator.IndicatorRow | mca.ts:73-96 | a row has one entry per indicator column |
| Indicator.MissingBlock | mca.ts:88-93 | a missing variable fills its block with one over its number of categories, the block adds up to 1, and totalCount grows by 1 |
| Indicator.PresentBlock | mca.ts:78-87 | a given variable puts 1 exactly under the matching categories and 0 elsewhere, and adds its number of matches to totalCount; a value outside the categories gives an all-zero block and adds 0 |
| Indicator.BlockSumIsCount | mca.ts:78-93 | every block, given or missing, adds up to exactly what it adds to totalCount |
| Indicator.OneHotSum | mca.ts:80-87 | the one-hot block adds up to the number of matching categories |
| Indicator.RowSumIsCount | mca.ts:73-96 | each row of Z adds up to exactly what that row adds to totalCount |
| Indicator.MatrixSumIsCount | mca.ts:72-96 | all entries of Z add up to totalCount |
| Indicator.RowLayout | mca.ts:74-94 | the blocks are laid out side by side in key order: entry j of variable i's block sits at the width of the variables before it, plus j |
| Indicator.AddBlock | mca.ts:76-93 | one variable's inner loop builds its block and adds its count |
| Indicator.AddRow | mca.ts:74-95 | the loop over the kept variables builds the row and adds its count |
| Indicator.BuildIndicator | mca.ts:71-96 | the map over the rows builds Z and the final totalCount |
| Normalize.InvSqrt | mca.ts:15-20 | 0 at or below 1e-6; above it, a positive value whose product with sqrt(x) is 1 |
| Normalize.InvSqrtSquared | mca.ts:15-20 | above the threshold, invSqrt(x)²·x = 1 |
| Normalize.InvSqrtEach | mca.ts:111-112 | one entry per margin, never negative, and 0 exactly where the margin is at most 1e-6 |
| Normalize.ScaleRow | mca.ts:103-107 | the inner loop scales row i, sets D_r[i] to its sum, adds it into each D_c[j], and leaves the other rows alone |
| Normalize.ScaleRows | mca.ts:102-108 | the double loop leaves Z scaled, D_r holding the row sums and D_c the column sums |
| Normalize.ScaleAndSum | mca.ts:99-108 | Z becomes scale·Z in place, D_r and D_c are its row and column sums, and they have the same total |
| Normalize.ResidualOf | mca.ts:113-117 | the residual keeps Z's shape |
| Normalize.Residual | mca.ts:113-117 | the loop overwrites Z with its normalised residual |
| Normalize.ResidualMatrix | mca.ts:111-117 | the standardised residual of the scaled indicator, from its own marginals, keeps its shape |
| Normalize.Standardise | mca.ts:99-117 | for a nonzero totalCount (or no columns at all), the two in-place passes leave the residual of the scaled Z and hand back D_r as the scaled Z's row sums |
| Normalize.ResidualVanishes | mca.ts:111-117 | a residual entry is 0 exactly when its row or column margin is at most 1e-6, or the entry equals the product of its margins |
| Normalize.ScaledTotalOne | mca.ts:101-108 | scaling a matrix by 1/total gives row sums and column sums that each add up to 1 |
| Normalize.MarginalsTotalOne | mca.ts:72-108 | with totalCount > 0 the scaled indicator's D_r and D_c each add up to 1 |
| Eigen.CorrectedEigenvalue | mca.ts:128-133 | the corrected value is never negative, and 0 exactly when K = 0 or the value is at most 1/K |
| Eigen.Eigenvalues | mca.ts:126-136 | one non-negative eigenvalue per singular value; under correction, 0 exactly when K = 0 or s[i] ≤ 1/K |
| Eigen.CountAbove | mca.ts:142-147 | the count is at most the length of E, is 0 exactly when nothing exceeds the tolerance, and is the length of E exactly when everything does |
| Eigen.Rank | mca.ts:139-150 | the rank is at most the length of E and positive for a non-empty E; it is the whole length exactly when all or none exceed the tolerance; otherwise it is the number that exceed it |
| Eigen.RankAndInertia | mca.ts:139-150 | the loop's inertia is the sum of E and its rank is the rank |
| Eigen.EffectiveTolerance | mca.ts:141 | a given non-zero tolerance is used, an absent or zero one becomes 1e-4, so the effective tolerance is never 0 |
| Eigen.ExplainedVariance | mca.ts:156 | one ratio per retained eigenvalue, and each ratio times the inertia gives the eigenvalue back |
| Eigen.ExplainedVarianceSum | mca.ts:156 | the explained variances add up to the retained eigenvalues' sum over the inertia |
| Eigen.ExplainedVarianceBounds | mca.ts:153-156 | each explained variance lies in [0, 1], they add up to at most 1, and to exactly 1 when every eigenvalue is retained |
| Eigen.Projection | mca.ts:159-162 | without correction S is L itself; with correction S[j] = −sqrt(L[j]), which for a non-negative eigenvalue is never positive and is 0 exactly when the eigenvalue is 0 |
| Eigen.FactorScores | mca.ts:163-167 | one row per observation and one column per retained eigenvalue; an entry is 0 exactly when D_r[i], S[j] or P[i][j] is 0 |
| Mca.ReallyDoTheSvdAsWritten | mca.ts:35-45 | reallyDoTheSVD as written: for an m×n A, u is m×k, and for a wide A v comes back transposed (m×n) |
| Mca.ReallyDoTheSvdAsWrittenMisfactors | mca.ts:39-44 | for the wide A = [[1.2,−0.8,0],[1.6,0.6,0]] and an exact primitive with distinct singular values 2 and 1, the as-written factors do not factorise A: column 0 of the as-written u is (0.6, −0.8) where the corrected u has (0.6, 0.8), so the two agree in one nonzero entry and are opposite in the other and no sign choice relates them; v has 2 rows where A has 3 columns; the corrected factors do factorise A |
| Mca.ReallyDoTheSvd | mca.ts:35-45 | corrected reallyDoTheSVD: for an m×n A, u is m×k and v is n×k with k = min(m, n), and q is the primitive's |
| Mca.ReallyDoTheSvdFactorises | mca.ts:35-45 | with an exact primitive, A = u·diag(q)·vᵀ in both orientations |
| Mca.ScaledIndicator | mca.ts:99-108 | the scaled indicator matrix has one row per observation and one column per indicator column |
| Mca.SumNonNegative | mca.ts:139-147 | the inertia of non-negative eigenvalues is non-negative, and 0 only when all of them are 0 |
| Mca.Analysis | mca.ts:119-172 | after the residual, only CorrectionUndefined (under correction, with one variable) and ZeroInertia can fail |
| Mca.AnalysisShape | mca.ts:152-172 | a result for an m×n residual has m rows of factor scores and at most min(m, n) explained variances, at least one when n > 0, each in [0, 1], adding up to at most 1 |
| Mca.Analyse | mca.ts:119-172 | the steps after the residual, with the rank and inertia loop, compute the analysis |
| Mca.McaSpec | mca.ts:47-173 | fails with NoObservations exactly when there are no rows, with ZeroTotalCount exactly when there are rows and indicator columns but totalCount is 0, and with CorrectionUndefined only under correction with one kept variable |
| Mca.McaOutputShape | mca.ts:152-172 | factorScores has one row per observation and one column per explained variance; there are at most as many of these as rows and as indicator columns, and at least one when there is an indicator column; each lies in [0, 1] and together they add up to at most 1 |
| Mca.Mca | mca.ts:47-173 | the in-place pipeline returns what the specification function gives |

## Left out

- The internals of svd-js's `SVD` are not part of this model. The primitive is a parameter, with its
  documented shapes as the only promise and exactness as an extra premise of the reconstruction
  lemmas. Its `epsilon` is passed through.
- Floating point is not modelled. Arithmetic is exact over the reals. `Math.pow(x, 2)` is `x·x`.
  `Math.sqrt` is a parameter known only by sign, so InvSqrt's `1/sqrt(x)` is stated through its
  product with `sqrt(x)`.
- Normalize.InvSqrt: does not state `1/Math.sqrt(x)` as a closed form, because sqrt is a parameter.
  Its ensures pins the value through `r·sqrt(x) = 1`.
- `checkNan` (svd-fix.ts:55-63) is left out. Real numbers have no NaN.
- `formatMatrix` and the `console.error` call (svd-fix.ts:50-53 and 86) are left out, since they
  only produce text. The thrown error of `checkSVD` becomes an `Err` carrying the entry, the
  expected value and the actual value.
- The `MCARow` and `MCAOptions` types (mca.ts:3-13) are left out. A row is modelled as a map from
  variable names to values. `key in obj` is map membership, so inherited properties are not seen.
- An absent options object is `Options(None, None, None)`.
- The categories object is modelled as its `Object.keys` listing in order. `Array.isArray` is
  reduced to the type: every value is a sequence of categories.
- `===` is Dafny equality on the category type. The fact that NaN is unequal to itself is not
  modelled.
- The model reports as errors the inputs that make the source run into a TypeError or produce NaN
  or Infinity:
  - no rows, where `A[0]` is undefined;
  - rows and indicator columns with totalCount 0, where `1/0` makes Z all NaN;
  - correction with one kept variable and a singular value of at least 1, where the source divides
    by K−1 = 0;
  - retained eigenvalues with zero inertia, where the explained variances divide by 0.
- With K = 0 under correction, the source compares with `1/0 = Infinity`. The model sends every
  value to 0, as that comparison does.
- Eigen.CorrectedEigenvalue: requires `K == 1 ==> lambda < 1`. The pipeline reports the other case
  as CorrectionUndefined instead of calling it.
- Eigen.Eigenvalues: without correction, does not state that an eigenvalue is 0 only for a zero
  singular value. The solver does not close that fact about squares, and it is not used.
- Mca.McaSpec, Mca.Mca: use reallyDoTheSVD with its wide branch corrected (Mca.ReallyDoTheSvd),
  not as written (Mca.ReallyDoTheSvdAsWritten). On a wide residual matrix (more indicator columns
  than observations) the source's P holds the right singular vectors as rows, so its factor scores
  read P[i][j] from the wrong factor; the model does not reproduce those values. The same goes
  for Mca.Analysis, Mca.Analyse and Mca.AnalysisShape.
- SvdFix.FixedSvd: is built over the corrected runSVD (SvdFix.RunSvd), not the as-written one. For
  a non-square tall A, the as-written P has the wrong shape and checkSVD would read past the rows
  it built. The square case is exhibited by SvdFix.RunSvdAsWrittenMisreconstructs.
- SvdFix.RunSvd: requires at least one column, and so do SvdFix.FixedSvd and
  SvdFix.RunSvdReconstructs. The source's behaviour on a matrix with no columns is left out.
- SvdFix.FixedSvd: requires a non-empty rectangular A. The TypeError that `A[0]` raises for an
  empty A is not modelled.
- `Array.prototype.sort` is modelled as a stable insertion sort on decreasing magnitude, which is
  what a stable sort with that comparator yields.
- Z's move into a two-dimensional array (`Normalize.Load`) is a modelling step with no counterpart
  in the source. The source mutates the row arrays that `rows.map` produced.
- `test/wines.ts` is an example data set and is not modelled.

## Findings

| source | as written | input that shows it | evidently intended | confidence | as-written member | corrected member |
|---|---|---|---|---|---|---|
| svd-fix.ts:25-31 | for a tall A, runSVD returns `u: transpose(u)` and `v` unchanged, so P is n×m and Q is the n×n matrix whose rows are the right singular vectors | A = [[0,−1],[1,0]] with an exact svd giving u = A, q = [1,1], v = I: P·diag(s)·Q rebuilds Aᵀ, 1 at (0,1) where A has −1, and for a non-square tall A the shapes do not even conform | `u` unchanged and `v: transpose(v)`, so that A = P·diag(s)·Q, as the wide branch already does | high (not executed) | SvdFix.RunSvdAsWritten, SvdFix.RunSvdAsWrittenMisreconstructs | SvdFix.RunSvd, SvdFix.RunSvdReconstructs |
| mca.ts:39-44 | for a wide A, reallyDoTheSVD returns `u: transpose(v)` and `v: transpose(u)`, so u holds the right singular vectors as rows and v has as many rows as A | A = [[1.2,−0.8,0],[1.6,0.6,0]] with an exact svd of Aᵀ giving u = [[1,0],[0,1],[0,0]], q = [2,1], v = [[0.6,−0.8],[0.8,0.6]]: column 0 of the as-written u is (0.6, −0.8), while the left singular vector of A for the singular value 2 is (0.6, 0.8); the singular values are distinct, so no sign flip of a column explains the difference, and v has 2 rows where A has 3 columns | `u: v` and `v: u`, the left and right singular vectors of A as the tall branch returns them | high (not executed) | Mca.ReallyDoTheSvdAsWritten, Mca.ReallyDoTheSvdAsWrittenMisfactors | Mca.ReallyDoTheSvd, Mca.ReallyDoTheSvdFactorises |
