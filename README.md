# trcov: Gaussian-process covariance matrices, modelled in Dafny

`trcov` is a MATLAB MEX gateway (`gp/linuxCsource/trcov.c`). It evaluates
the covariance matrix of a Gaussian process covariance function `gpcf` on
the m-by-n input matrix `X`. There is one row of `X` per input point and
one column per input dimension.

The gateway works in four steps:

1. It checks its arguments and the fields `magnSigma2`, `lengthScale` and
   `type` of `gpcf` (and `l` for the compact-support kernels), in a fixed
   order.
2. For the four dense kernels (`gpcf_sexp`, `gpcf_exp`, `gpcf_matern32`,
   `gpcf_matern52`) it builds the full m-by-m matrix. It accumulates the
   scaled squared distances in the strictly upper triangle. It then turns
   each distance into a covariance value, sets values not above machine
   epsilon to 0, mirrors the value below the diagonal and writes the
   magnitude `ms` on the diagonal.
3. For the four piecewise-polynomial kernels (`gpcf_ppcs0` to `gpcf_ppcs3`)
   it builds a compressed-column sparse matrix:
   - it collects (row, column, value) triplets for the pairs whose
     distance is below 1, into buffers that double when full, and trims
     them;
   - it counts the entries per column;
   - it turns the counts into column starts with `cumsum2`, applied twice;
   - it fills the row indices and values in three passes: the upper
     triangle, the diagonal, then the mirrored lower triangle.
4. Any other `type` string is an error.

The model follows that structure module by module:

| module | file | what it holds |
|---|---|---|
| `PrefixSum` | `cumsum.dfy` | `cumsum2` as a method on arrays, specified by `PrefixSums` |
| `Geometry` | `geometry.dfy` | column-major indexing, length scales, the scaled squared distance and its distance loop |
| `Coo` | `coo.dfy` | triplet lists and their per-column views (upper part, diagonal, mirrored lower part), counts, ordering and lookup lemmas |
| `Accumulate` | `accumulate.dfy` | the triplet collection with doubling buffers, the trim, the squared length scales, and the support of the matrix as a function |
| `Sparse` | `sparse.dfy` | counting, the two `cumsum2` calls and the three fill passes into compressed columns |
| `Dense` | `dense.dfy` | distance accumulation, kernel transform, the eps clamp, mirroring and the diagonal |
| `Params` | `params.dfy` | argument validation with one error per message, and the kernel tags |
| `TrCov` | `trcov.dfy` | the sparse kernel end to end, and the gateway dispatch |

Modelling choices:

- Numbers are Dafny `real`s. The kernel formulas (`exp`, `sqrt`, `pow` and
  the polynomials in the distance) are a function parameter, so every
  property holds for any formula.
- Machine epsilon is the exact value 2^-52.
- Index arrays are `array<nat>`.
- The source's buffers (`It`, `Jt`, `Ct`, `w`, `w2`, `Jc`, `I`, `J`, `C`)
  are Dafny arrays updated in place by methods with loop invariants.
- Every such method is proved against a specification function on
  sequences (`PrefixSums`, `Support`, `Degrees`, `Column`, `Dist`,
  `Covariance`), and the properties are proved about those functions.

Definitions the contracts are written in (each is spelled out by its own
body and proves nothing by itself):

- `Coo.Triplets` reads the parallel buffers `It`, `Jt`, `Ct` position by
  position as (row, column, value) triplets (trcov.c lines 232-234).
- `Accumulate.DistOf` is the scaled squared distance `Dist` of two input
  rows, as a total function of the row indices (lines 219-223).
- `Sparse.UpperCols`, `Sparse.DiagCols` and `Sparse.LowerCols` give the
  contents of every column after a prefix of the upper, diagonal and lower
  pass (lines 263-278).
- `Sparse.CscColumn` is column c of a compressed-column matrix: the rows
  and values from `J[c]` to `J[c+1]` (lines 256-259).
- `Accumulate.ClosePairs` is the set of strictly upper positions (k, c)
  whose rows are at distance below 1, and `Accumulate.CloseRows` the same
  set for one column.

## Model

| member | source | states |
|---|---|---|
| `PrefixSum.PrefixSumsShape` | gp/linuxCsource/trcov.c:605-617 | the column starts begin at 0, step by each count, and end at the total of the counts |
| `PrefixSum.PrefixSumsMonotone` | gp/linuxCsource/trcov.c:605-617 | column starts never decrease; a later start is at least an earlier start plus that column's count, so column blocks do not overlap |
| `PrefixSum.CumSum2` | gp/linuxCsource/trcov.c:605-617 | `p[0..n]` becomes the prefix sums of the old counts `c[0..n)`, and `c[0..n)` is overwritten with the starts `p[0..n)`; nothing else changes |
| `Geometry.IdxBound` | gp/linuxCsource/trcov.c:220-223 | every index `j+i*m` of a row and dimension of the m-by-n input lies inside the array |
| `Geometry.IdxDistinct` | gp/linuxCsource/trcov.c:100-101 | distinct (row, column) pairs of an m-row column-major array have distinct slots, so the writes `C[j*m+k]` and `C[j+k*m]` never clash |
| `Geometry.DiagonalIdx` | gp/linuxCsource/trcov.c:103 | the diagonal slot `j*(m+1)` is row j, column j |
| `Geometry.LengthScaleSq` | gp/linuxCsource/trcov.c:88 | the divisor of dimension i is `l[i]^2` when more than one length scale is given and `l[0]^2` otherwise; it is positive when no length scale is zero |
| `Geometry.Weights` | gp/linuxCsource/trcov.c:208-211 | one positive divisor per input dimension |
| `Geometry.IsotropyConsistent` | gp/linuxCsource/trcov.c:64-69 | a scalar length scale L gives the same divisors as a vector of n copies of L |
| `Geometry.DistSymmetric` | gp/linuxCsource/trcov.c:219-223 | the scaled squared distance between rows j and k equals that between k and j |
| `Geometry.DistSelf` | gp/linuxCsource/trcov.c:219-223 | a row is at distance 0 from itself |
| `Geometry.PartialDistNonNegative` | gp/linuxCsource/trcov.c:219-223 | the distance, summed over any number of dimensions, is never negative |
| `Geometry.ScaledSqDist` | gp/linuxCsource/trcov.c:219-223 | the loop `c += d*d/rr2[i]` over all dimensions computes the scaled squared distance of rows j and k |
| `Coo.NumBeforeNext` | gp/linuxCsource/trcov.c:249-252 | the start of column j+1 in the triplet list is the start of column j plus its count |
| `Coo.SumColCounts` | gp/linuxCsource/trcov.c:249-252 | the column counts of the columns below j add up to the number of triplets in those columns |
| `Coo.NumBeforeAll` | gp/linuxCsource/trcov.c:249-252 | with every column below m, all triplets come before column m |
| `Coo.SortedNumBefore` | gp/linuxCsource/trcov.c:252 | in a column-sorted list, triplet t lies in a column below j exactly when t is before the start of column j |
| `Coo.ColumnBlock` | gp/linuxCsource/trcov.c:263-265 | every position k from `Jc[j]` to `Jc[j+1]` holds a triplet of column j |
| `Coo.UpperStartsTotal` | gp/linuxCsource/trcov.c:252 | the last start computed from the column counts is the number of triplets |
| `Coo.SumDegrees` | gp/linuxCsource/trcov.c:248-250 | the full column counts `w[k] += w2[k] + 1` add up to the row counts plus the column counts plus m |
| `Coo.TotalEntries` | gp/linuxCsource/trcov.c:255 | the matrix holds `2*ind + m` entries in all |
| `Coo.UpperSource` | gp/linuxCsource/trcov.c:263-268 | every entry of the upper part of column c comes from a triplet in column c |
| `Coo.UpperComplete` | gp/linuxCsource/trcov.c:263-268 | every triplet appears in the upper part of its column |
| `Coo.UpperIncreasing` | gp/linuxCsource/trcov.c:263-268 | in an ordered triplet list, the upper part of each column has strictly increasing rows |
| `Coo.UpperRowsBelow` | gp/linuxCsource/trcov.c:217-218 | the upper part of column c has only rows below c |
| `Coo.LowerRowsAbove` | gp/linuxCsource/trcov.c:273-278 | the mirrored lower part of column c has only rows above c |
| `Coo.ColumnDiagonal` | gp/linuxCsource/trcov.c:269-272 | each column is its upper part, then one diagonal entry with value ms, then its lower part; the diagonal row occurs only there |
| `Coo.ColumnSorted` | gp/linuxCsource/trcov.c:263-278 | each assembled column has strictly increasing row indices |
| `Coo.ColumnSource` | gp/linuxCsource/trcov.c:263-278 | every off-diagonal entry of a column is a triplet or its mirror image |
| `Coo.LookupFound` | gp/linuxCsource/trcov.c:263-278 | in a column with increasing rows, looking up a stored row gives the value stored there |
| `Coo.LookupAbsent` | gp/linuxCsource/trcov.c:263-278 | a row not stored in a column reads as 0 |
| `Coo.ColumnAt` | gp/linuxCsource/trcov.c:263-278 | off the diagonal, column c stores row r exactly when some triplet is (r, c) or (c, r), and then holds that triplet's value; otherwise it reads 0 |
| `Coo.Symmetric` | gp/linuxCsource/trcov.c:263-278 | the assembled matrix is symmetric in what it stores and in its values, and its diagonal is stored with value ms |
| `Accumulate.InitialCapacity` | gp/linuxCsource/trcov.c:200-201 | the first buffer capacity is `max(1, floor(0.05*m*m))`, that is, m*m/20 and at least 1 |
| `Accumulate.FloorTwentieth` | gp/linuxCsource/trcov.c:201 | `floor(0.05*N)` is `N/20` in integer division |
| `Accumulate.ColumnSupportSound` | gp/linuxCsource/trcov.c:218-237 | the triplets collected for column j lie in that column, above row k, at distance below 1, with the kernel value of the distance |
| `Accumulate.ColumnSupportSorted` | gp/linuxCsource/trcov.c:218-237 | the triplets of one column come in increasing row order |
| `Accumulate.ColumnSupportComplete` | gp/linuxCsource/trcov.c:218-237 | every row r below k at distance below 1 from row j is collected |
| `Accumulate.SupportSound` | gp/linuxCsource/trcov.c:217-238 | every collected triplet lies strictly above the diagonal, in a column before j, at distance below 1, with the kernel value |
| `Accumulate.SupportOrdered` | gp/linuxCsource/trcov.c:217-238 | the collected triplets are sorted by column, then by row: the order the later passes rely on |
| `Accumulate.SupportComplete` | gp/linuxCsource/trcov.c:217-238 | every pair k < c < j at distance below 1 is collected |
| `Accumulate.SupportExact` | gp/linuxCsource/trcov.c:217-238 | the triplets are ordered and sound, and a pair (k, c) with k < c is stored exactly when its distance is below 1 |
| `Accumulate.ColumnSupportCount` | gp/linuxCsource/trcov.c:218-237 | column j contributes one triplet for each row below k at distance below 1 |
| `Accumulate.ClosePairsStep` | gp/linuxCsource/trcov.c:217-238 | the close pairs of the first j columns are those of the first j - 1 columns together with the close rows of column j - 1 |
| `Accumulate.SupportCount` | gp/linuxCsource/trcov.c:217-238 | the number `ind` of stored triplets is the number of strictly upper pairs of rows at distance below 1 |
| `Accumulate.SupportColumns` | gp/linuxCsource/trcov.c:217-278 | off the diagonal, column c of the matrix assembled from the support stores row r exactly when their distance is below 1, with value `kern(distance)`, and reads 0 otherwise |
| `Accumulate.OrderedAppend` | gp/linuxCsource/trcov.c:217-238 | appending one later column's triplets, in increasing row order, to ordered triplets keeps them ordered |
| `Accumulate.SupportInColumns` | gp/linuxCsource/trcov.c:217-238 | every triplet collected from the first j columns lies in one of those columns |
| `Accumulate.ColumnSupportUpper` | gp/linuxCsource/trcov.c:218-237 | column j's triplets lie strictly above the diagonal, in column j, with rows increasing |
| `Accumulate.SquaredScales` | gp/linuxCsource/trcov.c:208-211 | the loop fills `rr2` with the divisors of every dimension |
| `Accumulate.Realloc` | gp/linuxCsource/trcov.c:241-243 | resizing gives a new buffer of the requested size that keeps the old contents up to the smaller length |
| `Accumulate.Store` | gp/linuxCsource/trcov.c:224-235 | storing one triplet doubles the buffers exactly when they are full, then appends it |
| `Accumulate.CollectColumn` | gp/linuxCsource/trcov.c:218-237 | the inner loop over k appends exactly column j's support to the buffers |
| `Accumulate.CollectAll` | gp/linuxCsource/trcov.c:200-238 | the outer loop over j leaves the buffers holding the support of all m columns, with the number of triplets in `ind` and the capacity either the initial one or below twice that number |
| `Accumulate.Trim` | gp/linuxCsource/trcov.c:241-243 | the trimmed buffers have exactly `ind` entries and hold the same triplets |
| `Accumulate.CollectTriplets` | gp/linuxCsource/trcov.c:200-243 | after collection and the trim, the buffers hold exactly the support of the matrix, in order |
| `Sparse.LayoutWrite` | gp/linuxCsource/trcov.c:264-277 | a write at a column's cursor stays inside that column's block and keeps the other columns intact |
| `Sparse.WriteColumn` | gp/linuxCsource/trcov.c:265-266 | a write at column j's cursor extends column j by the written entry and leaves every other column's filled slots as they were |
| `Sparse.HoldsAppend` | gp/linuxCsource/trcov.c:265-266 | writing the slot just past a column's filled part extends that part by the entry written |
| `Sparse.HoldsOther` | gp/linuxCsource/trcov.c:265-266 | writing a slot outside a column's filled part leaves that part intact |
| `Sparse.CountRows` | gp/linuxCsource/trcov.c:248 | counting over `It` gives, for each column, the number of upper triplets in that row: the size of its mirrored lower part |
| `Sparse.CountCols` | gp/linuxCsource/trcov.c:249 | counting over `Jt` gives each column's number of upper triplets |
| `Sparse.CountDegrees` | gp/linuxCsource/trcov.c:246-250 | `w` ends as the full column counts (row count + column count + 1) and `w2` as the upper column counts |
| `Sparse.Put` | gp/linuxCsource/trcov.c:265-266 | `I[i = w[j]++]`, `C[i]` appends one entry to column j and advances its cursor |
| `Sparse.ColumnSliceOf` | gp/linuxCsource/trcov.c:264 | the triplets from `Jc[j]` to `Jc[j+1]` are column j's, strictly above the diagonal |
| `Sparse.UpperColsStep` | gp/linuxCsource/trcov.c:265-266 | one step of the upper pass appends the triplet to its own column only |
| `Sparse.LowerColsStep` | gp/linuxCsource/trcov.c:275-276 | one step of the lower pass appends the mirrored triplet to the column of its row only |
| `Sparse.DiagColsStep` | gp/linuxCsource/trcov.c:270-271 | one step of the diagonal pass appends `(j, ms)` to column j only |
| `Sparse.UpperReady` | gp/linuxCsource/trcov.c:264-266 | the column of triplet k still has room for it, and writing it advances the upper pass by one triplet |
| `Sparse.LowerReady` | gp/linuxCsource/trcov.c:274-276 | the column of triplet k's row still has room for the mirrored entry, and writing it advances the lower pass by one triplet |
| `Sparse.FillUpperColumn` | gp/linuxCsource/trcov.c:264-267 | the inner upper-pass loop for column j copies that column's triplets |
| `Sparse.FillUpper` | gp/linuxCsource/trcov.c:263-268 | the upper pass leaves every column holding its upper part at the head of its block |
| `Sparse.FillDiagonal` | gp/linuxCsource/trcov.c:269-272 | the diagonal pass appends the diagonal entry to every column |
| `Sparse.FillLowerColumn` | gp/linuxCsource/trcov.c:274-277 | the inner lower-pass loop for column j writes the mirrored entries `(j, value)` into the columns of the rows |
| `Sparse.FillLower` | gp/linuxCsource/trcov.c:273-278 | the lower pass adds each column's mirrored lower part after its diagonal entry, which completes every column |
| `Sparse.CursorsAtEnd` | gp/linuxCsource/trcov.c:273-278 | once the lower pass is done, each cursor stands at the start of the next column |
| `Sparse.StartCursors` | gp/linuxCsource/trcov.c:262 | after the second `cumsum2`, each cursor is at the start of its column and every block is still empty |
| `Sparse.PassesChain` | gp/linuxCsource/trcov.c:263-278 | each pass starts where the previous one ended, and the last one produces the full columns |
| `Sparse.Fill` | gp/linuxCsource/trcov.c:262-278 | the three passes write every column's full contents into its block |
| `Sparse.FullColumn` | gp/linuxCsource/trcov.c:262-278 | a block filled to its column's full length reads back as that column |
| `Sparse.FilledColumns` | gp/linuxCsource/trcov.c:262-278 | filled blocks that each reach the next start give column starts that never decrease, with every compressed column equal to the intended column |
| `Sparse.Starts` | gp/linuxCsource/trcov.c:246-262 | counting and both `cumsum2` calls give `Jc` as the starts of the columns' triplets, `J` as the prefix sums of the full column counts, and every cursor at its column's start |
| `Sparse.Build` | gp/linuxCsource/trcov.c:255-278 | after `2*ind + m` slots are allocated and the three passes run, every column's block holds that column's full contents |
| `Sparse.AssembleSparse` | gp/linuxCsource/trcov.c:245-278 | from ordered triplets: `J` is the prefix sums of the full column counts, `J[m] = 2*ind + m` sizes `I` and `C`, starts never decrease, and every compressed column equals the symmetric column with ms on the diagonal |
| `Dense.ClampRange` | gp/linuxCsource/trcov.c:99 | `d = (d>eps) ? d : 0` is 0 or above eps, and keeps d exactly when d is above eps or 0 |
| `Dense.CellUpdate` | gp/linuxCsource/trcov.c:92 | writing one slot of the m-by-m array changes that cell only |
| `Dense.AddDimensionColumn` | gp/linuxCsource/trcov.c:90-93 | for column j, adds dimension i's term to every cell above the diagonal and changes nothing else |
| `Dense.AddDimension` | gp/linuxCsource/trcov.c:87-95 | one pass of the dimension loop adds dimension i's term to the whole strict upper triangle |
| `Dense.AccumulateDistances` | gp/linuxCsource/trcov.c:83-95 | the new zeroed matrix ends with each cell above the diagonal holding the scaled squared distance of its two rows, and 0 elsewhere |
| `Dense.CovarianceFacts` | gp/linuxCsource/trcov.c:96-104 | the covariance is symmetric, equals ms on the diagonal, and off the diagonal is 0 or above eps |
| `Dense.TransformPair` | gp/linuxCsource/trcov.c:98-101 | transforms one upper cell and writes the clamped value to it and to its mirror |
| `Dense.TransformColumn` | gp/linuxCsource/trcov.c:97-103 | for column j, writes the covariance into row j's and column j's cells and ms on the diagonal |
| `Dense.DenseCovariance` | gp/linuxCsource/trcov.c:82-105 | every cell (r, c) of the m-by-m result is ms on the diagonal and `Clamp(kern(distance of rows r and c))` elsewhere |
| `Params.ParseTag` | gp/linuxCsource/trcov.c:82-599 | the `type` strings recognised are exactly the eight tag names compared at lines 82, 109, 136, 164, 192, 292, 394 and 497, each giving its own kernel; any other string falls through to the undefined-type exit at 598-599 |
| `Params.FirstFailure` | gp/linuxCsource/trcov.c:34-599 | the arguments are refused exactly when some check fails, and the error reported is the failing check that comes first, in the order of lines 34-75, then the `gpcf.l` checks of the compact-support branches (193-197, 293-297, 395-399, 498-502), then the undefined-type exit at 599 |
| `Params.VectorLength` | gp/linuxCsource/trcov.c:64-67 | an array that passes the vector test has `lr = max(dims)` elements, or none |
| `Params.ValidateAsWritten` | gp/linuxCsource/trcov.c:34-75 | the validation as written accepts exactly when no check fails; the accepted values are the input shape, `magnSigma2`, the length-scale data (of length 1, n, or possibly 0), the kernel of the tag and `gpcf.l` for compact-support kernels |
| `Params.EmptyLengthScaleAccepted` | gp/linuxCsource/trcov.c:64-69 | a 1-by-0 `lengthScale` with one input column passes validation |
| `Params.Validate` | gp/linuxCsource/trcov.c:34-75 | the corrected validation also refuses an empty length scale when X has a column; what it accepts has one length scale or one per input column; any error it reports is a failing check |
| `Params.EmptyLengthScaleRefused` | gp/linuxCsource/trcov.c:64-69 | the corrected validation refuses the 1-by-0 `lengthScale` with one input column, with the vector-shape error |
| `Params.EmptyLengthScaleBeforeType` | gp/linuxCsource/trcov.c:64-75 | an empty `lengthScale` without a `type` field: the code as written reports the missing type (lines 72-73), the corrected check the vector-shape error (lines 65-66), because the shape test comes first |
| `Params.NoColumnsAccepted` | gp/linuxCsource/trcov.c:64-69 | with no input column, the corrected validation accepts an empty `lengthScale` exactly as the code as written does |
| `TrCov.PairDistOf` | gp/linuxCsource/trcov.c:217-223 | the distance the upper-triangle loop computes for a pair is the symmetric distance of the two rows |
| `TrCov.SupportCovariance` | gp/linuxCsource/trcov.c:217-278 | columns assembled from the support have increasing rows, ms on the diagonal, store row r of column c exactly when the distance is below 1, with value `kern(distance)`, and read 0 otherwise |
| `TrCov.SparseCovariance` | gp/linuxCsource/trcov.c:192-278 | the compact-support gateway branch builds that sparse covariance matrix, with `J[m] = m + 2 * (number of pairs k < c of input rows at distance below 1)` |
| `TrCov.ToArray` | gp/linuxCsource/trcov.c:50 | the host data becomes an array with the same contents |
| `TrCov.Gateway` | gp/linuxCsource/trcov.c:29-602 | the gateway applies the corrected validation `Params.Validate`: it fails with exactly the error that validation reports; otherwise it returns, for a dense kernel, the full covariance matrix and, for a compact-support kernel, the sparse one |

## Left out

- MEX marshalling is not modelled: `mxCreateDoubleMatrix`, `mxCreateSparse`, `mxCalloc`, `mxFree`. Arrays are fresh Dafny arrays. The `if (C)` guards in the fill passes and the null guard in `cumsum2` always see valid storage.
- `mexErrMsgTxt` aborts the call. Here it is a `Fail(error)` result, and `Params.Message` gives the error's text.
- Floating point is not modelled: `exp`, `log`, `sqrt`, `pow`, rounding, NaN and infinities. The kernel formulas are the parameter `TrCov.Formula` (kernel, ms, `gpcf.l`, scaled squared distance). All reals are exact.
- `ms = exp(log(magnSigma2))` is taken as `magnSigma2` itself. The two agree for positive values.
- The three remaining dense kernels (lines 109-190) differ from `gpcf_sexp` only in the formula applied to the accumulated distance. They share `Dense.DenseCovariance` through the formula parameter.
- The branches `gpcf_ppcs1`..`gpcf_ppcs3` (lines 292-596) differ from `gpcf_ppcs0` only in `D2` and in the polynomial factor. They share `TrCov.SparseCovariance` in the same way.
- `TrCov.Gateway` applies the corrected `Params.Validate`, not the validation as written. The corrected check refuses an empty `lengthScale` (with at least one input column) before the `type` and `gpcf.l` checks, so on those inputs its vector-shape error replaces the error the code as written reports for a missing, non-character or unknown `type` or a bad `gpcf.l` (`Params.EmptyLengthScaleBeforeType`). Only when all of those checks pass does the code as written go on to read `l[0]` out of bounds (line 88 or 210), which has no Dafny counterpart.
- `Geometry.LengthScalesOk`, `TrCov.NonzeroScales`: a length scale of 0 is excluded from accepted arguments (`TrCov.Gateway` requires it only when validation succeeds). The source squares it (lines 88, 210) and divides by the square (lines 92, 222) in IEEE arithmetic: the infinite or NaN distances fail the support test `c < 1.0` (line 224), and in the dense path the clamp at line 99 sends NaN and exp(-Inf) to 0, so the source returns `magnSigma2` on the diagonal and 0 elsewhere. The model does not capture this, since Dafny's real division by zero is not IEEE division.
- `Params.ParseTag` compares the whole `type` string, while `strcmp` on the result of `mxArrayToString` stops at the first NUL character; a `type` with an embedded NUL after a tag name (such as `gpcf_sexp` followed by NUL and more characters) is accepted by the source as that tag and refused by the model.
- `mwIndex`/`mwSize` are unbounded `nat`s here, so 64-bit wrap-around in `2*nnz`, `2*ind+m` or `m*m` is not modelled.
- `Accumulate.InitialCapacity`: the capacity `floor(0.05*m*m)` is computed exactly. Double rounding for `m*m` above 2^53 is not modelled.
- With `nlhs == 3` the gateway still produces only `plhs[0]`. The other two outputs are never set, and they are not modelled.
- `Sparse.CountDegrees` allocates `w2` after counting into `w`, not before. The result is the same.
- `mxRealloc` may move or extend a buffer in place. `Accumulate.Realloc` always returns a new array holding the same prefix.
- Inputs with more than two dimensions are not modelled: only `dims[0]` and `dims[1]` are read. An argument that is not a structure is modelled as a structure without fields, which is how `mxGetField` answers it.
- The value of a 1-by-1 field is its first data element. `mxGetScalar` on a character array is not distinguished.

## Findings

| source | as written | input that shows it | evidently intended | confidence | as-written member | corrected member |
|---|---|---|---|---|---|---|
| gp/linuxCsource/trcov.c:64-69 | the vector test `dims[0]!=1 && dims[1]!=1` and `lr=max(dims[0],dims[1])` accept an empty 1-by-0 (or 0-by-1) `lengthScale`, because `lr` is then 1; the kernels then read `l[0]` (line 88, line 210) from an empty array | `gpcf.lengthScale = zeros(1,0)`, `gpcf.magnSigma2 = 1`, `gpcf.type = 'gpcf_sexp'`, `X` 1-by-1 | an empty length scale is refused with "gpcf.lengthScale must be a scalar or a vector." when X has a column; with no column it is never read and stays accepted | not executed; inferred from the shape checks | `Params.EmptyLengthScaleAccepted` | `Params.Validate` |
