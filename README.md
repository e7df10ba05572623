# delta_uvw_delta_time, modelled in Dafny

`delta_uvw_delta_time` (africanus/gridding/facet/support.py) estimates, for
every row of a radio-interferometry measurement, how fast the row's uvw
coordinates change with time.

It works in these steps:
- It checks that time never decreases.
- It builds canonical copies of the antenna columns, with the smaller antenna first.
- It groups the rows by baseline, the (antenna1, antenna2) pair, using
  `np.unique` and one boolean mask per baseline.
- For each group it takes forward differences of uvw and time and divides them.
- It concatenates the differences with the slice `res[-2:-1]` and assigns
  the result to the group's rows of a zeroed `(row, 3)` output through the mask. From three rows on, the
  slice is one more row, so every row is filled. For a pair the slice is
  empty and the single difference is broadcast onto both rows. For a single
  row there is nothing to fill it with, and numpy raises.

The model is in five modules:

- `Wrappers` (wrappers.dfy): `Option` and `Result`.
- `Uvw` (uvw.dfy): holds the numpy pieces the derivative depends on.
  - A uvw row (`Vec3`, over reals) and the difference quotient.
  - Python's slice rule for negative bounds (`PySlice`).
  - The broadcast rule of a masked assignment (`Broadcast`).
- `Baselines` (baselines.dfy): the baseline key of every row and the canonical copies.
  - The copies are an imperative method over arrays, like the source's in-place swap.
  - The partition of the rows into groups (`Group`, the rows a mask selects, in
    ascending order) and a row's position in its group (`Rank`).
  - The unique baselines, as a loop.
- `Derivative` (derivative.dfy): the value the function returns.
  - `GroupDerivative` is the per-group computation of lines 64-73 as a
    function: select, difference, divide, then pad with `res[-2:-1]` (or,
    under the `LastDifference` policy, `res[-1:]`) and broadcast.
  - `DuvwDt` is the whole result, stated row by row through `RowDerivative`.
    That is the forward quotient between the two rows of the group that a
    row takes its value from.
  - The lemmas connect the two, and prove the properties below.
- `Support` (support.dfy): the function as the code runs it.
  - The zeroed output array is filled by a loop over the unique baselines.
    Each pass writes one group through its mask (`Scatter`).
  - `DeltaUvwDeltaTime` is proved to return exactly `DuvwDt` on the keys as
    stacked at line 54, with the `res[-2:-1]` padding.
  - `DeltaUvwDeltaTimeIntended` is the corrected function. It stacks the
    canonical copies and pads with `res[-1:]`.
- `Findings` (findings.dfy): the two discrepancies, each on a concrete input,
  with a general property of the correction.

Where the docstring and the code disagree, the model follows the code.
- Note 4 (lines 38-39) says mirrored baselines are grouped together. The code
  stacks the original columns at line 54, so they are not; the canonical
  copies are computed and never used.
- Note 3 (lines 36-37) says the last row of the diff is replicated. The code
  pads with `res[-2:-1]`, the second-to-last difference. For a group of two
  rows that slice is empty and the one difference is broadcast onto both
  rows. For a group of one row nothing can be broadcast and numpy raises.

Both appear under "## Findings".

## Model

| member | source | states |
|---|---|---|
| Uvw.Quotient | africanus/gridding/facet/support.py:71 | the quotient, multiplied back by the time difference, gives the uvw difference |
| Uvw.QuotientOfConstantRate | africanus/gridding/facet/support.py:67-71 | the quotient of two samples of a motion at constant rate is that rate |
| Uvw.SliceBound | africanus/gridding/facet/support.py:73 | a slice bound lands within the sequence, counts negative bounds from the end, and keeps in-range bounds |
| Uvw.PySlice | africanus/gridding/facet/support.py:73 | a slice is never longer than the sequence; in-range bounds select `s[start..stop]`, negative bounds count from the end, and a stop at or before the start gives nothing |
| Uvw.Broadcast | africanus/gridding/facet/support.py:73 | a masked assignment succeeds exactly when the values match the selected rows one for one or are a single row; selected row j then receives value j, or the single row |
| Baselines.Stack | africanus/gridding/facet/support.py:54 | the stacked baseline array has one row per input row, antenna1 in the first column and antenna2 in the second |
| Baselines.CanonicalKey | africanus/gridding/facet/support.py:50-52 | the canonical key puts the smaller antenna first |
| Baselines.CanonicalKeySameBaseline | africanus/gridding/facet/support.py:38-39 | two antenna pairs get the same canonical key exactly when they are the same pair or each other's mirror |
| Baselines.CanonicalKeys | africanus/gridding/facet/support.py:47-52 | one key per row, smaller antenna first, holding the row's two antennas in one order or the other |
| Baselines.CanonicalKeysMirrorInvariant | africanus/gridding/facet/support.py:47-52 | writing any rows as their mirror leaves the canonical keys unchanged |
| Baselines.CanonicalCopies | africanus/gridding/facet/support.py:47-52 | the copies are fresh arrays holding min and max of each row's antennas; the caller's arrays are not changed; stacked, they are the canonical keys |
| Baselines.Group | africanus/gridding/facet/support.py:55-58 | every row a group lists is a valid row carrying the group's key |
| Baselines.GroupAscending | africanus/gridding/facet/support.py:64-65 | a group lists its rows in ascending row order, as a boolean mask selects them |
| Baselines.GroupOfPrefix | africanus/gridding/facet/support.py:58 | the group of a prefix of the rows is a prefix of the group |
| Baselines.Rank | africanus/gridding/facet/support.py:58-65 | every row occurs in its own key's group, at position `Rank` |
| Baselines.RowInOwnGroupOnly | africanus/gridding/facet/support.py:54-58 | a row lies in the group of a key exactly when it carries that key, so the groups partition the rows |
| Baselines.RankInGroup | africanus/gridding/facet/support.py:64-65 | entry t of a group is the row whose position is t |
| Baselines.NextInGroup | africanus/gridding/facet/support.py:64-67 | consecutive rows of one key take consecutive positions in its group |
| Baselines.FirstInGroup | africanus/gridding/facet/support.py:64-67 | a row is first in its group exactly when no earlier row shares its key |
| Baselines.LastInGroup | africanus/gridding/facet/support.py:73 | a row is last in its group exactly when no later row shares its key |
| Baselines.SingletonGroup | africanus/gridding/facet/support.py:67-73 | a row's group holds that row alone exactly when no other row shares its key |
| Baselines.PartnerGroupSize | africanus/gridding/facet/support.py:67-73 | a row shares its key with another row exactly when its group holds two rows or more |
| Baselines.UniqueKeys | africanus/gridding/facet/support.py:55 | the unique baselines hold every row's key and nothing else, without repeats |
| Derivative.NonDecreasing | africanus/gridding/facet/support.py:44 | the time check: every adjacent time difference is non-negative (its consequences are stated by `NonDecreasingSorted`) |
| Derivative.NonDecreasingSorted | africanus/gridding/facet/support.py:44 | the adjacent-difference time check orders every pair of rows |
| Derivative.DistinctTimesSuffice | africanus/gridding/facet/support.py:68-71 | distinct timestamps within every group leave no zero time difference to divide by |
| Derivative.Gather | africanus/gridding/facet/support.py:64-65 | a masked selection has one entry per selected row |
| Derivative.DiffQuotients | africanus/gridding/facet/support.py:67-71 | differencing n samples gives n - 1 quotients, none for no samples |
| Derivative.PadLastRow | africanus/gridding/facet/support.py:73 | the padded value fills exactly the group's rows, and a group of n rows with its n - 1 differences pads exactly when n is at least two |
| Derivative.SourceEntry | africanus/gridding/facet/support.py:73 | every entry but the last takes its own quotient; the last takes entry n - 3 as written (0 for a pair), or n - 2 under `res[-1:]` |
| Derivative.PadLastRowCases | africanus/gridding/facet/support.py:73 | one row cannot be filled; two rows both get the one difference; three or more get the differences plus difference n - 3 as written (n - 2 under `res[-1:]`) |
| Derivative.PadLastRowEntry | africanus/gridding/facet/support.py:73 | from two rows on the padding succeeds, fills every row, and entry j is the quotient its source entry names |
| Derivative.GroupQuotients | africanus/gridding/facet/support.py:64-71 | a group of n rows yields n - 1 quotients |
| Derivative.DiffQuotientEntry | africanus/gridding/facet/support.py:67-71 | quotient j is the uvw difference over the time difference of samples j and j + 1 |
| Derivative.GroupQuotientEntry | africanus/gridding/facet/support.py:64-71 | quotient j of a group is taken between its rows j and j + 1, whose times differ |
| Derivative.GroupDerivative | africanus/gridding/facet/support.py:64-73 | a group that pads fills exactly its own rows |
| Derivative.GroupFailsIffSingleton | africanus/gridding/facet/support.py:67-73 | a group fails to pad exactly when it holds one row |
| Derivative.GroupDerivativeEntry | africanus/gridding/facet/support.py:64-73 | a group of two rows or more pads, and its entry j is the quotient that entry j's source entry names |
| Derivative.SourceRows | africanus/gridding/facet/support.py:64-73 | a row takes its value from two rows, earlier before later, both in its own group |
| Derivative.SourceRowsPair | africanus/gridding/facet/support.py:64-73 | those two rows are the group entries t and t + 1, t the row's source entry |
| Derivative.SourceRowsStep | africanus/gridding/facet/support.py:68-71 | the time difference a row is divided by is not zero |
| Derivative.RowDerivative | africanus/gridding/facet/support.py:64-73 | a row's derivative, scaled by the time step between its two source rows (which is not zero), gives their uvw difference |
| Derivative.GroupPadsIffPartner | africanus/gridding/facet/support.py:67-73 | a row's group pads exactly when another row shares its key |
| Derivative.FailingGroupHasRow | africanus/gridding/facet/support.py:73 | a group that fails to pad holds exactly one row, which carries its key and is unpaired |
| Derivative.GroupDerivativeRow | africanus/gridding/facet/support.py:73 | where a group pads, the masked row at a row's position receives exactly that row's derivative |
| Derivative.RowDerivativeQuotient | africanus/gridding/facet/support.py:64-73 | a row's derivative is the group quotient at its source entry |
| Derivative.DuvwDt | africanus/gridding/facet/support.py:10-75 | the result of the function: on success time passed the check and there is one row per input row; a failure is the time error exactly when time fails the check |
| Derivative.DuvwDtRow | africanus/gridding/facet/support.py:60-75 | a successful call passed the time check, paired every row, returns one row per input row, and row i is row i's derivative |
| Derivative.UnpairedRowFails | africanus/gridding/facet/support.py:67-73 | past the time check, one row alone in its group makes the call fail with the broadcast error |
| Derivative.DuvwDtOfRows | africanus/gridding/facet/support.py:60-75 | a sequence holding every row's derivative, every row paired, is the successful result |
| Derivative.RowValue | africanus/gridding/facet/support.py:64-73 | every row of a successful call is the forward quotient between its two source rows, whose times differ |
| Derivative.SucceedsIff | africanus/gridding/facet/support.py:44-73 | the call succeeds exactly when time is non-decreasing and every row shares its key with another row; it then returns as many rows as uvw; otherwise the time error comes first |
| Derivative.DecreasingTimeFails | africanus/gridding/facet/support.py:44-45 | one decreasing adjacent pair of times makes the call fail with the time error |
| Derivative.NonFinalRow | africanus/gridding/facet/support.py:64-71 | a row followed by another row of its group gets the forward quotient to the next such row |
| Derivative.FinalRowRepeatsSecondToLast | africanus/gridding/facet/support.py:73 | as written, in a group of three or more rows the last row gets the same vector as the row two places before it |
| Derivative.PairSharesQuotient | africanus/gridding/facet/support.py:73 | a group of exactly two rows gives both rows the one quotient between them |
| Derivative.FinalRowBackwardQuotient | africanus/gridding/facet/support.py:36-37 | under `res[-1:]` the last row of a group gets the quotient from the row before it |
| Derivative.QuotientOfSamples | africanus/gridding/facet/support.py:67-71 | two samples of a constant-rate motion at different times have the rate as their quotient |
| Derivative.ConstantRateRow | africanus/gridding/facet/support.py:64-73 | a row whose baseline moves at a constant rate gets that rate, under either padding |
| Derivative.ConstantRateRecovered | africanus/gridding/facet/support.py:60-75 | where every baseline moves at a constant rate, a successful call returns each row its baseline's rate |
| Support.Differentiate | africanus/gridding/facet/support.py:58-75 | the loop over any list of baselines covering every row returns a fresh array equal to `DuvwDt`, or the failure `DuvwDt` names |
| Support.PadBaseline | africanus/gridding/facet/support.py:63-73 | one pass either fills the rows of its baseline with their derivatives, keeps the rows done before, and leaves every other baseline's rows as they were, or reports the failure of the whole call and leaves the output unchanged |
| Support.Scatter | africanus/gridding/facet/support.py:73 | the masked assignment writes entry `Rank` to every row of the key and leaves every other row unchanged |
| Support.MaskedStep | africanus/gridding/facet/support.py:63-73 | after one masked write, the rows of the baselines done so far, now including this one, hold their derivatives |
| Support.AllFilled | africanus/gridding/facet/support.py:63-75 | once every row's baseline is done, the output is the whole result |
| Support.DeltaUvwDeltaTime | africanus/gridding/facet/support.py:10-75 | the function as written returns exactly `DuvwDt` on the ordered keys with `res[-2:-1]` padding, including both failures |
| Support.DeltaUvwDeltaTimeIntended | africanus/gridding/facet/support.py:10-75 | the corrected function returns exactly `DuvwDt` on the canonical keys with `res[-1:]` padding |
| Findings.MirrorRowFailsAsWritten | africanus/gridding/facet/support.py:54 | on four samples of one baseline, one of them recorded as its mirror, the function as written fails |
| Findings.MirrorRowJoinsIntended | africanus/gridding/facet/support.py:47-54 | on the same input with canonical keys, every row gets the baseline's rate |
| Findings.IntendedMirrorInvariant | africanus/gridding/facet/support.py:38-39 | with canonical keys, writing any rows as their mirror changes neither the preconditions nor the result |
| Findings.LastRowRepeatsAsWritten | africanus/gridding/facet/support.py:73 | on three samples whose rate changes, the last row as written gets (1, 1, 1) while the last difference is (2, 2, 2) |
| Findings.LastRowBackwardIntended | africanus/gridding/facet/support.py:36-37 | with `res[-1:]`, the last row on the same input gets (2, 2, 2) |

## Left out

- Floating point: times and uvw are reals. Division by a time difference is exact (written as a product with its reciprocal), and NaN, inf and rounding are not modelled.
- NaN in `time`, which makes the comparison at line 44 fail, is a floating-point effect and is not modelled.
- DeltaUvwDeltaTime: requires that no two consecutive rows of a group share a timestamp once time passes the check. numpy would divide by zero there and fill the row with inf or nan rather than raise. DeltaUvwDeltaTimeIntended carries the same requirement.
- Baselines.UniqueKeys: lists the baselines in order of first occurrence, not in numpy's lexicographic order. `Support.Differentiate` is proved for every order that covers all rows, so the result does not depend on it.
- Array shapes, dtypes and the `(row, 3)` layout: the inputs are arrays of equal length and uvw rows are `Vec3`. numpy's errors for mismatched shapes, and the truncation of `zeros_like` for integer uvw, are not modelled.
- The broadcast error: it is modelled as a failed result. The rows written before the failing group stay in the output array the function discards, so they are not observable and are not modelled.
- africanus/filters/tests/test_oversampling.py is not part of this model. It is a test that calls code outside this module, and does float index snapping and plotting.

## Findings

| source | as written | input that shows it | evidently intended | confidence | as-written member | corrected member |
|---|---|---|---|---|---|---|
| africanus/gridding/facet/support.py:54 | `np.stack([antenna1, antenna2])` stacks the original columns, so a mirrored row forms a group of its own and the canonical copies `ant1`, `ant2` go unused | time [0, 1, 2, 3], antenna1 [0, 0, 1, 0], antenna2 [1, 1, 0, 1]: row 2 is alone in baseline (1, 0) and the masked assignment raises | stack `ant1`, `ant2`, so every row joins its mirror and all four rows get the rate (1, 2, 3) | not executed | Findings.MirrorRowFailsAsWritten | Findings.MirrorRowJoinsIntended |
| africanus/gridding/facet/support.py:73 | the last row of a group is padded with `res[-2:-1]`, the second-to-last difference | time [0, 1, 2], one baseline, uvw (0,0,0), (1,1,1), (3,3,3): the last row gets (1, 1, 1) | pad with `res[-1:]`, so the last row gets the last difference (2, 2, 2) | not executed | Findings.LastRowRepeatsAsWritten | Findings.LastRowBackwardIntended |
