# Multiband slice-order recovery, modelled in Dafny

`mb-slice-order.py` recovers the acquisition order of a multiband diffusion-MRI
scan from the `SliceTiming` array of its JSON sidecar. Slices excited together
share one acquisition time. The script therefore groups slice indices by time:

- there is one group per distinct time, in ascending order of time (`np.unique`);
- each group lists, in ascending order, the slices taken at that time
  (`np.where(time == timing)[0]`).

It then asserts that the first group has as many slices as the sidecar's
`MultibandAccelerationFactor`. The grouping is written twice in the file, once
as `main` (lines 8-14) and once as the loop of the script block (lines 34-36).

The model has four modules:

- `Sequences` (sequences.dfy): generic facts used by the proofs. It covers
  strictly increasing and repeat-free sequences, flattening a list of groups,
  and counting distinct elements.
- `UniqueValues` (unique.dfy): `Unique`, the sorted distinct values, as
  `np.unique` returns them. It also holds `Minimum`.
- `WhereIndices` (where.dfy): `IndicesOf`, the ascending positions holding a
  value, as `np.where` returns them. `FindIndices` is the same thing as a
  left-to-right scan.
- `SliceOrder` (slice_order.dfy): `Group` models `main`. `BuildSliceOrder`
  models the script loop. `SanityCheck` models the assertion.
  `RecoverSliceOrder` models the script block up to the assertion (lines 34-39).
  It returns the groups that are handed to `np.savetxt`.
  - `IsSliceOrder` is an independent description of a correct slice order.
    Being a slice order is proved equivalent to being `Group`'s result.
  - The three worked cases at the end are concrete inputs.

Slice times are modelled as `int`. The code only compares times for equality
and order, so no floating-point arithmetic is involved. The script's two
failures become a `Result` error rather than a precondition:

- An empty timing array gives no groups, so `slice_order[0]` raises
  `IndexError`. This becomes `CheckError.NoSlices`.
- A first group of the wrong size fails the `assert`. This becomes
  `CheckError.FirstGroupSize(expected, found)`.

In a regular multiband acquisition every group has as many slices as the
factor. The code checks only the first group, and the model does the same.
`SanityCheckReadsFirstGroupOnly` and `LaterGroupsUnchecked` state this.

## Model

| member | source | states |
|---|---|---|
| `UniqueValues.Unique` | mb-slice-order.py:11 | the distinct times are strictly ascending, and a value is among them exactly when some slice has that time |
| `UniqueValues.UniqueIsCanonical` | mb-slice-order.py:11 | any strictly ascending listing of exactly the slice times equals `Unique`, so the distinct times are determined uniquely |
| `UniqueValues.UniqueLength` | mb-slice-order.py:11 | there are as many distinct times as there are distinct values in the timing array |
| `UniqueValues.UniqueStartsAtMinimum` | mb-slice-order.py:35 | for a non-empty array, the first distinct time is the earliest slice time |
| `WhereIndices.IndicesOf` | mb-slice-order.py:12 | the indices are strictly ascending, and index i is listed exactly when 0 <= i < n and slice i has the given time |
| `WhereIndices.IndicesOfCount` | mb-slice-order.py:12 | the number of indices found equals the number of occurrences of the time (its multiset count) |
| `WhereIndices.FindIndices` | mb-slice-order.py:36 | the left-to-right scan returns the ascending indices holding the time, the same list as `IndicesOf` |
| `SliceOrder.GroupIsSliceOrder` | mb-slice-order.py:10-12 | the grouping is a slice order: each group is non-empty, ascending and exactly the slices at its time; times ascend; every slice is covered |
| `SliceOrder.SliceOrderIsGroup` | mb-slice-order.py:10-12 | any list of groups meeting that description is the grouping, so the description determines the result |
| `SliceOrder.SliceOrderCharacterisation` | mb-slice-order.py:10-12 | a list of groups is a slice order of the timing array if and only if it is the grouping |
| `SliceOrder.Group` | mb-slice-order.py:8-13 | `main`'s grouping: one group per distinct time; group k holds exactly the slices whose time is the k-th distinct time, is non-empty, and lists them in ascending slice order |
| `SliceOrder.GroupsPerDistinctTime` | mb-slice-order.py:11-12 | there is one group per distinct time; every group is non-empty; group times strictly ascend |
| `SliceOrder.GroupsDisjoint` | mb-slice-order.py:10-12 | a slice listed in groups k1 and k2 forces k1 == k2; no two groups share a slice |
| `SliceOrder.GroupsFlattenDistinct` | mb-slice-order.py:10-12 | laid end to end, the groups list no slice twice |
| `SliceOrder.GroupsCoverSlices` | mb-slice-order.py:10-12 | laid end to end, the groups hold exactly the slice indices 0 to n-1 |
| `SliceOrder.GroupSizesSum` | mb-slice-order.py:10-12 | the group sizes add up to the number of slices |
| `SliceOrder.GroupPartitionsSlices` | mb-slice-order.py:10-12 | the groups partition 0 to n-1: every slice is in some group, in at most one, and no index is out of range |
| `SliceOrder.FirstGroupIsEarliest` | mb-slice-order.py:35-39 | for a non-empty array, the first group is exactly the slices at the earliest time, and its size is that time's count |
| `SliceOrder.GroupEmpty` | mb-slice-order.py:34-36 | an empty timing array yields no groups |
| `SliceOrder.SanityCheck` | mb-slice-order.py:39 | the check passes exactly when there is a first group and its size equals the multiband factor; on success the groups pass through unchanged |
| `SliceOrder.SanityCheckReadsFirstGroupOnly` | mb-slice-order.py:39 | two group lists whose first groups have the same size get the same verdict and error, whatever their later groups hold |
| `SliceOrder.SanityCheckOnGroup` | mb-slice-order.py:34-39 | on the grouping, the check passes iff the array is non-empty and the earliest time occurs exactly factor times; empty input gives `NoSlices`; otherwise the error reports the factor and the count found |
| `SliceOrder.BuildSliceOrder` | mb-slice-order.py:34-36 | the script's loop yields a slice order, and it equals the grouping of `main` for the same input |
| `SliceOrder.RecoverSliceOrder` | mb-slice-order.py:34-39 | the sanity check passes iff the array is non-empty and the earliest time occurs exactly factor times; the groups then handed to `np.savetxt` are a slice order equal to `main`'s grouping; each failure at line 39 carries its error |
| `SliceOrder.ThreeBandExample` | mb-slice-order.py:34-39 | times 0,100,200 repeated three times group as [[0,3,6],[1,4,7],[2,5,8]], and the check with factor 3 passes |
| `SliceOrder.ShortTimingExample` | mb-slice-order.py:34-39 | times [0,100,200,0,100] with factor 3 fail the check: the first group has 2 slices |
| `SliceOrder.LaterGroupsUnchecked` | mb-slice-order.py:39 | times [0,0,1] with factor 2 pass the check even though the second group has one slice |

## Left out

- Reading the JSON sidecar and the command-line arguments (mb-slice-order.py:17-32). This is I/O. The timing array and the multiband factor are parameters instead.
- Writing the order with `np.savetxt` (mb-slice-order.py:41). This is I/O. `RecoverSliceOrder` returns the groups handed to `np.savetxt`, so writing and re-reading the text file is not modelled.
- SliceOrder.RecoverSliceOrder: its `Ok` result means the sanity check passed, not that the script wrote a file. When the groups have different sizes, `np.savetxt` at mb-slice-order.py:41 cannot build a table from the ragged list and raises, so the script writes nothing. That failure depends on the NumPy version (a `ValueError` or a `TypeError`) and is not modelled. `LaterGroupsUnchecked` is such an input.
- Running Python with `-O` strips the `assert` at mb-slice-order.py:39. The model always performs the check.
- The `np.array(slices)` conversion at the end of `main` (mb-slice-order.py:14). Its result on groups of unequal size depends on NumPy (a ragged or object array). The model returns the list of groups.
- Floating-point slice times. NaN handling in `np.unique` and `0 == 0.0`-style mixed comparisons are not modelled. Times are integers compared exactly.
- `MultibandAccelerationFactor` is modelled as an integer. A non-integer JSON value is not modelled.
- compare-paap.py, fix-affine-inaccuracy.py, dki-fit.py and eigen2tensor.py are not part of this model. They consist of file loading, floating-point comparisons through NumPy, and calls into nibabel, dipy and fsl, whose code is not visible.
