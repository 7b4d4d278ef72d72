# seismiqb core utilities, modelled in Dafny

This project models the numeric and bookkeeping core of seismiqb, a library for deep learning on
seismic cubes. The modelled code lives in `seismiqb/src/utils.py` and in
`SeismicCubeset.make_grid` of `seismiqb/src/cubeset.py`. Each module below covers one piece.

- `Rounding` (rounding.dfy): `round_to_array`. Every value is replaced in place by the nearest
  tick; `numpy.searchsorted` is a binary search.
- `GroupBy` (groupby.dfy): `groupby_min`, `groupby_max` and `groupby_mean`. Each collapses runs of
  adjacent rows that share iline and xline. The passes are methods with a `position` cursor. They
  are proved equal to a function over the maximal runs (`Groups`).
- `Stats` (stats.dfy): `find_min_max`, plus `mode` and `nb_mode`, the per-trace mode of a
  volume. A NaN sample is `None`; an output cell is NaN, a mode, or unassigned.
- `RunningMean` (running_mean.dfy): `compute_running_mean` and `_compute_running_mean_jit`. They
  pad symmetrically, take two prefix sums, and read every window off the prefix sums by
  inclusion-exclusion.
- `Histogram` (histogram.dfy): the deterministic bookkeeping of `HorizonSampler.__init__`, and
  `generate_points`. It decodes flat row-major bin indices into per-axis bin edges.
- `Crops` (crops.dfy): `gen_crop_coordinates`. It tries two iline-shifted and two
  xline-shifted footprints, filters them, and returns the best ones ordered by score.
- `Grid` (grid.dfy): `make_axis_grid` and its twin `_make_axis_grid` (one function, `AxisGrid`).
  It also covers the cross-product grid, the batch generator (a cursor class), and
  `SeismicCubeset.make_grid`, a class whose method sets `grid_gen`, `grid_iters` and
  `grid_info`.
- `NestedValues` (nested.dfy): `flatten_nested`, `infer_tuple` and `IndexedDict.__getitem__`.
- `LruCache` (lru.dfy): the `lru_cache` decorator. Per instance it keeps an ordered dictionary, an
  `is_full` flag and hit/miss counters. `make_key` builds keys with `flatten_nested`.

Modelling choices:

- Integers are unbounded.
- Pixel and sample values are integers; means and probabilities are reals.
- Some Python exceptions are `Result` errors: an unknown cube, ranges outside the cube, an empty
  grid, and the `IndexError` and `KeyError` of the nested-value code. The cache code's one
  `KeyError`, from `popitem` on an empty dictionary, cannot arise: `LruCache.CachedCallKeepsSlotOk`
  keeps a full cache non-empty. Other failing
  inputs are excluded by a precondition instead; "## Left out" names each one and what the source
  does with it.
- The sampling box of `HorizonSampler.sample` is the bin itself only on evenly spaced edges
  (`Histogram.SampleBoxIsBin`); `np.histogramdd` with an integer bin count lays edges out that way.
- Where a documentation comment and the code differ, the model follows the code:
  - `nb_mode` breaks ties by the value whose count first reaches the maximum. It does not pick the
    first-seen of the most frequent values.
  - `make_axis_grid` may repeat a tick: its corrected last tick can coincide with a kept one
    (`Grid.AxisGridRepeats`).
  - With `maxsize` below one, an `lru_cache` instance still holds one entry (`LruCache.Capacity`).

## Model

| member | source | states |
|---|---|---|
| Rounding.SearchSorted | seismiqb/src/utils.py:578 | returns the first index whose tick is not below `p`: every earlier tick is below `p`, no later one is |
| Rounding.FirstAtLeastIsSearchSorted | seismiqb/src/utils.py:578 | any index that splits the sorted ticks at `p` is the one the index function gives, so the split is unique |
| Rounding.FirstAtLeastBrackets | seismiqb/src/utils.py:577-583 | for `p` strictly between the end ticks, `ix` is in (0, n) and `ticks[ix-1] < p <= ticks[ix]`, so both ticks read are in bounds |
| Rounding.NearestIsTick | seismiqb/src/utils.py:572-583 | every rounded value is one of the ticks |
| Rounding.NearestClamps | seismiqb/src/utils.py:573-576 | values at or below the first tick become the first tick; at or above the last, the last |
| Rounding.NearestIsGreatestClosest | seismiqb/src/utils.py:578-583 | no tick is closer to `p` than the result, and on a tie the result is the larger tick |
| Rounding.NearestOfTick | seismiqb/src/utils.py:572-583 | a value that is already a tick is unchanged, so rounding is idempotent |
| Rounding.RoundToArray | seismiqb/src/utils.py:556-584 | every array element is replaced in place by the nearest tick of its old value |
| GroupBy.Groups | seismiqb/src/utils.py:504-516 | the runs are non-empty, at most as many as the rows, and some run exists when a row does |
| GroupBy.GroupsConcat | seismiqb/src/utils.py:504-519 | concatenating the runs gives back the input rows |
| GroupBy.GroupsUniform | seismiqb/src/utils.py:507 | every row of a run has the iline and xline of the run's first row |
| GroupBy.GroupsMaximal | seismiqb/src/utils.py:507-515 | adjacent runs differ in key where they meet, so runs are maximal |
| GroupBy.GroupsOfDistinct | seismiqb/src/utils.py:504-519 | without adjacent repeated keys, every row is a run of its own |
| GroupBy.MinOfIsMin | seismiqb/src/utils.py:508 | a run's minimum is one of its values and no value is below it |
| GroupBy.MaxOfIsMax | seismiqb/src/utils.py:540 | a run's maximum is one of its values and no value is above it |
| GroupBy.CollapsedHasNoRepeats | seismiqb/src/utils.py:492-552 | the min and max outputs have no adjacent rows with the same key |
| GroupBy.CollapseDistinctIsIdentity | seismiqb/src/utils.py:492-552 | min- and max-groupby return an input without adjacent repeated keys unchanged |
| GroupBy.MeanOfDistinct | seismiqb/src/utils.py:459-488 | mean-groupby keeps every value of an input without adjacent repeated keys |
| GroupBy.CollapseIdempotent | seismiqb/src/utils.py:492-552 | collapsing an already collapsed output changes nothing |
| GroupBy.GroupByMin | seismiqb/src/utils.py:492-520 | the cursor pass returns one row per maximal run, holding the run's key and minimum |
| GroupBy.GroupByMax | seismiqb/src/utils.py:524-552 | the cursor pass returns one row per maximal run, holding the run's key and maximum |
| GroupBy.GroupByMean | seismiqb/src/utils.py:459-488 | the cursor pass returns one row per maximal run, holding the run's key and its sum over its length |
| Stats.FindMinMax | seismiqb/src/utils.py:588-595 | both results are elements of the array, and every element lies between them |
| Stats.MaxOccIsMax | seismiqb/src/utils.py:645-655 | no value occurs more often than the highest count |
| Stats.MaxOccAttained | seismiqb/src/utils.py:645-655 | some value of a non-empty trace reaches the highest count |
| Stats.MaxOccAtMostOne | seismiqb/src/utils.py:647-655 | the highest count is at most one exactly when all samples differ |
| Stats.ModeOfIsMostFrequent | seismiqb/src/utils.py:647-655 | no answer exactly when the samples are distinct; otherwise the answer is most frequent and is the value that first reaches the highest count |
| Stats.PickStateIsMode | seismiqb/src/utils.py:647-655 | once the trace is read, the loop's `element` is the trace's mode, or the carried answer when nothing repeats |
| Stats.TraceMode | seismiqb/src/utils.py:645-655 | the counter loop over one trace returns `CarryMode` of the answer carried in |
| Stats.CellValueIsTraceMode | seismiqb/src/utils.py:642-657 | a cell whose trace repeats a value holds a most frequent value of that trace |
| Stats.NbModeCell | seismiqb/src/utils.py:642-657 | one cell writes its `CellValue` and passes on the answer for the cells after it |
| Stats.NbModeRow | seismiqb/src/utils.py:641-657 | one row writes every cell of that row and leaves the other rows untouched |
| Stats.NbMode | seismiqb/src/utils.py:634-658 | every output cell is NaN where masked, and otherwise the answer of the row-major counter pass |
| Stats.ModeOfVolume | seismiqb/src/utils.py:628-631 | the mask is NaN exactly at traces holding a NaN sample, and the result is `nb_mode` under that mask |
| Stats.CarryModeKeepsEarlierAnswer | seismiqb/src/utils.py:646-657 | a trace [1, 2] after a trace whose answer was 5 is given 5, a value it does not contain |
| Stats.TraceOwnMode | seismiqb/src/utils.py:645-655 | counting from one, every non-empty trace gets one of its own most frequent values, the same as the source's whenever a value repeats |
| Stats.OwnModeOfDistinct | seismiqb/src/utils.py:645-655 | counting from one, a trace of distinct samples gets its first sample |
| RunningMean.Reflect | seismiqb/src/utils.py:602 | a reflected index lies inside the axis |
| RunningMean.ReflectPeriodic | seismiqb/src/utils.py:602 | symmetric reflection has period twice the axis length |
| RunningMean.Pad | seismiqb/src/utils.py:602 | the padded image has k more rows and columns on every side |
| RunningMean.PadKeepsImage | seismiqb/src/utils.py:602 | the original image sits unchanged in the middle of the padded one |
| RunningMean.CumSumIsPrefixSum | seismiqb/src/utils.py:603-604 | the two cumulative sums give at (i, j) the sum of the rectangle from the origin to (i, j) |
| RunningMean.InclusionExclusion | seismiqb/src/utils.py:620-624 | any rectangle's sum is four prefix sums combined by inclusion-exclusion |
| RunningMean.CanvasIsPrefixSum | seismiqb/src/utils.py:614-616 | the zero-bordered canvas holds the prefix sum of the rectangle above and left of each entry |
| RunningMean.MakeCanvas | seismiqb/src/utils.py:614-616 | the canvas holds at (a, b) the sum of the padded image's rectangle [0, a) x [0, b), so its first row and column are zero |
| RunningMean.FillRows | seismiqb/src/utils.py:618-624 | the outer loop leaves every output pixel holding its window mean |
| RunningMean.PixelMean | seismiqb/src/utils.py:620-624 | the four canvas reads give the window sum over kernel_size squared |
| RunningMean.RunningMeanRow | seismiqb/src/utils.py:619-624 | the inner loop fills one output row with the window means and leaves other rows unchanged |
| RunningMean.RunningMeanJit | seismiqb/src/utils.py:608-625 | every output pixel is the (2k+1)-square window sum of the padded image over kernel_size squared |
| RunningMean.ComputeRunningMean | seismiqb/src/utils.py:599-605 | the same per-pixel value, for the padding and sums the function computes itself |
| RunningMean.PadInRange | seismiqb/src/utils.py:602 | padding adds no value outside the image's range |
| RunningMean.WindowSumBounds | seismiqb/src/utils.py:620-624 | a window sum lies between lo and hi times the window's pixel count |
| RunningMean.OddKernelMeanInRange | seismiqb/src/utils.py:599-625 | for odd kernel sizes every output pixel lies within the input's range |
| RunningMean.EvenKernelOvershoots | seismiqb/src/utils.py:601-624 | kernel size 2 on the image [[1]] gives 9/4, outside the input's range |
| RunningMean.WindowMeanInRange | seismiqb/src/utils.py:601-624 | dividing by the window's own pixel count keeps every output in range for every kernel size, and agrees with the source for odd sizes |
| Histogram.DivSeqIsDivProd | seismiqb/src/utils.py:729-730 | dividing by every divisor in turn is dividing by their product |
| Histogram.Unravel | seismiqb/src/utils.py:727-731 | a flat index decodes to one in-range bin index per axis |
| Histogram.RavelBelowProd | seismiqb/src/utils.py:727-731 | the row-major index of a bin is below the number of bins |
| Histogram.RavelUnravel | seismiqb/src/utils.py:727-731 | recombining the decoded bin indices gives back every flat index |
| Histogram.UnravelRavel | seismiqb/src/utils.py:727-731 | decoding a bin's row-major index gives back its per-axis indices |
| Histogram.GeneratePoints | seismiqb/src/utils.py:722-732 | row i, axis j holds the edge at the flat index divided by every divisor of that axis, modulo its length |
| Histogram.LensEdges | seismiqb/src/utils.py:702 | each axis has one bin fewer than edges, and every count is positive |
| Histogram.Divisors | seismiqb/src/utils.py:703-704 | one divisor list per axis, all positive when the counts are |
| Histogram.SamplerPointIsBinEdge | seismiqb/src/utils.py:727-731 | with the sampler's own counts and divisors, the point on axis j is the lower edge of the decoded bin |
| Histogram.SampleBoxIsBin | seismiqb/src/utils.py:717-718 | on an evenly spaced axis, the box from the point's lower edge to that edge plus the shift is exactly the decoded bin |
| Histogram.UnevenBoxShorterThanBin | seismiqb/src/utils.py:705 | on unevenly spaced edges the box can be narrower than its bin: bin [1, 3) is sampled from [1, 2) |
| Histogram.NonzeroIdx | seismiqb/src/utils.py:697 | the kept indices increase, each names a non-empty bin, and every non-empty bin is kept |
| Histogram.NonzeroSum | seismiqb/src/utils.py:696-698 | the kept bins sum to the whole histogram |
| Histogram.NonzeroProbsDistribution | seismiqb/src/utils.py:696-698 | the kept probabilities are positive and add up to one |
| Histogram.HorizonSampler.constructor | seismiqb/src/utils.py:692-709 | stores the kept indices and probabilities, the edges, the bin counts, the divisors and the shifts; every kept index names a bin, so it decodes with `Unravel` |
| Crops.SliceBound | seismiqb/src/utils.py:379-384 | a slice bound counts back from the end when negative and clamps to the axis |
| Crops.TakePrefix | seismiqb/src/utils.py:417 | `s[:k]` is a prefix of `s` whose length follows Python's rules for positive and negative k |
| Crops.Anchor | seismiqb/src/utils.py:387 | the depth anchor (the same at line 405) is the smaller of half a crop above the horizon and the deepest allowed start |
| Crops.IlineCollectMembers | seismiqb/src/utils.py:377-390 | a crop is collected from iline offsets exactly when it was already present or some tested offset yields it |
| Crops.XlineCollectMembers | seismiqb/src/utils.py:395-408 | a crop is collected from xline offsets exactly when it was already present or some tested offset yields it |
| Crops.CandidatesPassFilters | seismiqb/src/utils.py:374-408 | at most four candidates, each passing the stripe, zero-trace and unknown-horizon filters with its axis's shape and order |
| Crops.PassingOffsetsAreKept | seismiqb/src/utils.py:374-408 | every crop that passes the filters at a tested offset is among the candidates |
| Crops.SortByScore | seismiqb/src/utils.py:417 | the candidates reordered by ascending score, a permutation of them |
| Crops.GenCropCoordinates | seismiqb/src/utils.py:340-420 | no result exactly when no candidate passes; otherwise the first `num_points` candidates by ascending score |
| Crops.GenCropResult | seismiqb/src/utils.py:410-420 | the result is sorted by score, holds at most four and at most `num_points` crops, and draws only passing candidates |
| Grid.ArangeSteps | seismiqb/src/utils.py:425 | the arange is empty iff lo >= hi; it starts at lo, steps by the stride, and stops below hi within one stride |
| Grid.KeepMembers | seismiqb/src/utils.py:426 | a tick is kept iff its crop ends before the axis length, and ticks are lost iff some crop overruns |
| Grid.SortIntsSorted | seismiqb/src/utils.py:429 | sorting returns a sorted permutation |
| Grid.AxisGridTicks | seismiqb/src/utils.py:423-429 | the ticks are sorted; they are the kept arange ticks plus `hi - crop` exactly when a tick was dropped |
| Grid.AxisGridEmpty | seismiqb/src/cubeset.py:425-430 | an axis has no tick exactly when its range is empty |
| Grid.AxisGridCropsFit | seismiqb/src/cubeset.py:419-430 | with the range end inside the axis, the crop at every tick ends inside the axis |
| Grid.ArangeCovers | seismiqb/src/utils.py:425 | every point of [lo, hi) lies within one stride after some arange tick |
| Grid.AxisGridCovers | seismiqb/src/cubeset.py:425-430 | with a stride no larger than the crop and the range inside the axis, every point of the range lies in the crop of some tick |
| Grid.AxisGridGap | seismiqb/src/utils.py:423-429 | range [0, 10), stride 4, crop 2, length 20 gives [0, 4, 8], and point 2 lies in no crop: a stride above the crop leaves gaps |
| Grid.AxisGridExample | seismiqb/src/utils.py:423-429 | range [0, 10), stride 4, crop 3, length 11 gives [0, 4, 7]: the overrunning tick 8 becomes 7 |
| Grid.AxisGridRepeats | seismiqb/src/utils.py:423-429 | range [0, 9), stride 4, crop 5, length 10 gives [0, 4, 4], so a tick can repeat |
| Grid.CrossProduct | seismiqb/src/cubeset.py:438-444 | the triple loop builds the rows iline by iline, then xline, then depth |
| Grid.AppendPlane | seismiqb/src/cubeset.py:439-443 | the middle loop appends the rows of one iline |
| Grid.AppendLine | seismiqb/src/cubeset.py:440-443 | the inner loop appends the rows of one (iline, xline) pair |
| Grid.CubeMembers | seismiqb/src/cubeset.py:438-444 | a row is in the grid exactly when it has the cube name and a tick of every axis |
| Grid.CubeLength | seismiqb/src/cubeset.py:438-444 | the grid has one row per combination of ticks |
| Grid.CubeEmpty | seismiqb/src/cubeset.py:438-444 | the grid is empty exactly when some axis has no tick |
| Grid.CubeLexSorted | seismiqb/src/cubeset.py:438-444 | strictly increasing ticks give rows in strictly increasing (iline, xline, depth) order |
| Grid.GridItersIsCeiling | seismiqb/src/cubeset.py:461 | `-(-n // batch_size)` is the ceiling of n over the batch size |
| Grid.BatchesPartition | seismiqb/src/cubeset.py:447-461 | the batches concatenate to the grid, number `grid_iters`, are non-empty, and all but the last are full |
| Grid.GridCursor.constructor | seismiqb/src/cubeset.py:447-448 | a new generator has every batch of the grid still to hand out |
| Grid.GridCursor.Next | seismiqb/src/cubeset.py:460 | `next` hands out the first remaining batch, or raises StopIteration and changes nothing when none is left |
| Grid.ColumnMin | seismiqb/src/cubeset.py:450-452 | a column minimum is attained and no coordinate in the column is below it |
| Grid.GridArrayFromZero | seismiqb/src/cubeset.py:450-458 | relative to the offsets every coordinate is non-negative and every column reaches zero |
| Grid.OffsetsAreFirstTicks | seismiqb/src/cubeset.py:432-452 | for sorted non-empty ticks the offsets are the first tick of each axis |
| Grid.DescribeGrid | seismiqb/src/cubeset.py:454-466 | `predict_shape` is each range's length, and the crop shape, cube name and ranges are stored as given |
| Grid.BuildRows | seismiqb/src/cubeset.py:425-444 | the per-axis ticks followed by the triple loop give the grid rows |
| Grid.GridRowsEmpty | seismiqb/src/cubeset.py:425-444 | the grid is empty exactly when one of the three ranges is |
| Grid.GridRowsCover | seismiqb/src/cubeset.py:411-444 | with strides no larger than the crop and validated ranges, every point of the three ranges lies in the crop of some grid row |
| Grid.GridRowsCropsFit | seismiqb/src/cubeset.py:414-444 | inside validated ranges every row's crop ends strictly inside the cube |
| Grid.SeismicCubeset.constructor | seismiqb/src/cubeset.py:28 | the grid generator, grid information and iteration count start unset |
| Grid.SeismicCubeset.MakeGrid | seismiqb/src/cubeset.py:375-467 | unknown cube and out-of-range errors exactly when they apply, and an empty grid fails; on failure nothing is set; on success a fresh generator over the rows, `grid_iters` and `grid_info` |
| NestedValues.KeyLeTotal | seismiqb/src/utils.py:82 | string order compares any two keys |
| NestedValues.KeyLeTrans | seismiqb/src/utils.py:82 | string order is transitive |
| NestedValues.KeyLeAntisymmetric | seismiqb/src/utils.py:82 | two keys each at most the other are equal |
| NestedValues.SortEntriesSorted | seismiqb/src/utils.py:82 | sorting dict items puts keys in ascending order and keeps exactly the same entries |
| NestedValues.SortEntriesDistinct | seismiqb/src/utils.py:82 | sorting keeps a dict's keys distinct |
| NestedValues.SortedArrangementUnique | seismiqb/src/utils.py:82 | entries with distinct keys have exactly one key-sorted arrangement |
| NestedValues.FlattenConcat | seismiqb/src/utils.py:78-80 | tuple and list items flatten left to right, the leaves of `a + b` being those of `a` then `b` |
| NestedValues.FlatTupleUnchanged | seismiqb/src/utils.py:75-86 | a tuple of leaves flattens to itself |
| NestedValues.FlattenIdempotent | seismiqb/src/utils.py:75-86 | flattening a flattened structure changes nothing |
| NestedValues.DictInsertionOrderIrrelevant | seismiqb/src/utils.py:81-83 | dicts with the same entries flatten alike whatever their insertion order |
| NestedValues.SingleEntryKeyFirst | seismiqb/src/utils.py:81-83 | a dict entry contributes its key, then its value's leaves |
| NestedValues.InferTuple | seismiqb/src/utils.py:431-456 | None gives the default; an int gives three copies; a tuple keeps truthy items, takes the default's item for falsy ones, and fails with IndexError past the default |
| NestedValues.InferTupleIdempotent | seismiqb/src/utils.py:450-456 | filling an already filled tuple again with the same default changes nothing |
| NestedValues.InferTupleKeepsTruthy | seismiqb/src/utils.py:454-455 | a tuple of non-zero ints is returned unchanged |
| NestedValues.InferTupleReplacesZero | seismiqb/src/utils.py:454-455 | an explicit 0 is falsy and replaced by the default, like None |
| NestedValues.Lookup | seismiqb/src/utils.py:64 | a key is found exactly when some entry holds it, with that entry's value; otherwise KeyError |
| NestedValues.GetItemByPosition | seismiqb/src/utils.py:61-64 | an int subscript reads the entry at that position, counting back from the end when negative, or fails with IndexError |
| NestedValues.GetItemByKey | seismiqb/src/utils.py:61-64 | a string subscript reads the value stored under it |
| NestedValues.IntKeysShadowed | seismiqb/src/utils.py:61-64 | an int key is never looked up as a key: `{5: v}[5]` is a position and raises IndexError |
| LruCache.MakeKeyStartsWithInstance | seismiqb/src/utils.py:155-167 | a key starts with its instance, so two instances never share a key |
| LruCache.MakeKeyKwargOrderIrrelevant | seismiqb/src/utils.py:158-160 | keyword arguments passed in any order give the same key |
| LruCache.SpliceTuple | seismiqb/src/utils.py:78-80 | a tuple among items flattens like its items spliced in its place |
| LruCache.MakeKeyFlattensArguments | seismiqb/src/utils.py:155-167 | a tuple argument and its items passed separately give the same key, so they share a cache entry |
| LruCache.GetFinds | seismiqb/src/utils.py:195-196 | `get` misses exactly when no entry holds the key, and otherwise returns that entry's value |
| LruCache.RemoveAt | seismiqb/src/utils.py:197 | deleting a key removes exactly its entry and keeps the others in order |
| LruCache.CachedCallKeepsSlotOk | seismiqb/src/utils.py:194-215 | a cached call keeps keys distinct, `is_full` in step with the size, and the size at most `maxsize` (one when `maxsize` < 1) |
| LruCache.CachedCallHit | seismiqb/src/utils.py:195-200 | a hit returns the stored value, moves its entry to the most recent end with the others in order, and counts a hit |
| LruCache.CachedCallMiss | seismiqb/src/utils.py:203-215 | a miss returns the computed value and counts a miss; a full instance loses exactly its oldest entry and keeps every other; otherwise the entry is appended |
| LruCache.CachedCallRemembers | seismiqb/src/utils.py:194-215 | after a cached call the key holds the returned value, and hits plus misses grew by one |
| LruCache.CachedCallTwice | seismiqb/src/utils.py:194-215 | a second call with the same key is a hit and returns the first call's value |
| LruCache.Cache.constructor | seismiqb/src/utils.py:128-142 | a new decorator has no cached entries and no stats, and normalises `attributes` to a list |
| LruCache.Cache.Reset | seismiqb/src/utils.py:144-153 | clears every instance, or only the given one, to an empty cache, not full, with zero counters |
| LruCache.Cache.Call | seismiqb/src/utils.py:173-216 | records the method name; with caching off returns the computed value and leaves cache and stats alone; otherwise performs the cached call on this instance only |
| LruCache.Cache.Lookup | seismiqb/src/utils.py:191-215 | the locked section updates the instance's state as the cached call does and leaves other instances alone |

## Left out

- Random draws: `HorizonSampler.sample` is left out, and so is the random state its constructor creates.
- Histogram.HorizonSampler.constructor: an all-zero histogram is excluded. The source divides by a zero sum and gets NaN probabilities.
- Floating point: means and probabilities are exact reals. The `float32` result of the running mean and NaN arithmetic are not modelled.
- `nb_mode` runs its cell loops with `prange`. Compiled without `parallel=True` they run sequentially in row-major order, which is the order the model uses.
- GroupBy.GroupByMin: empty input is excluded. The source reads `array[0]` (utils.py:501) before its loop, and numba does not bounds-check that read.
- GroupBy.GroupByMax: empty input is excluded, as the source reads `array[0]` (utils.py:533) unchecked.
- GroupBy.GroupByMean: empty input is excluded, as the source reads `array[0]` (utils.py:468) unchecked.
- GroupBy.GroupByMean: the rows stand for a float array holding integer values. For an integer array, `np.zeros_like` (utils.py:465) makes an integer output, and each mean would be truncated; that is not modelled.
- Stats.FindMinMax: an empty array is excluded. The source reads `array[0]` (utils.py:591) unchecked.
- Stats.ModeOfVolume: a volume with an empty last axis is excluded. There `np.max` (utils.py:630) raises ValueError, since a maximum over no values has no identity.
- RunningMean.ComputeRunningMean: `kernel_size` zero is excluded; the source divides by `kernel_size ** 2` (utils.py:624) and raises ZeroDivisionError. A non-zero pad of an empty image is excluded too; `np.pad` (utils.py:602) refuses to pad an empty axis symmetrically. A negative `kernel_size` is excluded by the `nat` type; its pad width `kernel_size // 2` (utils.py:601) is negative, and `np.pad` raises ValueError.
- Histogram.LensEdges: every axis needs at least two edges. With fewer, `np.diff(edge)[0]` (utils.py:705) raises IndexError; `np.histogramdd` always returns at least two.
- Histogram.HorizonSampler.constructor: every axis needs at least two edges, for the same reason as LensEdges. The flattened histogram holds one count per bin, as `np.histogramdd` returns it, so every kept index is below the number of bins.
- Crops.GenCropCoordinates: the point must lie inside the horizon matrix (Crops.ValidParams). The source reads `horizon_matrix[point[0], point[1]]` (utils.py:371), where numpy counts a negative index from the end and an index past the end raises IndexError.
- Histogram.GeneratePoints: `zip` over edges, divisors and lengths is modelled for equal lengths only.
- Histogram.GeneratePoints: the arguments must meet `PointArgs`, which the sampler's own arguments always do. A zero divisor or length is excluded; the source raises ZeroDivisionError at `idx_copy //= divisor` (utils.py:730) or at `% length` (utils.py:731). A length above the axis's edge count is excluded too; `edge[idx_copy % length]` (utils.py:731) then reads past the end, and numba does not bounds-check that read.
- Rounding.RoundToArray: empty ticks with non-empty values are excluded. The source then reads `ticks[0]` and `ticks[-1]` (utils.py:573, 575), and numba does not bounds-check those reads.
- Crops.SortByScore: numpy's `argsort` is modelled as a stable sort. In the numpy of the source's era, the default quicksort runs insertion sort for at most four scores, which is stable. Newer numpy releases may dispatch `argsort` to a vectorised sort that promises no stability.
- Grid.AxisGridCovers: coverage is proved only for strides no larger than the crop. A larger stride leaves gaps (Grid.AxisGridGap). Crops are not kept inside the range either: range [0, 10), stride 4, crop 3 and length 20 give ticks [0, 4, 8], and the last crop ends at 11, past the range end; only the cube bound is proved (Grid.AxisGridCropsFit).
- Grid.SeismicCubeset.MakeGrid: strides must be positive, since `np.arange` refuses a zero step. A negative stride is not modelled. `batch_size` must be positive, as `range` refuses zero. A negative `batch_size` is excluded too, although the source accepts it: `range(0, len(grid), batch_size)` (cubeset.py:448) is empty, so the generator yields nothing, and `grid_iters` (cubeset.py:461) is zero or negative (10 rows with batch size -3 give -3).
- Grid.SeismicCubeset.MakeGrid: a `SeismicGeometry` is reduced to its three axis lengths. Reading a cube from disk is not part of this model.
- Dict keys in `flatten_nested` are strings. Other key types and their mixed-type ordering are not modelled.
- NestedValues.InferTuple: tuple items are ints or None. Other item types are not modelled, and neither are values other than None, int and tuple.
- LruCache.Cache.Call: the lock is dropped; the model is sequential. The branch that finds the key already stored after the function ran (utils.py:208-209) is reached by a concurrent call, or by a decorated method that calls itself with the same arguments. The decorated function's body is outside this model, so the branch is not modelled.
- LruCache.Cache.Call: the decorated function is outside the model. Its return value is the `computed` parameter, and a re-entrant call from inside it is not modelled.
- LruCache.MakeKey: `stable_hash` (a blake2b digest) is not modelled. The attribute digests are parameters.
- LruCache.Cache.Call: `use_cache` is a boolean or absent. Python truthiness of other values is not modelled.
- `lru_cache` with the default `maxsize=None` fails at the size comparison on the first store. The model requires an integer `maxsize`.
- Python's `defaultdict` creates entries on read. The model returns the default for an absent instance without storing it.
- The `wrapper.cache`, `wrapper.stats` and `wrapper.reset` accessors, `SafeIO`, file conversion and the other I/O helpers of utils.py are not part of this model.

## Findings

| source | as written | input that shows it | evidently intended | confidence | as-written member | corrected member |
|---|---|---|---|---|---|---|
| seismiqb/src/utils.py:645-657 | `element` is set only when a count exceeds `frequency`, and counts start at 0, so a trace without repeated samples keeps the previous trace's `element` | traces [5, 5] then [1, 2]: the second cell gets 5, a value it does not contain | every trace gets one of its own most frequent samples | not executed | Stats.CarryModeKeepsEarlierAnswer | Stats.TraceOwnMode |
| seismiqb/src/utils.py:601-624 | the window spans 2k+1 = kernel_size+1 pixels per side for even kernel sizes, but the sum is divided by kernel_size squared | image [[1]] with kernel_size 2: the output is 9/4, above every input value | divide by the window's own pixel count, so the mean stays within the input range | not executed | RunningMean.EvenKernelOvershoots | RunningMean.WindowMeanInRange |
