# Monthly Zarr partitions combined into one yearly archive — a Dafny model

`combine_files.py` builds one archive for 2023 out of twelve monthly Zarr
stores in an S3 bucket. It works in five steps:

1. It derives each month's store path.
2. It opens each store. If the store has no data variables, it retries one
   directory deeper, in a store named after the path's last segment.
3. It keeps the partitions that carry the `datetime_gmt` coordinate, and stops
   if there are none.
4. It concatenates the kept partitions along time, sorts by timestamp and keeps
   the first row of each timestamp.
5. It re-chunks (`gsp_id` unchunked, 1440 steps per time chunk), deletes stale
   `chunks` entries from the data variables' encodings and writes the result.

This model states those steps in Dafny and proves what they guarantee:

- **Object store.** The store is a map from path to dataset. A path missing
  from the map is an open that raises.
- **Dataset.** A dataset is a record with:
  - its data-variable names and coordinate names;
  - its non-temporal dimension sizes;
  - its rows along time, each a timestamp with opaque values;
  - each variable's encoding dictionary.

Modules, one file each:

| file | module | what it holds |
|---|---|---|
| `wrappers.dfy` | `Wrappers` | `Option`, `Result` |
| `partition_paths.dfy` | `PartitionPaths` | `{m:02}` formatting, the month keys, partition paths, `str.split` and the nested fallback path |
| `datasets.dfy` | `Datasets` | rows, datasets, the store, the loader `Load` and the method `TryOpenZarr` |
| `consolidation.dfy` | `Consolidation` | concatenation, the stable sort, keep-first deduplication, `Consolidate` |
| `chunk_planning.dfy` | `ChunkPlanning` | the chunk plan and the encoding cleanup loop |
| `combine_files.dfy` | `CombineFiles` | the collection loop, both guards, the whole run `Pipeline` and the method `CombineFilesRun` |

Two behaviours of the code are worth stating outright:

- **Fallback result not re-checked.** The dataset opened at the nested path
  is not checked again for data variables (line 27). A nested store with
  `datetime_gmt` and no data variables is therefore accepted
  (`LoadFallback`).
- **Merge failure.** A failed merge is caught by the `except` at line 89,
  which logs it, and the script ends. The model ends the run in
  `Aborted(ConcatOrSaveFailed)`. A missing `gsp_id` dimension, which makes
  `combined.sizes['gsp_id']` raise, ends there too.

A dataset's `dims` holds its non-temporal sizes only; the length of the
time axis is the number of rows. `Datasets.WellFormed` states that
convention (`datetime_gmt` is not among `dims`), and `Consolidate` keeps it.

## Model

| member | source | states |
|---|---|---|
| `PartitionPaths.DecimalDigits` | combine_files.py:10 | the decimal representation of n is all digits, non-empty, one digit iff n < 10, at most two digits below 100 |
| `PartitionPaths.ZeroPad` | combine_files.py:10 | zero-filling to a width gives exactly max(width, length) characters: the original string as suffix behind nothing but '0's |
| `PartitionPaths.Format02` | combine_files.py:10 | `f"{n:02}"` has at least two characters, all digits; `Format02RoundTrip` gives its exact length and value below 100 |
| `PartitionPaths.Format02RoundTrip` | combine_files.py:10 | `f"{n:02}"` is two digits for n < 100 and reads back as n |
| `PartitionPaths.Months` | combine_files.py:10 | `[f"{m:02}" for m in range(1, 13)]` has twelve entries; `MonthKeys` and `FirstAndLastMonth` carry what they are |
| `PartitionPaths.MonthKeys` | combine_files.py:10 | the twelve month keys are two-digit strings whose i-th entry denotes i + 1, pairwise distinct |
| `PartitionPaths.FirstAndLastMonth` | combine_files.py:10 | the keys run from "01" to "12" |
| `PartitionPaths.PartitionPathsFor` | combine_files.py:12 | one path per month, in month order, each `base + "target_data_" + year + "_" + month + ".zarr"` |
| `PartitionPaths.MonthOfPartitionPath` | combine_files.py:12 | the month key can be read back out of its partition path |
| `PartitionPaths.PartitionPathsDistinct` | combine_files.py:12 | no two months share a store path |
| `PartitionPaths.Split` | combine_files.py:24 | `str.split('/')` gives at least one piece, exactly one iff there is no '/', and no piece contains '/' |
| `PartitionPaths.JoinSplit` | combine_files.py:24 | joining the pieces with '/' gives the path back |
| `PartitionPaths.LastSegment` | combine_files.py:24 | `path.split('/')[-1]` contains no '/'; `LastSegmentShape` places it in the path |
| `PartitionPaths.NestedPath` | combine_files.py:24 | the nested path extends `path` by a '/'; `NestedPathExtends` gives the rest |
| `PartitionPaths.NestedPathExtends` | combine_files.py:24 | the nested path is `path + "/"` followed by the last segment; it is strictly longer than `path + "/"` exactly when the path is non-empty and does not end in '/' (otherwise the last segment is empty) |
| `PartitionPaths.LastSegmentShape` | combine_files.py:24 | `path.split('/')[-1]` contains no '/' and is a suffix of the path that is the whole path or follows a '/' |
| `PartitionPaths.NestedPartitionPath` | combine_files.py:12-24 | for a base ending in '/', a month's nested path repeats the partition's own file name one level deeper |
| `PartitionPaths.ConfiguredNestedPaths` | combine_files.py:9-24 | with the configured base and year, every month's fallback is its path + "/" + its own file name |
| `Datasets.TryOpenZarr` | combine_files.py:18-34 | the method that reassigns `ds` returns exactly what the loader specification `Load` gives |
| `Datasets.LoadPrimaryWins` | combine_files.py:21-29 | a primary dataset with data variables is returned unchanged, whatever the store holds elsewhere |
| `Datasets.LoadConsultsNestedOnlyWhenEmpty` | combine_files.py:23-27 | what lies at the nested path affects the result only when the primary opened with zero data variables |
| `Datasets.LoadFallback` | combine_files.py:23-29 | an empty primary with an openable nested store yields the nested dataset, unchecked |
| `Datasets.LoadFailsExactly` | combine_files.py:19-34 | the loader yields `None` iff the primary open raises, or the primary is empty and the nested open raises |
| `Datasets.LoadComesFromStore` | combine_files.py:18-34 | a loaded dataset is the one stored at the primary or at the nested path |
| `Datasets.Load` | combine_files.py:18-34 | the loader specification: a result means the primary open succeeded, and for an empty primary also the nested open; the `Load*` lemmas above and `TryOpenZarr` carry its properties |
| `CombineFiles.CollectDatasets` | combine_files.py:37-51 | the loop leaves `datasets` equal to `Accepted`: the loaded datasets with `datetime_gmt`, in path order |
| `CombineFiles.AcceptedMembers` | combine_files.py:37-51 | a dataset is accepted iff some path loads to it and it has `datetime_gmt`; the list is never longer than the path list |
| `CombineFiles.AcceptedAppend` | combine_files.py:38-51 | the accumulated list for `a + b` is the list for `a` followed by the list for `b` |
| `CombineFiles.RejectedPartitionIsSkipped` | combine_files.py:40-51 | a partition that fails to open or lacks `datetime_gmt` leaves the list as if it were not listed |
| `CombineFiles.Accepted` | combine_files.py:37-51 | the list the loop accumulates, at most one dataset per path; `AcceptedMembers`, `AcceptedAppend` and `CollectDatasets` carry its properties |
| `CombineFiles.WithTimeKeepsTimed` | combine_files.py:58 | the re-filter returns a list unchanged when every member has `datetime_gmt` |
| `CombineFiles.WithTimeOfAccepted` | combine_files.py:58 | `datasets_with_time == datasets` after the loop |
| `CombineFiles.WithTime` | combine_files.py:58 | a dataset is in the re-filtered list iff it is in the list and has `datetime_gmt`; the list never gets longer |
| `CombineFiles.WithTimeAppend` | combine_files.py:58 | the re-filter keeps the list's order: filtering `a + b` is filtering `a`, then `b` |
| `CombineFiles.SecondGuardUnreachable` | combine_files.py:54-62 | the run never ends at the second guard |
| `CombineFiles.StopsIffNothingLoaded` | combine_files.py:54-56 | the run stops before any merge or write iff no partition loads to a dataset with `datetime_gmt` |
| `CombineFiles.WritesIff` | combine_files.py:54-86 | the run reaches the write iff something was accepted, the accepted partitions agree on the modelled layout (a mismatch being modelled as a failed merge) and have `gsp_id` |
| `CombineFiles.WrittenArchive` | combine_files.py:67-86 | the written archive: strictly ascending times, their set the union of the partitions' times, no more rows than the inputs, each row the first with its timestamp, non-temporal layout kept, no `chunks` in data-variable encodings, the requested chunk plan |
| `CombineFiles.PartialFailure` | combine_files.py:38-71 | a failing partition changes nothing: the run ends exactly as without it |
| `CombineFiles.CombineFilesRun` | combine_files.py:37-86 | the script's sequence of steps over the twelve configured paths ends as `Pipeline` specifies |
| `CombineFiles.Pipeline` | combine_files.py:37-86 | the whole run: it stops at the first guard iff nothing was accepted, and writes only to `combined_2023_gsp.zarr`; `SecondGuardUnreachable`, `StopsIffNothingLoaded`, `WritesIff`, `WrittenArchive` and `PartialFailure` carry the rest |
| `Consolidation.RowsAt` | combine_files.py:70-71 | the rows with one timestamp, in input order: each is a row of the input carrying that timestamp, and every such row of the input is among them |
| `Consolidation.FirstAt` | combine_files.py:71 | the first row with a present timestamp is a row of the input with that timestamp, at an index before which no row carries it |
| `Consolidation.ConcatRows` | combine_files.py:67 | the concatenation along time has the summed number of rows, and a single partition's concatenation is its own rows; with `ConcatRowsAppend` this fixes it as the partitions' rows in list order |
| `Consolidation.ConcatRowsContents` | combine_files.py:67 | concatenation along time holds exactly the partitions' rows, has the summed length and the union of the partitions' timestamps |
| `Consolidation.ConcatRowsAppend` | combine_files.py:67 | concatenation keeps partition order: the rows of `a + b` are the rows of `a` followed by the rows of `b` |
| `Consolidation.FirstPartitionWins` | combine_files.py:67-71 | a timestamp carried by the first partition is represented in the concatenation, before sort and dedup, by that partition's first row with it |
| `Consolidation.InsertRowSorted` | combine_files.py:70 | inserting a row into an ascending sequence keeps it ascending |
| `Consolidation.SortByTime` | combine_files.py:70 | `sortby` keeps the number of rows; `SortByTimeSorts`, `SortStable` and `SortKeepsFirst` carry its properties |
| `Consolidation.SortByTimeSorts` | combine_files.py:70 | `sortby` output is ascending by timestamp and a permutation of its input |
| `Consolidation.SortStable` | combine_files.py:70 | the sort is stable: the rows of each timestamp keep their relative order |
| `Consolidation.SortKeepsFirst` | combine_files.py:70 | the first row with a timestamp is the same before and after the sort |
| `Consolidation.DropDuplicateTimes` | combine_files.py:71 | the rows kept by `~duplicated()` have pairwise distinct timestamps, exactly the input's timestamps, and are no more than the input |
| `Consolidation.DropKeepsFirst` | combine_files.py:71 | each kept row is the first row with its timestamp |
| `Consolidation.DropSortedIsStrict` | combine_files.py:70-71 | deduplicating a sorted sequence leaves it strictly ascending |
| `Consolidation.MergedRowsProperties` | combine_files.py:67-71 | the merged time axis is strictly ascending, has the union of the timestamps, has one row per timestamp (at most the sum of the inputs), and each row is the first with its timestamp in the sorted and in the unsorted concatenation |
| `Consolidation.NoOverlapKeepsEveryRow` | combine_files.py:67-71 | partitions with no shared timestamp lose no row |
| `Consolidation.MergedRows` | combine_files.py:67-71 | the merged time axis has pairwise distinct timestamps and no more rows than were concatenated; `MergedRowsProperties` carries the rest |
| `Consolidation.Consolidate` | combine_files.py:67-71 | the merge succeeds iff the partitions are compatible in the model's sense, and its rows are then `MergedRows`; `ConsolidateKeepsLayout` carries the layout |
| `Consolidation.ConsolidateKeepsLayout` | combine_files.py:67 | in the model, concatenation succeeds iff the partitions agree on variable names, coordinate names and non-temporal sizes; it then keeps every partition's variables, coordinates and non-temporal sizes, and well-formed partitions give a well-formed result |
| `ChunkPlanning.PlanChunksShape` | combine_files.py:74-77 | the plan exists iff `gsp_id` is a dimension; it names exactly `gsp_id` and `datetime_gmt`, requesting the full `gsp_id` extent as one chunk and 1440 time steps per chunk |
| `ChunkPlanning.PlanChunks` | combine_files.py:74-77 | the plan fails, with `MissingDimension("gsp_id")`, iff `gsp_id` is not a dimension; `PlanChunksShape` gives its entries |
| `ChunkPlanning.StrippedEncodingProperties` | combine_files.py:79-82 | after cleanup no data variable's encoding has `chunks`, all other keys and values and the set of variables are unchanged, and cleanup is idempotent |
| `ChunkPlanning.StrippedEncoding` | combine_files.py:80-82 | the cleanup keeps the set of variables with an encoding; `StrippedEncodingProperties` and `StripChunkEncodings` carry the rest |
| `ChunkPlanning.StripChunkEncodings` | combine_files.py:80-82 | the deletion loop leaves exactly the cleaned encodings `StrippedEncoding` specifies |

## Left out

- S3, `fsspec.filesystem` and `get_mapper` are external I/O. They are
  replaced by the store map.
- The `consolidated=` flags of both opens and of the write are not modelled.
  Both opens read the same map.
- The Zarr on-disk format is a codec black box and is not modelled.
- `to_zarr`, its overwrite mode and its failures are not modelled. The run
  ends in `Written`, holding what would be written. A write failure would
  also be caught by the handler at line 89; that path is not modelled.
- Logging, the `print` at line 84 and the mechanics of `exit()` are not
  modelled. A stop is the terminal `Aborted` outcome.
- `ConsolidateKeepsLayout`: a layout mismatch is modelled as a failed merge.
  Consistent non-temporal dimensions are assumed, and `xr.concat`'s outer
  alignment of indexed dimensions, which pads partitions whose `gsp_id`
  labels or sizes differ instead of rejecting them, is not modelled. The
  "only if" half of `WritesIff` holds in the model only. Coordinate label
  values and per-variable shapes are not modelled.
- The merged dataset's attributes and encodings are taken from the first
  partition. xarray's own rules for merging encodings are not modelled
  further.
- Dask chunk boundaries and lazy evaluation are library behaviour. Only the
  requested chunk sizes are modelled.
- The data values are carried unchanged and never inspected: every written
  row is a partition's row, values included (`ConcatRowsContents`,
  `MergedRowsProperties`). There is no floating-point reasoning.
- `StripChunkEncodings` updates a map value and returns it. The model does
  not capture that `combined[var].encoding` is the dict shared with the
  variable inside `combined`.
- The loop visits data variables in an arbitrary order, not in
  `data_vars` order. The result does not depend on the order.
- Encodings of coordinates keep their `chunks` entry, as in the code.
