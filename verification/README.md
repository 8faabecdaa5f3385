# k-means over map/reduce, modelled in Dafny

This project models the core of `kmeans_mrjob.py`. That file runs Lloyd's k-means over 2-D integer points as a repeated map/reduce job. The centers live between rounds in two text files, the "old" centers and the "new" centers. Everything is modelled with immutable datatypes and pure functions:

- **`Metrics`**: `distance` with its three metrics. "manhattan" sums absolute differences, "euclid" sums squared differences (no square root is taken) and "chebyshev" takes the largest absolute difference. Two-argument `map` stops at the shorter vector, and `reduce` is a left fold. `reduce` over nothing is an error.
- **`Text`**: `str()` and `int()` on integers, and `str.split` on a one-character separator.
- **`Sorting`**: `list.sort(key=id)` as a stable insertion sort.
- **`CenterStore`**: the center files.
  - A file is `Option<string>`, where `None` means it does not exist.
  - `get_centers` splits on newlines, skips empty lines, converts fields with `int()` and stably sorts by id.
  - `set_centers` overwrites a file with `"id x y\n"` lines.
  - `add_center` appends one such line.
- **`Mapper`**: the map stage. It scans the sorted center list with a sentinel minimum of 10^9 and a strict `<`. The key is the chosen center's position in the list, not its id.
- **`Reducer`**: the mean of a group, each coordinate rounded half to even.
- **`Shuffle`**: one pass of the job. Every point is mapped, the pairs are grouped by key, and each group is reduced. Keys that no point chose get no reducer call, so their clusters vanish.
- **`Convergence`**: `one_step` and `full_run`. The state is the pair of files. A budget of 0 runs until the centers stop changing. A positive budget caps the number of rounds, and the returned count is corrected by the source's `step -= 1`.

Errors are values of `Types.Error`, one per exception the source can raise:
- `IncorrectMetric` and `NegativeBudget`: the two `ValueError`s the source raises itself.
- `BadInt`: `int()` rejecting a field.
- `EmptyReduce`: `reduce()` of an empty sequence.
- `ShortRecord`: the `IndexError` of `set_centers`.
- `MissingFile`: `os.remove` of a file that does not exist.

Some behaviours of the source are easy to miss; the model follows the source:
- **Unknown metric.** The metric name is checked only when a distance is computed. So a pass with no centers, or no points, raises nothing for an unknown metric. In a run from an empty start file with at least one point, though, the first round creates center 0 and does not converge. Unless the budget is 1, the next round has a center and raises.
- **Vanishing clusters.** A cluster that receives no points is dropped; its previous center is not kept. The remaining clusters are renumbered by position in the next round.
- **No centers.** With an empty center list, every point goes to key 0.
- **Malformed lines.** A bad field fails with `int()`'s error. A line with fewer than three fields fails only when `set_centers` writes it back.
- **Rounding.** It is Python's `round`, half to even.

## Model

| member | source | states |
|---|---|---|
| Metrics.Distance | kmeans_mrjob.py:25-37 | The distance fails exactly when the metric name is not one of the three or no coordinate pair is compared; an unknown name fails with the metric error before anything else |
| Metrics.DistanceToSelf | kmeans_mrjob.py:30-35 | For every metric a non-empty vector is at distance 0 from itself |
| Metrics.DistanceNonNegative | kmeans_mrjob.py:30-35 | Every computed distance is at least 0, and it is 0 exactly when the compared coordinates are equal |
| Metrics.DistanceSymmetric | kmeans_mrjob.py:30-35 | Every metric gives the same result, or the same error, with its two vectors swapped |
| Metrics.MetricsCompared | kmeans_mrjob.py:30-35 | On the same vectors: chebyshev <= manhattan <= n * chebyshev, and chebyshev^2 <= euclid <= manhattan^2, so "euclid" is not the length: no root is taken |
| Metrics.DistanceExamples | kmeans_mrjob.py:30-37 | (0,0) to (3,4) is 7, 25 and 4 under the three metrics; an unknown name and an empty vector are errors |
| Text.IntToString | kmeans_mrjob.py:80 | `str()` of an integer is non-empty and holds no space and no newline, so it is one field of one line |
| Text.ParseIntToString | kmeans_mrjob.py:68 | `int(str(n)) == n` for every integer |
| Text.IntToStringInjective | kmeans_mrjob.py:80 | Different integers are written differently |
| Text.Split | kmeans_mrjob.py:66 | `s.split(sep)` has at least one piece, no piece holds the separator, and joining the pieces with it gives back `s` |
| Text.SplitConcat | kmeans_mrjob.py:66 | Splitting `a + sep + b` is splitting `a` followed by splitting `b` |
| Text.SplitJoin | kmeans_mrjob.py:66 | Splitting the join of separator-free pieces gives the pieces back |
| Sorting.SortById | kmeans_mrjob.py:69 | The sort returns a permutation of its input ordered by id |
| Sorting.SortIsStable | kmeans_mrjob.py:69 | For every id, the records carrying it keep their input order |
| Sorting.SortedUnique | kmeans_mrjob.py:69 | Ordering by id and per-id order together determine the sorted list |
| Sorting.SortIdempotent | kmeans_mrjob.py:69 | Sorting a sorted list changes nothing |
| Sorting.SortIgnoresOrder | kmeans_mrjob.py:69 | Any permutation of records with distinct ids sorts to the same list |
| CenterStore.ParseFields | kmeans_mrjob.py:68 | Converting the fields succeeds exactly when every field is an integer, and then gives one integer per field in order |
| CenterStore.GetCenters | kmeans_mrjob.py:58-70 | An absent file gives no centers; otherwise reading succeeds exactly when every non-empty line parses, and gives those records ordered by id, stably |
| CenterStore.ToCenters | kmeans_mrjob.py:78-80 | Writing fails with the index error exactly when some record has fewer than two coordinates; otherwise each record is cut to its id and first two coordinates |
| CenterStore.AddCenter | kmeans_mrjob.py:83-89 | Appending creates the file when absent and keeps what it held as a prefix |
| CenterStore.ParseCenterLine | kmeans_mrjob.py:66-80 | A written center line is non-empty, has no newline, and parses back to the center |
| CenterStore.ReadSerialised | kmeans_mrjob.py:58-80 | Reading a file of written centers gives their records in file order |
| CenterStore.SetThenGet | kmeans_mrjob.py:58-80 | What `set_centers` writes reads back as the input list stably sorted by id, each record cut to two coordinates |
| CenterStore.GetSetGet | kmeans_mrjob.py:58-80 | Read, write, read gives the first read cut to two coordinates, and exactly the first read when every record has two |
| CenterStore.BlankLineIgnored | kmeans_mrjob.py:66-67 | Doubling a newline, that is an extra empty line after any line, changes nothing that is read |
| CenterStore.LeadingBlankLineIgnored | kmeans_mrjob.py:66-67 | An extra empty line at the very start of the file changes nothing that is read |
| CenterStore.TrailingNewlineIgnored | kmeans_mrjob.py:66-67 | A trailing newline changes nothing that is read |
| CenterStore.AddCenterAppendsRecord | kmeans_mrjob.py:83-89 | On a file of complete lines, appending adds exactly the given center after the existing records and keeps the lines complete; a file that failed to read still fails |
| CenterStore.AppendAllToAbsent | kmeans_mrjob.py:83-89 | Reducers appending to an absent file leave it absent if none ran, else one line per center in order |
| CenterStore.AppendOrderIrrelevant | kmeans_mrjob.py:58-89 | With distinct ids, the centers read back do not depend on the order the reducers appended in |
| Mapper.Distances | kmeans_mrjob.py:111-112 | All distances to the centers succeed exactly when each does, one per center in list order |
| Mapper.DistancesFailAtFirst | kmeans_mrjob.py:111-112 | A failure is the error of the first center whose distance fails |
| Mapper.ScanFindsNearest | kmeans_mrjob.py:111-115 | From any state satisfying the scan invariant, the scan ends at the nearest position |
| Mapper.AssignFindsNearest | kmeans_mrjob.py:91-117 | If some distance is below 10^9, the key is a position of least distance and no earlier position ties it; otherwise, including with no centers, the key is 0 |
| Mapper.AssignFailsIff | kmeans_mrjob.py:108-117 | The mapper fails exactly when there is a center and either the metric is unknown or some center has no coordinate after its id; the error is the first failing center's |
| Mapper.IsNearestUnique | kmeans_mrjob.py:111-115 | The nearest position is unique, so the property fixes the key |
| Mapper.AssignInRange | kmeans_mrjob.py:108-117 | The key is a position of the center list, or 0 when the list is empty |
| Reducer.RoundHalfEven | kmeans_mrjob.py:133 | The result is within half of sum/count, and even when exactly half away |
| Reducer.RoundHalfEvenUnique | kmeans_mrjob.py:133 | Those two properties determine the rounded value |
| Reducer.RoundBetween | kmeans_mrjob.py:133 | Rounding stays between any two integer bounds of the quotient |
| Reducer.MeanInBox | kmeans_mrjob.py:127-133 | Each coordinate of a group's mean lies between that coordinate's least and greatest values in the group |
| Reducer.MeanOfCopies | kmeans_mrjob.py:127-133 | The mean of copies of one point is that point |
| Reducer.MeanOfPermutation | kmeans_mrjob.py:129-133 | The mean does not depend on the order the group arrives in |
| Reducer.MeanExample | kmeans_mrjob.py:127-133 | The mean of (0,0), (2,2), (4,4) is (2,2) |
| Reducer.TiesToEven | kmeans_mrjob.py:133 | 1/2 rounds to 0, 3/2 to 2 and -1/2 to 0 |
| Shuffle.MapAll | kmeans_mrjob.py:95-117 | Mapping every point succeeds exactly when each point maps, and pairs each point, in order, with its key |
| Shuffle.MapAllGroups | kmeans_mrjob.py:117-121 | The points the shuffle collects for a key are exactly the points assigned to it, in input order |
| Shuffle.GroupByKey | kmeans_mrjob.py:117-121 | The groups are non-empty, have strictly ascending keys, each holds exactly the points of its key, and a key has a group exactly when some pair carries it |
| Shuffle.NewCenters | kmeans_mrjob.py:95-137 | A pass succeeds exactly when every point can be mapped |
| Shuffle.NewCentersAscending | kmeans_mrjob.py:111-135 | The produced ids are strictly ascending, hence distinct and already sorted |
| Shuffle.NewCentersIds | kmeans_mrjob.py:111-121 | A center with id k is produced exactly when some point's key is k: clusters nobody chooses vanish |
| Shuffle.NewCentersAreMeans | kmeans_mrjob.py:127-135 | Each produced center is the mean of exactly the points assigned to it |
| Shuffle.NewCentersInRange | kmeans_mrjob.py:111-117 | Every produced id is a position of the old list, or 0 when it was empty |
| Shuffle.NewCentersCount | kmeans_mrjob.py:111-137 | At least one point yields at least one center, and never more centers than the old list had positions, or one when it was empty |
| Shuffle.NewCentersDense | kmeans_mrjob.py:111-137 | A pass that keeps every cluster numbers its centers exactly 0 to k-1 |
| Convergence.FullRun | kmeans_mrjob.py:173-180 | A negative budget is an error, and so is a start file whose centers cannot be read or written back |
| Convergence.FullRunBounded | kmeans_mrjob.py:179-205 | With a budget n > 0, a successful `full_run` returns the number of `one_step` rounds it executed from the rewritten start centers: between 1 and n, no earlier round converged, a count below n means the last round converged, and the final centers are those the last round left |
| Convergence.FullRunUnbounded | kmeans_mrjob.py:179-205 | With a budget of 0, a successful `full_run` returns the number of `one_step` rounds it executed from the rewritten start centers; the last of them, and only it, converged, and the final centers are those it left |
| Convergence.BoundedLoopTrace | kmeans_mrjob.py:193-194 | The bounded loop executes rounds up to the first that converges or up to the budget; no earlier round converged, and the last did exactly when the loop stopped short of the budget |
| Convergence.UnboundedLoopTrace | kmeans_mrjob.py:187-188 | The unbounded loop executes rounds up to the first that converges and no further |
| Convergence.RunBounded | kmeans_mrjob.py:191-205 | With budget n > 0 the returned count is the number of rounds executed, in [1, n]; a count below n means the last round converged; the final centers are the last round's |
| Convergence.RunUnbounded | kmeans_mrjob.py:185-205 | With no budget the returned count is the number of rounds executed, and exactly the last converged |
| Convergence.OneStepComputesNewCenters | kmeans_mrjob.py:148-166 | After a round the new file and the rewritten old file both read as the centers one pass computes from the old centers, and the round reports convergence exactly when those equal the old centers |
| Convergence.ConvergedIdsArePositions | kmeans_mrjob.py:111-166 | A round converges only when the old centers' ids are exactly 0 to k-1, so after a cluster other than the last vanishes, the next round starts from ids with a gap, relabels, and cannot converge |
| Convergence.AppendedCentersReadBack | kmeans_mrjob.py:135-162 | Centers in id order appended to an absent file read back as themselves |
| Convergence.SetCentersReadBack | kmeans_mrjob.py:164 | Centers in id order written with `set_centers` read back as themselves |
| Convergence.OneStepWithoutPoints | kmeans_mrjob.py:155-166 | A first round over no points leaves an empty old file and no new file |
| Convergence.RunWithoutNewFile | kmeans_mrjob.py:155-201 | If the first round leaves no new file, the run fails when the file is next removed |
| Convergence.NoPointsMissingFile | kmeans_mrjob.py:155-201 | With no input points every run fails: the new center file is never created, so removing it fails |
| Convergence.RunConvergedAtOnce | kmeans_mrjob.py:191-205 | A loop whose first round converges returns 1 |
| Convergence.FixedPointRound | kmeans_mrjob.py:148-166 | A round from centers that one pass maps to themselves converges and keeps them |
| Convergence.FixedPointStopsAtOnce | kmeans_mrjob.py:168-205 | If the start centers are a fixed point of one pass, `full_run` returns 1 and leaves those centers |

## Left out

- The mrjob runtime and `self.run()`: a round is the pure pass `Shuffle.NewCenters`, whose mapper reads the old file and whose reducers append to the new file. What the reducers yield back to the runtime is unused by the job and not modelled.
- Point parsing in the mapper (`kmeans_mrjob.py:103-105`): points arrive as parsed `Point(x, y)` values. A point line that is empty, holds a non-integer or has other than two fields is not modelled.
- The order in which the runtime calls the reducers: the model takes keys in ascending order. `CenterStore.AppendOrderIrrelevant` shows that the centers read back are the same in any order.
- The order in which a reducer receives its points: the model passes them in input order. `Reducer.MeanOfPermutation` shows that the mean does not depend on it.
- File-system effects and the workspace paths: files are values in `Convergence.Workspace`. The model starts every run without a stale new-center file.
- Partial writes: a `set_centers` that raises part-way through leaves a half-written file. The model returns the error and not the file.
- Debug logging (`debug`, `KMeansMRJob.debug`): it only writes to a log.
- The `override` decorator: reflection only, with no behaviour.
- `main.py`: configuration only.
- Reducer.Mean: computes `round(sum / count)` on the exact quotient. The source divides two floats, so the two can differ once a coordinate sum reaches about 2^52, where the float quotient no longer resolves halves. For example, x-coordinates 2^51+1, 2^51+1 and 2^51+2 give 2251799813685249 here and 2251799813685250 in the source. Beyond the float range the source raises `OverflowError` at `kmeans_mrjob.py:130`; the model never fails there.
- Text.ParseInt: accepts an optional sign followed by ASCII digits only. On fields of at most 4300 digits, every field the model accepts, Python's `int()` accepts with the same value. Above that limit, CPython 3.11 and later makes `int()` and `str()` raise `ValueError`, which the model does not do. `int()` also accepts surrounding whitespace such as a tab, underscores between digits and non-ASCII digits, all of which the model rejects with `BadInt`.
- CenterStore.ReadRecords: a file value is the text after Python's newline translation. The source opens center files in text mode, so `\r\n` and a lone `\r` already read as `\n`; the model does not translate them and rejects a `\r` with `BadInt`.
- Convergence.UnboundedLoop: a budget of 0 loops until convergence, which need not terminate. The model gives it a `fuel` bound and fails with `OutOfFuel` when the bound runs out, which the source never does.
