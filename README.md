# Custom parallel minimum and its K sweep, in Dafny

This project models the core of a benchmark that measures how fast the
minimum of a large `std::vector<int>` can be found. The core is the class
`MinExperiments`:

- `custom_parallel_min_element(K)` splits the data into `min(size, K)`
  contiguous chunks. The first `size % n` chunks get one extra element. Each
  chunk's minimum is taken by its own `std::async` task, and the partial
  minima are folded with `std::min` starting from `INT_MAX`. Empty data
  returns the sentinel 0.
- `run_custom_parallel_tests` builds the candidate K list. The list is 1,
  then the powers of two up to `max_k = min(64, max(2, 4 * hc))`, where hc is
  the hardware concurrency. When hc > 1 and hc is not already in the list,
  hc is added, then the list is sorted and deduplicated. Each K is timed
  three times. The truncated mean goes into `times_by_K[K]`, and K becomes
  the best when no best exists yet or its mean is strictly smaller.
- `CustomParallelReport` is the record the sweep fills in. It starts with
  `best_K = 0`, `best_time_us = -1` ("no winner yet") and
  `hardware_concurrency = 0`.

Modules, one per component:

- `Report` (report.dfy): the record, and the `Int32` range of C++ `int`.
- `Partition` (partition.dfy): the chunk boundaries and their properties.
- `ParallelMin` (parallel_min.dfy): the worker scan, the fold and the whole
  `custom_parallel_min_element`.
- `KValues` (k_values.dfy): the candidate K list.
- `Experiments` (experiments.dfy): the sweep, as functions on the report,
  and the class `MinExperiments`, whose `report` field the sweep method
  updates in place.

One detail of the code is easy to misread. Only K == 0 fails, because it
divides by zero; a negative K is not undefined. Converted to `size_t`, a
negative K becomes a huge divisor. The chunk loop then runs zero times, and
the function returns `INT_MAX` for non-empty data. The model follows the code:
`CustomParallelMinElement` requires `k != 0` only for non-empty data, and it
states the `INT_MAX` result for negative K.

## Model

| member | source | states |
|---|---|---|
| `Partition.ChunkLength` | Lab1/min_experiments.cpp:40-52 | a chunk is size/n or size/n + 1 long, and never empty when n <= size; `ChunkLengthsBalanced` relates the lengths of two chunks |
| `Partition.ChunkStart` | Lab1/min_experiments.cpp:44-57 | `current_start` before chunk i is at least i when no chunk is empty (n <= size); `ChunkStartClosedForm` gives its exact value |
| `Partition.ChunkStartClosedForm` | Lab1/min_experiments.cpp:51-57 | `current_start` before chunk i is i·(size/n) plus min(i, size % n) |
| `Partition.LastChunkEndsAtSize` | Lab1/min_experiments.cpp:51-58 | the chunk lengths add up to size, so the last chunk ends exactly at the end of the data |
| `Partition.ChunkLengthsBalanced` | Lab1/min_experiments.cpp:39-41 | two chunk lengths differ by at most one, and no chunk is empty when n <= size; its middle clause (chunk i is the long kind iff i < size % n) only restates the definition of `ChunkLength` |
| `Partition.ChunkStartMonotone` | Lab1/min_experiments.cpp:51-57 | chunk starts never decrease with the chunk index |
| `Partition.ChunkBounds` | Lab1/min_experiments.cpp:52-55 | each chunk [start, end) lies inside [0, size), so the worker's iterators stay within the data |
| `Partition.ChunksCover` | Lab1/min_experiments.cpp:51-58 | every index below size lies in some chunk (no gaps) |
| `Partition.ChunksDisjoint` | Lab1/min_experiments.cpp:51-58 | no index lies in two chunks (no overlap) |
| `ParallelMin.Min` | Lab1/min_experiments.cpp:63 | `std::min` returns one of its two arguments and is at most both of them; `FoldMin` and `CustomParallelMinElement` build on it |
| `ParallelMin.MinElement` | Lab1/min_experiments.cpp:46-49 | the worker's linear scan returns the minimum of its chunk |
| `ParallelMin.FoldMin` | Lab1/min_experiments.cpp:60-64 | the fold is at most the start value and every partial minimum, and equals the start value or one of them |
| `ParallelMin.FoldMinIgnoresOrder` | Lab1/min_experiments.cpp:55-64 | any rearrangement of the partial results folds to the same value, so the order in which the workers finish cannot change the result |
| `ParallelMin.MinimumIsUnique` | Lab1/min_experiments.cpp:34-66 | only one value is the minimum of a sequence; together with the `IsMinOf` clause of `CustomParallelMinElement`'s contract, every K >= 1 therefore gives the same result on the same data |
| `ParallelMin.ChunkMinimaCombine` | Lab1/min_experiments.cpp:51-66 | folding the per-chunk minima from INT_MAX yields the minimum of the whole data |
| `ParallelMin.CustomParallelMinElement` | Lab1/min_experiments.cpp:34-67 | empty data returns 0; K >= 1 returns the minimum of the data; K < 0 returns INT_MAX; K == 0 on non-empty data is excluded (division by zero) |
| `KValues.MaxK` | Lab1/min_experiments.cpp:72-73 | `max_k` lies between 2 and 64; it is 2 when 4·hc < 2, 4·hc when that lies in 2..64, and 64 when 4·hc > 64 |
| `KValues.PowersFrom` | Lab1/min_experiments.cpp:77-82 | what the doubling loop appends from p: empty exactly when p > `max_k`, starting with p, every entry lies in p..`max_k`; `PowersFromShape` gives its exact shape |
| `KValues.BaseCandidates` | Lab1/min_experiments.cpp:72-82 | the list before hc is inserted starts with 1, 2 and every entry lies in 1..`max_k`; `BaseCandidatesShape` and `BaseCandidatesIncreasing` give its shape and order |
| `KValues.PowersFromShape` | Lab1/min_experiments.cpp:77-82 | the doubling loop appends 2^e, 2^(e+1), … and stops after the last power within `max_k` |
| `KValues.BaseCandidatesShape` | Lab1/min_experiments.cpp:72-82 | the list before hc is inserted is [1, 2, 4, …, 2^j] with 2^j <= max_k < 2^(j+1), with at least two entries |
| `KValues.BaseCandidatesIncreasing` | Lab1/min_experiments.cpp:75-82 | the list before hc is inserted is strictly increasing and every entry lies in 1..64 |
| `KValues.InsertUnique` | Lab1/min_experiments.cpp:88-90 | inserting into a strictly increasing list keeps it strictly increasing, and the elements become the old ones plus x |
| `KValues.SortUnique` | Lab1/min_experiments.cpp:89-90 | sort then unique gives a strictly increasing list with exactly the input's elements |
| `KValues.StrictlyIncreasingUnique` | Lab1/min_experiments.cpp:89-90 | two strictly increasing lists with the same elements are equal, so sort-then-unique has exactly one correct outcome |
| `KValues.KCandidates` | Lab1/min_experiments.cpp:71-91 | the swept list holds exactly the base values plus hc when hc > 1; `KCandidatesProperties` adds order and bounds, and `GenerateKValues` is the loop that builds it |
| `KValues.KCandidatesProperties` | Lab1/min_experiments.cpp:84-91 | the swept list is strictly increasing and starts with 1; it holds exactly the powers of two plus hc when hc > 1, so it contains hc whenever hc > 1; every entry other than hc is at most 64 |
| `KValues.KCandidatesExamples` | Lab1/min_experiments.cpp:71-91 | hc = 8 gives [1,2,4,8,16,32]; hc = 6 gives [1,2,4,6,8,16]; hc = 0 gives [1,2] |
| `KValues.KCandidatesCappedExample` | Lab1/min_experiments.cpp:71-91 | hc = 17: `max_k` is capped at 64, and the list is [1,2,4,8,16,17,32,64] |
| `KValues.GenerateKValues` | Lab1/min_experiments.cpp:71-91 | the imperative construction yields the specified list: strictly increasing, starting at 1, with exactly the powers of two plus hc when hc > 1 |
| `Experiments.TrialTotal` | Lab1/min_experiments.cpp:97-101 | `total_time` after some runs is at least the duration of each of those runs |
| `Experiments.AverageTime` | Lab1/min_experiments.cpp:102 | `avg_time` lies between the fastest and the slowest of the three runs; `AverageIsTruncatedMean` gives its exact value |
| `Experiments.AverageIsTruncatedMean` | Lab1/min_experiments.cpp:97-102 | the recorded average is the mean of the three runs, rounded down |
| `Experiments.RecordAverage` | Lab1/min_experiments.cpp:103-109 | one pass of the loop body: `times_by_K[K]` becomes the average, only K is added as a key, and every other entry keeps its value; from no winner, K and its average become the best; otherwise K and its average replace the best exactly when the average is strictly smaller, and on a tie or a larger average both best K and best time stay as they were |
| `Experiments.SweepReport` | Lab1/min_experiments.cpp:95-110 | the report after the loop over a K list keeps its hardware concurrency and has a winner once any K was swept; `SweepTimes`, `SweepBestMonotone` and `SweepFindsFirstMinimum` give the rest |
| `Experiments.SweepTimes` | Lab1/min_experiments.cpp:95-103 | after the sweep, each swept K maps to its average, other entries are unchanged, and the key set gains exactly the swept K |
| `Experiments.SweepBestMonotone` | Lab1/min_experiments.cpp:105-109 | once set, the best time never returns to -1 and never increases; the best K is the old one or a swept one |
| `Experiments.RecordKeepsFirstMinimum` | Lab1/min_experiments.cpp:103-109 | one more loop pass keeps "best = smallest average, under the first K that reaches it" over the longer list |
| `Experiments.SweepFindsFirstMinimum` | Lab1/min_experiments.cpp:95-110 | from a report with no winner, a sweep over a non-empty list sets the best time to the minimum average and the best K to the first K in list order that reaches it |
| `Experiments.DefaultReportPlansOneAndTwo` | Lab1/min_experiments.h:18-24 | a default report has no winner, best K 0, and its hardware concurrency 0 plans the K list [1, 2] |
| `Experiments.TwoWorkerExample` | Lab1/min_experiments.cpp:39-64 | [5,3,8,1,9,2] with two workers splits into [5,3,8] and [1,9,2]; their minima are 3 and 1, the fold of [3,1] from INT_MAX is 1, and 1 is the minimum of the whole data |
| `Experiments.MinExperiments.constructor` | Lab1/min_experiments.cpp:12-16 | the experiment borrows the data and starts from the default report, with the hardware concurrency given |
| `Experiments.MinExperiments.TimeWorkerCount` | Lab1/min_experiments.cpp:97-102 | the timing loop for one K (K >= 1) yields `AverageTime`: the truncated mean of the three measured durations |
| `Experiments.MinExperiments.RecordTime` | Lab1/min_experiments.cpp:103-109 | the in-place update of the report for one K is `RecordAverage` of the old report, whose contract gives the written entry and the best-K rule |
| `Experiments.MinExperiments.SweepWorkerCounts` | Lab1/min_experiments.cpp:95-110 | the loop over the K list updates the report in place to `SweepReport` of the old report over that list |
| `Experiments.MinExperiments.RunCustomParallelTests` | Lab1/min_experiments.cpp:69-111 | the new report is the sweep of the old one over the K list; from a fresh report the best is the first minimum; an existing best never gets worse |

## Left out

- Wall-clock timing (`measure_time`, `std::chrono`) is not modelled. The microseconds measured for the i-th run of K are the parameter `duration(K, i)`.
- The durations are non-negative and unbounded. Overflow of the 64-bit `total_time`, and a clock that runs backwards, are not modelled.
- The `std::async` tasks and futures are not modelled as concurrent. The chunks are evaluated one after another in chunk order, and `FoldMinIgnoresOrder` shows that any other completion order gives the same result.
- `thread::hardware_concurrency()` is not called. The constructor takes the hardware concurrency as a parameter.
- `CustomParallelMinElement` requires the data length to fit in an `int`, because the code casts `size` to `int`. Longer vectors are not modelled.
- `GenerateKValues` requires that 4·hc does not overflow an `int`. Larger values are undefined behaviour in C++.
- `std::sort` and `std::unique` are not modelled in place. They are modelled on values by `SortUnique`.
- `run_library_tests`, `MeasurementResult`, `library_results_` and `data_size_` are not modelled. They are a timing wrapper around `std::min_element` with execution policies and hold no logic of the core.
- `print_report` is not modelled. It is console output plus a floating-point ratio, and includes the K-ordered printing of `times_by_K`.
- `DataLoader::generate_data` (random data) and `main` (the fixed size sweep and console output) are outside the core.
