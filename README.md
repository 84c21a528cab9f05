# Recall@K evaluation of a visual geolocalisation model

This project models the evaluation routine `test` of a visual place-recognition
project. The routine embeds a dataset's images and looks up each query's nearest
database images. It then scores recall@K: the share of queries that have a
ground-truth positive among their first K retrieved database images, for each
threshold K in a configured list. The model covers two parts of that routine:

- `RecallScoring` (`RecallScoring.dfy`) models the scoring loop. `Score` is a
  method over a zero-initialised `array<int>` with one slot per threshold. It
  has the source's nested loops over queries and thresholds, the suffix
  increment `recalls[i:] += 1` and the early `break`. Its postcondition ties
  the array to `Counts`, a pure specification. In that specification slot `i`
  counts the queries for which the prefix at some threshold position `j <= i`
  contains a positive. Lemmas over `Counts` prove what the loop promises:
  the counts are non-decreasing and bounded, each query adds one or nothing,
  only membership in the positive list matters, an empty positive list adds
  nothing, and the percentages lie in [0, 100] and reach 100 when every top
  match is a positive. `Percentages` models the final scaling in exact `real`
  arithmetic.
- `DatasetPartition` (`DatasetPartition.dfy`) models how the dataset's index
  space is split. Indices `[0, databaseNum)` are database images. Indices
  `[databaseNum, databaseNum + queriesNum)` are queries. The lemmas prove that
  the two ranges are disjoint and together cover the whole range in order.
  They also prove that slicing the feature matrix at `databaseNum` selects
  exactly those rows. `ExtractFeatures` models the two in-place fill loops of
  the feature matrix, with the network passed in as a function `embed`. It
  proves that every row ends up holding its own image's features.

Inputs are modelled as follows. The nearest-neighbour results are a given
`seq<seq<int>>` (one ranked row per query). Thresholds are a `seq<nat>`. Each
query's positives are a `seq<int>`, so duplicates and order can be expressed.
Python's clamping slice `pred[:n]` is `Prefix`, and `np.any(np.in1d(...))` is
the membership test `Hit`.

Recall@K is usually read as non-decreasing in K. The code guarantees this
along the positions of the threshold list (slot `i` versus slot `i + 1`),
which matches "in K" only when the list is ascending, as the default
`[1, 5, 10, 20]` is. The model follows the code: `CountMonotone` is stated
over slot positions and holds for any threshold list.

## Model

| member | source | states |
|---|---|---|
| RecallScoring.Prefix | src/test.py:59 | `pred[:n]` with Python's clamping: a prefix of `pred` of length `n`, or all of `pred` when `n` exceeds its length; `Hit` is `np.any(np.in1d(pred[:n], positives))` over it, true exactly when some element of this prefix is a member of the positives |
| RecallScoring.Score | src/test.py:56-61 | returns a newly allocated counter array with one slot per threshold whose contents equal `Counts`: slot `i` holds the number of queries whose prefix at some threshold position `j <= i` contains a positive (starting from all zeros, each query adding 1 to the suffix from its first hit) |
| RecallScoring.FirstHit | src/test.py:58-61 | the first threshold position whose prefix contains a positive, or the list length if none: every earlier position misses and the returned one hits |
| RecallScoring.CreditedIffFirstHit | src/test.py:58-61 | a query is credited in slot `i` if and only if its first hitting threshold is at position `i` or earlier, which is the suffix that `recalls[i:] += 1` followed by `break` increments |
| RecallScoring.CountAppend | src/test.py:57-61 | one more query adds exactly 1 to slot `i` when some threshold at position `j <= i` retrieves one of its positives, and adds nothing otherwise, so at most 1 per slot |
| RecallScoring.CountMonotone | src/test.py:57-61 | for slot positions `i <= j`, count `i` is at most count `j` |
| RecallScoring.CountBounded | src/test.py:57-61 | every count is at most the number of prediction rows |
| RecallScoring.CountsSortedAndBounded | src/test.py:56-61 | the counter array is non-decreasing from slot to slot and each slot lies in `[0, number of prediction rows]` |
| RecallScoring.EmptyPositivesAddNothing | src/test.py:59 | a query with an empty positive list leaves every slot unchanged |
| RecallScoring.NoHitsAllZero | src/test.py:57-61 | if no query retrieves a positive within any threshold, every count is 0 |
| RecallScoring.SameMembersSameCount | src/test.py:59 | replacing each query's positive list by one with the same members (reordered, with duplicates added or removed) leaves every count unchanged |
| RecallScoring.TopHitsCountAll | src/test.py:57-61 | if every threshold is at least 1 and every query's top prediction is a positive, every slot counts every query |
| RecallScoring.Percentages | src/test.py:63 | the scaled recall vector has one entry per counter slot |
| RecallScoring.PercentageInRange | src/test.py:63 | a count `c` with `0 <= c <= n` and `n > 0` scales to a value in [0, 100], and to exactly 100 if and only if `c == n` |
| RecallScoring.ScaledRecallsInRange | src/test.py:63 | with `queries_num` equal to the number of prediction rows and positive, every scaled recall lies in [0, 100] |
| RecallScoring.TopHitsFullRecall | src/test.py:57-63 | if every threshold is at least 1 and every query's top prediction is a positive, every scaled recall is exactly 100 |
| DatasetPartition.DatabaseIndices | src/test.py:22 | the database subset lists `databaseNum` indices |
| DatasetPartition.QueryIndices | src/test.py:33 | the query subset lists `queriesNum` indices |
| DatasetPartition.IndicesDisjoint | src/test.py:22-33 | database indices lie below `databaseNum`, query indices lie in `[databaseNum, databaseNum + queriesNum)`, and no index is in both subsets |
| DatasetPartition.IndicesCover | src/test.py:22-33 | the database indices followed by the query indices are exactly `0, 1, ..., databaseNum + queriesNum - 1` |
| DatasetPartition.SplitRows | src/test.py:43-44 | the two slices at `database_num` put back together give the whole matrix; the database part has at most `databaseNum` rows, and exactly that many whenever the query part is non-empty |
| DatasetPartition.SplitSelectsSubsets | src/test.py:43-44 | with one row per dataset index, the database slice holds exactly the rows of the database subset and the query slice exactly the rows of the query subset, in subset order |
| DatasetPartition.ExtractFeatures | src/test.py:26-40 | after the database loop and then the query loop, every row of the feature matrix holds the features of its own dataset index: neither subset overwrites the other's rows |

## Left out

- Model inference, `torch.no_grad`, device transfer and `DataLoader`/`Subset` batching and worker parallelism (src/test.py:18-40): the network is the parameter `embed` of `ExtractFeatures`, and batches are flattened into one row write per dataset index, in subset order.
- The FAISS exact-L2 index build and search (src/test.py:46-51): a foreign library over float32 vectors. Its result is the input `preds` of `Score`, and no property of the distances is modelled.
- Float32 feature contents and distances: only which row holds which index's features is modelled.
- Timing and logging (src/test.py:25, 31, 36, 41-42, 50): no behavioural content.
- The formatted summary string `R@k: value` with `:.1f` (src/test.py:64): depends on float formatting.
- The visualisation hook and output-path construction (src/test.py:66-72): an external collaborator that writes to the filesystem.
- Percentages: uses exact `real` arithmetic, not float64 rounding. It requires `queriesNum != 0`, because numpy's division by zero yields `inf`/`nan`, which `real` cannot represent.
- Score: thresholds are `nat`. Negative thresholds are excluded because they have no recall meaning: `pred[:-n]` drops the last `n` predictions instead of keeping the first ones. The search at src/test.py:51 only rejects a list with no positive threshold; a mixed list such as `[-5, 10]` reaches the loop, and the model does not cover it. An empty threshold list yields an empty counter array, whereas `max([])` at src/test.py:51 raises before the loop runs.
- Score: requires at least as many positive lists as prediction rows. With fewer, `positives_per_query[query_index]` raises an `IndexError` that the source does not handle.
