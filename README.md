# Triangle counting on sparse graphs

This project models the counting kernels of a small C program. The program
counts the triangles of an undirected graph read from a Matrix Market file.
The graph arrives as COO pairs and is converted to a Compressed Sparse Column
(CSC) matrix. The program keeps one counter per vertex, and each kernel adds
the triangles it finds at a vertex to that vertex's counter. The kernels are:

- the brute-force `cooSequential`: a dense adjacency matrix and a triple loop
  over `i < j < k`;
- the CSC counter (V3) in its three drivers, `cscSequential`,
  `cscParallelOmp` and `cscParallelDynamicOmp`. All three are built around
  `checkForCommonValueInSubarrays`, which intersects two column ranges with a
  binary search;
- `runAndPresentResult`, which clears the counters, runs one kernel, and
  reports the counter sum divided by three;
- the pthreads neighbour-expansion counter (V4), `cscParallelV4Pthreads` and
  its thread body `multiplyMatrices`:
  - it builds reverse lists;
  - it merges each vertex's full neighbour list;
  - it counts common neighbours per edge;
  - it splits the columns into one chunk per thread and halves every counter
    at the end.

Modules:

| file | module | models |
|---|---|---|
| `counters.dfy` | `Counters` | the counter vector as a list of increments, and the order-independence of the updates |
| `array_utils.dfy` | `ArrayUtils` | the sorted-array helpers the kernels call: binary search, merge, common-element count, reset |
| `csc_graph.dfy` | `CscGraph` | the CSC matrix and its well-formedness |
| `brute_force.dfy` | `BruteForce` | `cooSequential` |
| `csc_counter.dfy` | `CscCounter` | `swapInts`, `checkForCommonValueInSubarrays`, the three V3 drivers, `runAndPresentResult` |
| `neighbour_expansion.dfy` | `NeighbourExpansion` | `multiplyMatrices`, `cscParallelV4Pthreads` |

Each kernel is an imperative method over the counter `array`. Its
`ensures` ties the new counters to `Apply(old counters, increments)`, where
the list of increments is a function of the graph. Lemmas then say what that
list means:

- which triangles or shared neighbours it counts;
- how much each counter gains;
- the total it adds;
- that any permutation of the list gives the same counters.

Parallel execution is modelled by processing columns (V3) or chunks (V4) in
any order the caller gives. Every individual update is an atomic or locked
increment, so by `Counters.ApplyPermutation` any interleaving of the
increments leaves the same counters.

## Model

| member | source | states |
|---|---|---|
| `Counters.Add` | main.c:25 | one update `c3[vertex] += amount`: that counter grows by the amount, every other counter is unchanged (body) |
| `Counters.Apply` | main.c:24-29 | applying increments keeps the number of counters |
| `Counters.ApplyAt` | main.c:24-29 | after a run, counter `v` is its old value plus the sum of the amounts aimed at `v` |
| `Counters.ApplyAppend` | main.c:20-31 | running two batches of increments one after the other is the same as running their concatenation |
| `Counters.GainAppend` | main.c:20-31 | the gain of a vertex is additive over concatenation |
| `Counters.TotalAppend` | main.c:20-31 | the total added is additive over concatenation |
| `Counters.GainPermutation` | main.c:24-29 | the gain of a vertex depends only on the multiset of increments |
| `Counters.ApplyPermutation` | v4_pt.c:41-44 | increments applied in any interleaving give the same counters; this is why the atomic and mutex-guarded updates are race-free in outcome |
| `Counters.PermutationTargets` | main.c:24-29 | a reordering of in-range increments stays in range |
| `Counters.SumApply` | main.c:97-99 | the sum of the counters after a run is the old sum plus the total of the increments |
| `Counters.SumZeros` | main.c:95 | the cleared counters sum to zero |
| `Counters.OnesFacts` | main.c:24-29 | one found triangle adds one to each of its three vertices (more to a vertex named twice) and three in all |
| `Counters.IncrementEach` | main.c:24-29 | the three increments `c3[colIndex1]++`, `c3[colIndex2]++`, `c3[arr[k]]++` |
| `Counters.ApplyOnes` | main.c:24-29 | those three increments are three single updates in sequence |
| `Counters.ScheduledAppend` | main.c:71-78 | processing two runs of columns one after the other yields the concatenated increments |
| `Counters.ScheduledPermutation` | main.c:83-90 | processing the blocks in a permuted order yields a permutation of the increments |
| `Counters.ScheduledAnyOrder` | main.c:71-72 | processing all columns in any order (static or dynamic OpenMP schedule) gives the counters of the sequential order |
| `Counters.ApplyNextInSpan` | v4_pt.c:28 | extending a chunk by its next column applies that column's increments |
| `Counters.ScheduledTargets` | main.c:60-66 | all increments of a run target existing counters when each column's do |
| `Counters.ScheduledTotal` | main.c:97-100 | a run adds `per` times the number of things found when each block adds `per` per find |
| `Counters.PermutationBounds` | main.c:71-72 | a permutation of the column indices has one entry per column, each in range |
| `ArrayUtils.BinarySearch` | main.c:23 | `binarySearch(arr, lo, hi, value)` answers true exactly when `value` occurs in `arr[lo..hi]` (inclusive) of a sorted range |
| `ArrayUtils.OccursInSlice` | main.c:23 | occurrence in an index range is membership in the slice |
| `ArrayUtils.Merge` | v4_pt.c:34-39 | the merge has the length of both inputs together |
| `ArrayUtils.MergeMultiset` | v4_pt.c:34-39 | the merge is a permutation of the two inputs together |
| `ArrayUtils.MergeSorted` | v4_pt.c:34-39 | the merge of two sorted lists is sorted and starts with the smaller head |
| `ArrayUtils.MergeOrderedHalves` | v4_pt.c:36 | when every value of the second list is below every value of the first, the merge is the second list followed by the first |
| `ArrayUtils.MergeArrays` | v4_pt.c:36 | `mergeArrays` fills the output buffer with the merge of the two sorted inputs |
| `ArrayUtils.CommonCount` | v4_pt.c:40 | the common count is at most the length of either list |
| `ArrayUtils.CommonCountIsIntersection` | v4_pt.c:40 | on strictly ascending lists the two-pointer count is the size of the intersection of their value sets |
| `ArrayUtils.CommonCountIsMultisetIntersection` | v4_pt.c:40 | on sorted lists with repeats, the two-pointer count is the size of their multiset intersection |
| `ArrayUtils.CountCommonElementsInSortedArrays` | v4_pt.c:40 | the loop computes the common count; on sorted inputs it is the size of the multiset intersection (a value held `m` and `n` times is matched `min(m, n)` times), and on strictly ascending inputs the size of the intersection of the value sets |
| `ArrayUtils.ZeroOutArray` | main.c:95 | every entry is zero afterwards |
| `ArrayUtils.OccurrencesAppend` | v4_pt.c:58-62 | occurrence counts add up over concatenation |
| `ArrayUtils.OccurrencesStrictlySorted` | v4_pt.c:58-62 | in a strictly ascending list a value occurs at most once |
| `CscGraph.Csc.Column` | main.c:61 | column `i` is `rowsCsc[colsCsc[i]..colsCsc[i+1]]`, and every row index in it is a vertex |
| `CscGraph.Csc.ColumnAscending` | main.c:23 | each column of a valid matrix is strictly ascending, as the binary search needs |
| `BruteForce.FillAdjacency` | main.c:35-44 | the matrix is `nc` by `nc`, an entry is 1 exactly when some COO pair joins its two vertices (in either direction), and the matrix is symmetric |
| `BruteForce.JoinedNext` | main.c:41-44 | after pair `p`, two vertices are joined exactly when they were joined before or pair `p` joins them |
| `BruteForce.AdjacentSymmetric` | main.c:42-43 | adjacency is symmetric |
| `BruteForce.Closes` | main.c:48 | the innermost test: `adj[i][j]`, `adj[j][k]` and `adj[k][i]` are all set (body) |
| `BruteForce.KMembers` | main.c:47-48 | the inner loop finds exactly the `k` in `(j, bound)` that close `i`, `j`, `k` |
| `BruteForce.JMembers` | main.c:46-48 | the middle loop finds exactly the triangles whose smallest corner is `i` and whose middle corner is below the bound |
| `BruteForce.Members` | main.c:45-48 | the outer loop finds exactly the triangles `a < b < c` whose smallest corner is below the bound |
| `BruteForce.Triangles` | main.c:45-52 | the triangles the loop nest finds with first corner below `i`, in loop order: for each `i`, the middle loop's finds (body) |
| `BruteForce.KDistinct` | main.c:47 | the inner loop finds no triangle twice |
| `BruteForce.JDistinct` | main.c:46-47 | the middle loop finds no triangle twice |
| `BruteForce.TrianglesDistinct` | main.c:45-47 | the whole scan finds no triangle twice |
| `BruteForce.EarlierRowsDiffer` | main.c:45 | triangles found for an earlier `i` differ from those found for a later one |
| `BruteForce.EveryTriangleOnce` | main.c:45-52 | the scan lists every triangle of the graph exactly once |
| `BruteForce.TriangleIncs` | main.c:49-51 | each found triangle makes three increments |
| `BruteForce.TriangleIncsGain` | main.c:49-51 | the gain of vertex `v` is the number of found triangles that have `v` as a corner |
| `BruteForce.TriangleIncsTotal` | main.c:49-51 | the triangles add three each in total |
| `BruteForce.TriangleIncsTargets` | main.c:49-51 | the increments target the triangles' corners, all existing vertices |
| `BruteForce.BruteForceCounts` | main.c:34-56 | afterwards `c3[v]` grows by the number of triangles at `v`, and the counter sum grows by three times the number of triangles |
| `BruteForce.KCountsIncs` | main.c:47-52 | the innermost loop's counters are the increments of the triangles it finds |
| `BruteForce.JCountsIncs` | main.c:46-52 | the middle loop's counters are the increments of the triangles it finds |
| `BruteForce.JCountsStep` | main.c:46-47 | one more middle iteration appends the inner loop's triangles |
| `BruteForce.CountsIncs` | main.c:45-52 | the outer loop's counters are the increments of the triangles it finds |
| `BruteForce.CountsStep` | main.c:45-46 | one more outer iteration appends the middle loop's triangles |
| `BruteForce.KTrianglesStep` | main.c:48-51 | one more `k` adds that triangle's three increments exactly when `k` closes `i`, `j` |
| `BruteForce.JTrianglesStep` | main.c:46-47 | one more `j` applies the triangles of the inner loop for that `j` |
| `BruteForce.TrianglesStep` | main.c:45-46 | one more `i` applies the triangles of the middle loop for that `i` |
| `BruteForce.TriangleIncsSnoc` | main.c:49-51 | one more triangle applies its three increments |
| `BruteForce.TriangleIncsAppend` | main.c:45-52 | the increments of two lists of triangles apply one after the other |
| `BruteForce.ScanThirdCorner` | main.c:47-51 | the innermost loop leaves the counters its specification function gives |
| `BruteForce.ScanSecondCorner` | main.c:46-51 | the middle loop leaves the counters its specification function gives |
| `BruteForce.CooSequential` | main.c:34-56 | `cooSequential` adds to the counters the increments of every triangle, each listed once |
| `CscCounter.SwapInts` | main.c:9-13 | the two values are exchanged |
| `CscCounter.Orient` | main.c:16-19 | the ranges are swapped exactly when range 1 is shorter, so the walked range is never longer than the searched one |
| `CscCounter.Hits` | main.c:20-23 | the values counted by the walk: `arr[k]` for each walked position `k`, in order, with `k != arr[k]` and `arr[k]` found in the searched range (body) |
| `CscCounter.CheckForCommonValueInSubarrays` | main.c:15-32 | for each walked position `k` with `k != arr[k]` whose value occurs in the searched range, it adds one to `c3[colIndex1]`, to `c3[colIndex2]` and to `c3[arr[k]]` |
| `CscCounter.HitIncs` | main.c:24-29 | each hit makes three increments |
| `CscCounter.HitIncsGain` | main.c:24-29 | each hit adds exactly one to each of the two column counters and to the counter of its value, nothing elsewhere |
| `CscCounter.HitIncsEffect` | main.c:24-29 | the resulting counter `v` is its old value plus that gain |
| `CscCounter.HitIncsTotal` | main.c:24-29 | the hits add three each in total |
| `CscCounter.HitAt` | main.c:23-30 | a walked position that passes the test adds its three increments |
| `CscCounter.NoHitAt` | main.c:21-23 | a walked position with `k == arr[k]` or whose value is not found adds nothing |
| `CscCounter.HitsAreCommonExceptSelfPositions` | main.c:20-23 | the hits are at most the common values, and equal them when no walked position holds its own index |
| `CscCounter.CommonIsIntersection` | main.c:20-23 | the common values are the values in both ranges |
| `CscCounter.CommonSorted` | main.c:20-23 | on an ascending walked range the common values are strictly ascending, and each comes from the walked range |
| `CscCounter.CommonCountOf` | main.c:20-23 | walking a strictly ascending range finds as many common values as the two ranges share |
| `CscCounter.CommonCountSymmetric` | main.c:16-19 | walking range 2 and searching range 1, or the reverse, finds the same number of common values (the size of the intersection of the two ranges' value sets), and so does the orientation the swap picks |
| `CscCounter.HitsInBoth` | main.c:20-23 | every hit occurs in both the walked and the searched range |
| `CscCounter.HitsAreValues` | main.c:29 | every hit is a vertex, so `c3[arr[k]]` is in bounds |
| `CscCounter.HitIncsBelow` | main.c:24-29 | the increments of in-range hits target existing counters |
| `CscCounter.HitIncsTargets` | main.c:64 | the increments of an entry target existing counters |
| `CscCounter.EntryRanges` | main.c:62-64 | the ranges passed for an entry are well-formed and ascending, and hold vertices |
| `CscCounter.ColumnRange` | main.c:61 | the column's entry range lies within the row array and is ascending |
| `CscCounter.EntryHits` | main.c:62-64 | the hits of entry `j` of column `i`: none when `i == subRow`; otherwise the walk with range 1 = column `subRow` and range 2 = the entries of column `i` after `j`, oriented by the swap (body) |
| `CscCounter.EntryIncs` | main.c:64 | the increments of that entry, with `colIndex1 = subRow` and `colIndex2 = i` (body) |
| `CscCounter.EntryBlocks` | main.c:61-65 | a column has one block of increments per entry |
| `CscCounter.EntryHitBlocks` | main.c:61-65 | a column has one block of hits per entry |
| `CscCounter.CscBlocks` | main.c:60 | the graph has one block of increments per column |
| `CscCounter.HitBlocks` | main.c:60 | the graph has one block of hits per column |
| `CscCounter.CscIncs` | main.c:60-66 | the increments of a whole run: the columns' increments in index order (body) |
| `CscCounter.AllHits` | main.c:60-66 | the values a whole run finds: the columns' hits in index order (body) |
| `CscCounter.ColumnTargets` | main.c:61-65 | a column's increments target existing counters |
| `CscCounter.CscIncsTargets` | main.c:60-66 | all increments of a run target existing counters |
| `CscCounter.ColumnTotal` | main.c:61-65 | a column adds three per hit |
| `CscCounter.CscIncsTotal` | main.c:60-66 | a run adds three per hit in total |
| `CscCounter.ProcessEntry` | main.c:62-64 | one entry: nothing on the diagonal, otherwise the check on column `subRow` against the rest of column `i` |
| `CscCounter.ProcessEntryStep` | main.c:61-64 | one more entry extends the column's increments by that entry's |
| `CscCounter.ColumnStep` | main.c:61 | the column prefix grows by one entry's increments |
| `CscCounter.ProcessColumn` | main.c:61-65 | the inner loop applies the column's increments |
| `CscCounter.CscSequential` | main.c:59-67 | `cscSequential` applies the increments of all columns |
| `CscCounter.CscParallel` | main.c:70-91 | both OpenMP drivers, with columns in any order the schedule picks, leave the same counters as `cscSequential` |
| `CscCounter.SumCounters` | main.c:97-99 | the loop computes the counter sum |
| `CscCounter.ZeroStartSum` | main.c:95-99 | from cleared counters, the sum after a run is three times the number of hits |
| `CscCounter.RunAndPresentResult` | main.c:93-107 | for every driver, the reported count (sum divided by three) is the number of hits |
| `CscCounter.EntryCommon` | main.c:62-64 | the evidently intended work of an entry: none on the diagonal, otherwise every value the two oriented ranges share, with no `k == arr[k]` test (body) |
| `CscCounter.EntryCommonIsThirdCorners` | main.c:64 | in a lower-triangular matrix, the values common to column `subRow` and the rest of column `i` are exactly the third corners `w > subRow` of triangles `{i, subRow, w}`, each once |
| `CscCounter.EntryCommonElems` | main.c:64 | those common values are the members of column `subRow` that also follow the entry in column `i`, strictly ascending |
| `CscCounter.EntryBelowDiagonal` | main.c:62-63 | in a lower-triangular matrix each entry's row exceeds its column |
| `CscCounter.ThirdCorner` | main.c:64 | in a lower-triangular matrix, being in both ranges means being a third corner above `subRow` |
| `CscCounter.TailOfColumn` | main.c:64 | the rest of column `i` after the entry is the part of the column above `subRow`, ascending |
| `CscCounter.SelfPositionGraphShape` | main.c:21-22 | the witness matrix for the self-position skip is valid and has the stated columns |
| `CscCounter.SelfPositionGraphHits` | main.c:21-22 | on that matrix the counter finds no hit |
| `CscCounter.SelfPositionMissesTriangle` | main.c:21-22 | the witness is lower-triangular, has the triangle `{0, 1, 3}`, the intended intersection finds its third corner, and the counter as written finds nothing |
| `NeighbourExpansion.Reverse` | v4_pt.c:69-74 | the reverse list of `v` after the columns before `i`: those columns, ascending, that hold `v` (body) |
| `NeighbourExpansion.ReverseMembers` | v4_pt.c:69-74 | reverse list `v` holds exactly the earlier columns that contain `v`, ascending |
| `NeighbourExpansion.ListedCount` | v4_pt.c:69-74 | mid-fill, the reverse list's length is the number of occurrences of `v` so far (`colIndexes[v]`) |
| `NeighbourExpansion.ListedNext` | v4_pt.c:71-72 | one more entry appends its column to the list of its row and leaves the others alone |
| `NeighbourExpansion.ListedColumnEnd` | v4_pt.c:70 | at a column's end the partial list is the reverse list through that column |
| `NeighbourExpansion.ColumnStartAscending` | v4_pt.c:70 | each column prefix is strictly ascending |
| `NeighbourExpansion.ReverseLength` | v4_pt.c:56-68 | the full reverse list of `v` has length `colSizes[v]` |
| `NeighbourExpansion.CountColumnSizes` | v4_pt.c:56-62 | `colSizes[v]` becomes the number of entries in row `v` |
| `NeighbourExpansion.AllocateReverseLists` | v4_pt.c:66-68 | one fresh, distinct buffer of size `colSizes[v]` per vertex |
| `NeighbourExpansion.FillReverseLists` | v4_pt.c:64-74 | `symmetricRowItems[v]` becomes the ascending list of columns that contain `v` |
| `NeighbourExpansion.StartFilling` | v4_pt.c:64-65 | cleared `colIndexes` start the fill with empty lists |
| `NeighbourExpansion.NextColumn` | v4_pt.c:69 | finishing a column starts the next, and the last finishes the fill |
| `NeighbourExpansion.FillColumn` | v4_pt.c:70-73 | one column of the fill keeps the fill invariant |
| `NeighbourExpansion.FillEntry` | v4_pt.c:71-72 | one entry writes its column at `colIndexes[row]` and bumps that index |
| `NeighbourExpansion.FillStep` | v4_pt.c:71-72 | one entry raises the occurrence count of its row by one, within the final count, and appends to that row's list |
| `NeighbourExpansion.Neighbours` | v4_pt.c:34-39 | the full list of a vertex: its own column merged with its reverse list, in that argument order (body) |
| `NeighbourExpansion.NeighboursFacts` | v4_pt.c:34-39 | the merged full list has size column length plus `colSizes`, is sorted, and holds exactly the adjacent vertices |
| `NeighbourExpansion.NeighboursLowerTriangular` | v4_pt.c:34-39 | in a lower-triangular matrix the merge is the reverse list followed by the column, strictly ascending |
| `NeighbourExpansion.CommonCountIsSharedNeighbours` | v4_pt.c:40 | in a lower-triangular matrix, `sum` is the number of vertices adjacent to both ends of the edge |
| `NeighbourExpansion.CommonCountOfFullLists` | v4_pt.c:40 | on any valid matrix, also one that stores an edge in both directions, `sum` is the size of the multiset intersection of the two full lists |
| `NeighbourExpansion.FullLists` | v4_pt.c:34-39 | one full list per vertex |
| `NeighbourExpansion.FullListsAt` | v4_pt.c:34-39 | entry `v` of that table is `v`'s full neighbour list |
| `NeighbourExpansion.FullNeighbours` | v4_pt.c:34-36 | `fullRow` holds the full neighbour list of the vertex |
| `NeighbourExpansion.EdgeIncs` | v4_pt.c:30-44 | the updates of entry `j` of column `i`: none when `curRow == curCol`; otherwise `sum` to `res[curCol]`, then to `res[curRow]` (body) |
| `NeighbourExpansion.EdgeIncsGain` | v4_pt.c:32-44 | a diagonal entry adds nothing; an edge adds the common count of the two ends' full lists to each of its two ends and nothing elsewhere, twice that in total (the shared-neighbour count when the matrix is lower-triangular, `CommonCountIsSharedNeighbours`) |
| `NeighbourExpansion.PairGain` | v4_pt.c:42-43 | the two locked updates of distinct ends add `sum` to each and `2 * sum` in total |
| `NeighbourExpansion.AddToBoth` | v4_pt.c:41-44 | `res[curCol] += sum; res[curRow] += sum` |
| `NeighbourExpansion.ApplyPair` | v4_pt.c:42-43 | the two updates apply in sequence |
| `NeighbourExpansion.ProcessEdge` | v4_pt.c:30-46 | one edge applies its increments and keeps the shared tables intact |
| `NeighbourExpansion.ProcessEdgeStep` | v4_pt.c:29 | one more edge extends the column's increments |
| `NeighbourExpansion.EdgePrefixNext` | v4_pt.c:29 | the column prefix grows by one edge's increments |
| `NeighbourExpansion.ProcessV4Column` | v4_pt.c:29-47 | one column applies its edges' increments |
| `NeighbourExpansion.V4Blocks` | v4_pt.c:28 | one block of increments per column |
| `NeighbourExpansion.V4Incs` | v4_pt.c:28-48 | the increments of every column in index order, what all threads together make (body) |
| `NeighbourExpansion.ColumnBlocks` | v4_pt.c:28 | the table of the first `n` columns' blocks has `n` entries |
| `NeighbourExpansion.ColumnBlocksAt` | v4_pt.c:28 | entry `k` of that table is column `k`'s increments |
| `NeighbourExpansion.ProcessV4ColumnStep` | v4_pt.c:28 | one more column extends the thread's increments |
| `NeighbourExpansion.MultiplyMatrices` | v4_pt.c:25-49 | a thread applies the increments of columns `executeFrom` to `executeTo - 1`, in order |
| `NeighbourExpansion.ChunkStart` | v4_pt.c:78-79 | the chunk bound as the C code computes it: `t * nc` reduced modulo 2^32, then divided by the thread count (body) |
| `NeighbourExpansion.WideChunkStart` | v4_pt.c:78-79 | the chunk bound `t * nc / NUM_THREADS` in exact arithmetic, the evidently intended bound (body) |
| `NeighbourExpansion.WideChunkBounds` | v4_pt.c:78-79 | computed without overflow, the chunk bounds start at 0, end at `nc` and never decrease |
| `NeighbourExpansion.ChunkStartAgrees` | v4_pt.c:78-79 | when `NUM_THREADS * nc` fits in 32 bits, the 32-bit bounds are the exact ones |
| `NeighbourExpansion.ChunkStartWraps` | v4_pt.c:78-79 | with `nc = 2^31` and two threads, the 32-bit end of the last chunk wraps to 0 instead of `nc` |
| `NeighbourExpansion.ChunksCover` | v4_pt.c:77-79 | the exact chunks, one after the other, cover the columns `0..nc-1` exactly once, in order |
| `NeighbourExpansion.ChunkBlocks` | v4_pt.c:77-90 | one block of increments per thread |
| `NeighbourExpansion.ChunkIncs` | v4_pt.c:77-89 | the work of thread `t`: the increments of the columns of its chunk, in order (body) |
| `NeighbourExpansion.ChunkSchedule` | v4_pt.c:77-90 | the first `k` chunks together process the columns the first `k` chunks cover |
| `NeighbourExpansion.AllChunks` | v4_pt.c:77-94 | all chunks together make the increments of every column, in column order |
| `NeighbourExpansion.RunChunk` | v4_pt.c:78-89 | thread `t` applies its chunk's increments |
| `NeighbourExpansion.Halved` | v4_pt.c:95-97 | each counter becomes its value divided by two, rounded down |
| `NeighbourExpansion.HalveAll` | v4_pt.c:95-97 | the loop halves every counter |
| `NeighbourExpansion.BuildTables` | v4_pt.c:56-74 | `colSizes` and `symmetricRowItems` are built fresh and hold the row counts and reverse lists |
| `NeighbourExpansion.CscParallelV4Pthreads` | v4_pt.c:52-105 | with threads finishing in any order, the counters are the halved result of applying every edge's increments; with no threads, only the halving |

## Left out

- Threads, OpenMP and the mutex are not modelled as concurrency. A parallel
  run is a sequential run over the columns (V3) or chunks (V4) in an order the
  caller supplies. `Counters.ApplyPermutation` covers any interleaving of the
  individual atomic or locked increments.
- `CscCounter.CheckForCommonValueInSubarrays`, `BruteForce.CooSequential`,
  `NeighbourExpansion.CscParallelV4Pthreads`: counters are unbounded `nat`.
  The 32-bit wrap of a `uint32_t` counter whose value exceeds 2^32 - 1 is
  not modelled. In V4 a single update adds a whole `sum`, so the wrap
  depends on the accumulated value, not on the number of updates.
- `CscCounter.RunAndPresentResult`: the 32-bit wrap of the `triangles` sum is
  not modelled, and neither is the wall-clock measurement (`timer.h`) or the
  printing.
- `NeighbourExpansion.CscParallelV4Pthreads`: requires
  `NUM_THREADS * nc < 2^32`. Beyond that the C code computes wrapped chunk
  bounds. `NeighbourExpansion.ChunkStartWraps` shows one such input (see
  Findings). A negative `NUM_THREADS` (from `atoi`) is undefined behaviour in
  the C code and is not modelled: the thread count is a `nat`. So is
  `NUM_THREADS == 0`, which declares the zero-length array
  `pthread_t threads[0]`; the model gives that case its evident outcome:
  no thread runs and only the halving happens.
- `NeighbourExpansion.CscParallelV4Pthreads`: the result is stated as the
  halved applied increments, together with the per-edge gain
  (`EdgeIncsGain`, `CommonCountIsSharedNeighbours`). No lemma sums those
  gains into a per-vertex triangle count of the whole graph.
- `CscCounter.RunAndPresentResult`: the result is stated as the number of
  hits, together with the per-entry meaning of the intersection
  (`EntryCommonIsThirdCorners`). No lemma relates the number of hits of the
  whole graph to its triangle count or to `BruteForce.CooSequential`; the
  self-position skip (see Findings) makes the two differ on some graphs.
- `CscCounter.CheckForCommonValueInSubarrays`: the unsigned `end1 - 1` of an
  empty searched range is never reached, because the walked range is never
  longer than the searched one (`CscCounter.Orient`).
- `malloc`/`free`, and the `struct Arg` handed to each thread, are not
  modelled. Each thread's arguments are parameters of
  `NeighbourExpansion.RunChunk`.
- `main` (argument handling, `readMtxFile`, `coo2csc`) is not modelled. The
  CSC matrix is an input satisfying `CscGraph.Csc.Valid`.
- `arrayutils.h` is not part of this model. `binarySearch`, `mergeArrays`,
  `countCommonElementsInSortedArrays` and `zeroOutArray` are given the
  behaviour their call sites rely on and are proved against it; `printArray`
  is unused by the core.
- The graph arrays, which no kernel writes, are modelled as sequences. The
  brute-force adjacency matrix is an `array2`. The reverse lists are an
  array of arrays.

## Findings

| source | as written | input that shows it | evidently intended | confidence | as-written member | corrected member |
|---|---|---|---|---|---|---|
| main.c:21-22 | skips any walked position `k` whose stored row index equals `k`, comparing a position with a value | `rowsCsc = [1, 2, 3, 3]`, `colsCsc = [0, 3, 4, 4, 4]` (edges 0-1, 0-2, 0-3, 1-3; triangle {0, 1, 3}): position 3 holds 3, so the only discovery of the triangle is skipped and the count is 0 | count every common value; the diagonal is already excluded by `i != subRow` | high (not executed) | `CscCounter.SelfPositionMissesTriangle` | `CscCounter.EntryCommonIsThirdCorners` |
| v4_pt.c:78-79 | `i * nc / NUM_THREADS` in `uint32_t`: the product wraps before the division | `nc = 2^31`, `NUM_THREADS = 2`: the last chunk's end `2 * nc` wraps to 0, so the second thread processes no column | chunk bounds `i * nc / NUM_THREADS` in exact arithmetic, covering `0..nc-1` | high (not executed) | `NeighbourExpansion.ChunkStartWraps` | `NeighbourExpansion.ChunksCover` |
