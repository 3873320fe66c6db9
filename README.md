# Verified model of a class-imbalance toolkit

This project models, in Dafny, the discrete core of a C++ research toolkit
for learning from imbalanced multi-class data. The toolkit grows CART
decision trees and compares several resamplers that shrink or replace a
training table before a tree is grown:

- random under-sampling, in two versions: one erases rows and one rebuilds the table class by class;
- edited nearest neighbours, in two versions: one uses a majority vote over a bounded max-heap, the other unanimity over a sorted distance table;
- cluster-centroids under-sampling, built on k-means++;
- the proposed remover, which weights rows by reverse nearest neighbours of relative-minority classes and removes rows by roulette-wheel selection without replacement.

Around these sit the supporting algorithms:

- Prim's minimum spanning tree;
- two k-means++ implementations with Lloyd iterations;
- three validation routines, which tally predictions into confusion counts and macro-average precision, recall, f1 and the geometric mean;
- the file operations that count classes and min-max normalise the tables.

A row is a `Sample`: its feature values (floats become reals) and its class
label. Labels run from 1 to the number of classes. Randomness is an input:
a permutation per class for a shuffle, and a value per draw for a roulette
wheel. The distance between rows is a parameter. The programs use the
Euclidean distance of the feature columns.

Loops become methods whose contracts tie them to specification functions,
and the lemmas state what those functions guarantee. The four tree variants
share one specification, `TreeSpec`. It is parameterised by a `Policy` that
records each variant's tie rules, where its majority scan starts, and what
value a feature without candidates reports. Each variant is proved to
compute that specification for its own policy.

## Model

| member | source | states |
|---|---|---|
| Samples.ClassCounts | proposed/src/proposed.cpp:3-16 | entry `c` of the class-count vector is the number of rows labelled `c`, for every class 0..n |
| Samples.TallyLabels | proposed/src/proposed.cpp:3-16 | the one-pass counting loop of `CalculateClassCounts` yields exactly the class-count vector |
| Samples.CountsAddUp | proposed/src/proposed.cpp:3-16 | when every label lies in 1..n the counts of classes 1..n add up to the number of rows |
| Samples.CountLabelPermutation | comparing_algorithms/random_under_sampling/src/random_under_sampling.cpp:34-35 | reordering a table (a shuffle) leaves every class count unchanged |
| Samples.KeepIsSelection | comparing_algorithms/random_under_sampling/src/random_under_sampling.cpp:44-48 | the kept rows are exactly the rows at the marked positions, which ascend: an order-preserving subsequence of the table |
| Samples.CountKeep | comparing_algorithms/random_under_sampling/src/random_under_sampling.cpp:44-48 | the class counts after erasure are the counts of marked rows per class |
| Samples.EraseUnmarked | comparing_algorithms/random_under_sampling/src/random_under_sampling.cpp:44-48 | erasing the unmarked rows back to front, one at a time, leaves exactly the marked rows in their original order |
| Samples.SquareDistanceProperties | comparing_algorithms/edited_nearest_neighbors/src/edited_nearest_neighbors.cpp:25-35 | the sum of squared coordinate differences is non-negative, symmetric, and zero between a vector and itself |
| Samples.SquareDistanceIsDistance | comparing_algorithms/edited_nearest_neighbors/src/edited_nearest_neighbors.cpp:25-35 | that sum (the distance before its square root) meets every requirement the model places on a distance |
| Sorting.SortBy | src/decision_tree_classifier.cpp:239-240 | the sort returns a permutation of its input ordered by non-decreasing key |
| Sorting.Sort | random_under_sampling/src/decision_tree_classifier.cpp:70 | the sorted values are a permutation of the input in non-decreasing order |
| Sorting.SortedUnique | random_under_sampling/src/decision_tree_classifier.cpp:70 | two sorted permutations of the same values are equal, so the unspecified order of the sort cannot change the sorted values |
| ClassStats.BuildBuckets | comparing_algorithms/random_under_sampling/src/random_under_sampling.cpp:18-22 | bucket `c` lists the positions of the rows labelled `c`, ascending |
| ClassStats.BucketFacts | comparing_algorithms/random_under_sampling/src/random_under_sampling.cpp:18-27 | a bucket holds as many positions as its class count, each of a row of its class, and every row of the class sits in it at its rank |
| ClassStats.LeastClassIsFirstMinimum | random_under_sampling/src/random_under_sampling.cpp:3-14 | the least minority class is the lowest label whose count is smallest among classes 1..n |
| ClassStats.FindLeastMinorityClass | random_under_sampling/src/random_under_sampling.cpp:3-14 | the scan from class 1 that moves only on a strictly smaller count returns that lowest minimum |
| ClassStats.CalculateSamplingSize | comparing_algorithms/random_under_sampling/src/random_under_sampling.cpp:3-13 | the result is at most every count of classes 1.., equals one of them, and is `UINT32_MAX` when there is no class |
| ClassStats.SamplingSizeIsLeastCount | comparing_algorithms/random_under_sampling/src/random_under_sampling.cpp:3-13 | with at least one class and 32-bit counts, the sampling size is the count of the least minority class |
| ClassStats.RowsOfClass | comparing_algorithms/cluster_centroids/src/cluster_centroids.cpp:23-33 | the rows grouped under class `c` all carry label `c` and are as many as its count |
| EraseUnderSampling.RandomUnderSampling | comparing_algorithms/random_under_sampling/src/random_under_sampling.cpp:15-48 | the result is the order-preserving subsequence of reserved rows; every class 1..n keeps exactly `m` rows (the smallest class count), all labels stay in 1..n, and there are `n * m` rows |
| EraseUnderSampling.BucketSizes | comparing_algorithms/random_under_sampling/src/random_under_sampling.cpp:24-27 | the bucket sizes are the class counts of classes 1..n |
| EraseUnderSampling.ReserveClass | comparing_algorithms/random_under_sampling/src/random_under_sampling.cpp:32-42 | after class `c` a row is reserved exactly when its class is at most `c` and its rank is among the first `m` of its class's permutation; class `c` gains `m` reserved rows and no other class changes |
| EraseUnderSampling.Reserve | comparing_algorithms/random_under_sampling/src/random_under_sampling.cpp:37-40 | reserving the next permuted index adds one reserved row to class `c` and none to any other |
| EraseUnderSampling.SizeIsSmallest | comparing_algorithms/random_under_sampling/src/random_under_sampling.cpp:29 | the computed sampling size is the smallest class count of the table |
| EraseUnderSampling.ReservedTotals | comparing_algorithms/random_under_sampling/src/random_under_sampling.cpp:29-48 | a mask reserving `m` rows of every class leaves `m` rows per class and `n * m` rows in all |
| RebuildUnderSampling.OrderIsPermutation | random_under_sampling/src/random_under_sampling.cpp:31-35 | the order in which a class is read is a permutation of its bucket; the least minority class keeps the identity order |
| RebuildUnderSampling.PicksWithoutReplacement | random_under_sampling/src/random_under_sampling.cpp:21-40 | the rows picked for a class are distinct input rows of that class |
| RebuildUnderSampling.PicksFacts | random_under_sampling/src/random_under_sampling.cpp:37-40 | every picked row is an input row labelled with its class |
| RebuildUnderSampling.CountPicks | random_under_sampling/src/random_under_sampling.cpp:37-40 | a class's block has `m` rows of that class and none of any other |
| RebuildUnderSampling.ResampledFacts | random_under_sampling/src/random_under_sampling.cpp:28-41 | the rebuilt table has exactly `m` rows of every class 1..n and `n * m` rows, each an input row with a label in 1..n |
| RebuildUnderSampling.LeastBlockIsItsRows | random_under_sampling/src/random_under_sampling.cpp:31-40 | the block of the least minority class is all of its rows, in their original order |
| RebuildUnderSampling.PickRows | random_under_sampling/src/random_under_sampling.cpp:37-40 | the copy loop of one class yields that class's block |
| RebuildUnderSampling.BuildResampled | random_under_sampling/src/random_under_sampling.cpp:29-41 | the class loop builds the blocks of classes 1..n one after another, grouped by ascending label |
| RebuildUnderSampling.RefillRecord | random_under_sampling/src/random_under_sampling.cpp:42-44 | the training table is replaced and both class-count vectors are recounted from zero (the corrected reset of the Findings table); the testing table and class number are unchanged |
| RebuildUnderSampling.RandomUnderSampling | random_under_sampling/src/random_under_sampling.cpp:16-45 | the training table becomes the rebuilt table of `m` rows per class, `m` the least minority count, with `n * m` rows and class counts recounted from zero (the corrected reset of the Findings table); the testing table is unchanged |
| Neighbours.Farthest | comparing_algorithms/edited_nearest_neighbors/src/edited_nearest_neighbors.cpp:42-43 | the heap's top is a kept candidate at the largest distance |
| Neighbours.Push | comparing_algorithms/edited_nearest_neighbors/src/edited_nearest_neighbors.cpp:44-51 | one push (and a pop when the heap exceeds `k`) keeps the heap the `k` nearest of the candidates seen so far |
| Neighbours.PushKeepsState | comparing_algorithms/edited_nearest_neighbors/src/edited_nearest_neighbors.cpp:46 | pushing a candidate while the heap holds fewer than `k` keeps it a nearest choice |
| Neighbours.PopKeepsState | comparing_algorithms/edited_nearest_neighbors/src/edited_nearest_neighbors.cpp:47-49 | popping the farthest entry of an overfull heap keeps it a nearest choice of `k` |
| Neighbours.HeapNearest | comparing_algorithms/edited_nearest_neighbors/src/edited_nearest_neighbors.cpp:42-51 | the heap ends with `min(k, n - 1)` distinct rows other than the query, none farther than a row left out |
| Neighbours.SortedNearest | edited_nearest_neighbors/src/edited_nearest_neighbors.cpp:28-52 | after the sort, positions `1..k` hold `k` distinct rows, position 0 holds a row at the least distance, and no chosen row is farther than a row left out |
| Neighbours.ReadPositions | edited_nearest_neighbors/src/edited_nearest_neighbors.cpp:46-49 | the copy loop reads sorted positions `1..k` |
| Neighbours.SortedTableFacts | edited_nearest_neighbors/src/edited_nearest_neighbors.cpp:36-49 | any ordering of the rows by non-decreasing distance skips a row at the least distance and returns `k` distinct nearest rows |
| Neighbours.QueryOnlyBesideDuplicate | edited_nearest_neighbors/src/edited_nearest_neighbors.cpp:36 | the query can be among the returned neighbours only when another row lies at distance 0 from it (the unstable sort put that row first) |
| Neighbours.CountSameAll | edited_nearest_neighbors/src/edited_nearest_neighbors.cpp:67-76 | all `k` neighbours share the label exactly when the same-label count equals their number |
| Neighbours.CountSameLabel | edited_nearest_neighbors/src/edited_nearest_neighbors.cpp:67-74 | the counting loop yields the number of neighbours carrying the given label |
| Neighbours.MajorityVoteIsStrictMajority | comparing_algorithms/edited_nearest_neighbors/src/edited_nearest_neighbors.cpp:64 | `same / k > 0.5` holds exactly when `k > 0` and twice the count exceeds `k`, dividing by `k` however many neighbours were found |
| Neighbours.UnanimousIsMajority | comparing_algorithms/edited_nearest_neighbors/src/edited_nearest_neighbors.cpp:64 | when all of at least one neighbour agree the vote passes |
| MajorityEditing.FindLeastMinorityClassOf | comparing_algorithms/edited_nearest_neighbors/src/edited_nearest_neighbors.cpp:3-23 | the label is counted per class and the lowest label with the minimum count is returned |
| MajorityEditing.SameAsMajorityInKNN | comparing_algorithms/edited_nearest_neighbors/src/edited_nearest_neighbors.cpp:37-65 | the neighbours are a nearest choice of `k` rows excluding the query, and the vote holds iff twice their same-label count exceeds `k > 0` |
| MajorityEditing.ExamineRow | comparing_algorithms/edited_nearest_neighbors/src/edited_nearest_neighbors.cpp:72-75 | a row is reserved iff it is of the least minority class or wins the neighbour vote |
| MajorityEditing.ReviewedStep | comparing_algorithms/edited_nearest_neighbors/src/edited_nearest_neighbors.cpp:72-76 | one iteration extends the reserve mask by the decision for the next row |
| MajorityEditing.ReviewedAll | comparing_algorithms/edited_nearest_neighbors/src/edited_nearest_neighbors.cpp:71-76 | after the loop the mask is the edit mask of all rows, every decision taken on the unmodified table |
| MajorityEditing.EditedNearestNeighbors | comparing_algorithms/edited_nearest_neighbors/src/edited_nearest_neighbors.cpp:67-83 | the result keeps exactly the reserved rows, in order; each decision used a nearest choice of neighbours in the original table |
| MajorityEditing.LeastClassKept | comparing_algorithms/edited_nearest_neighbors/src/edited_nearest_neighbors.cpp:71-76 | every row of the least minority class survives |
| MajorityEditing.ErasedLostTheVote | comparing_algorithms/edited_nearest_neighbors/src/edited_nearest_neighbors.cpp:73-80 | a row is erased iff it is not of the least minority class and its neighbours give no strict majority (or `k == 0`) |
| MajorityEditing.UnanimousRowSurvives | comparing_algorithms/edited_nearest_neighbors/src/edited_nearest_neighbors.cpp:73 | a row whose `k >= 1` neighbours all share its label survives |
| MajorityEditing.NoNeighboursKeepsLeastOnly | comparing_algorithms/edited_nearest_neighbors/src/edited_nearest_neighbors.cpp:64 | with `k == 0` only the least minority class survives, whole |
| UnanimousEditing.DistancesToFrom | edited_nearest_neighbors/src/edited_nearest_neighbors.cpp:16-26 | the distance table measures row-to-query as the heap variant measures query-to-row, by symmetry |
| UnanimousEditing.FindKNearestNeighbors | edited_nearest_neighbors/src/edited_nearest_neighbors.cpp:28-52 | the `k` positions returned come from some ordering by ascending distance, skipping its first entry |
| UnanimousEditing.QueryIsNeighbourOnlyBesideDuplicate | edited_nearest_neighbors/src/edited_nearest_neighbors.cpp:36 | if the query itself is returned as a neighbour, another row lies at distance 0 from it |
| UnanimousEditing.CopyAgreeing | edited_nearest_neighbors/src/edited_nearest_neighbors.cpp:58-81 | the copy loop keeps, in order, exactly the rows of the agreement mask, with neighbours found in the unmodified table |
| UnanimousEditing.CopiedStep | edited_nearest_neighbors/src/edited_nearest_neighbors.cpp:58-81 | one iteration appends the row exactly when the mask keeps it |
| UnanimousEditing.CopiedAll | edited_nearest_neighbors/src/edited_nearest_neighbors.cpp:56-82 | after the loop the output is the rows kept by the agreement mask |
| UnanimousEditing.SurvivorsFacts | edited_nearest_neighbors/src/edited_nearest_neighbors.cpp:60-63 | every survivor is an input row and every row of the least minority class survives |
| UnanimousEditing.SurvivorIffUnanimous | edited_nearest_neighbors/src/edited_nearest_neighbors.cpp:67-79 | a row of another class survives iff all `k` returned neighbours share its label |
| UnanimousEditing.UnanimousKeepsFewer | edited_nearest_neighbors/src/edited_nearest_neighbors.cpp:76-79 | with the same neighbours, a row kept by unanimity is also kept by the majority vote |
| UnanimousEditing.NoNeighboursKeepsAll | edited_nearest_neighbors/src/edited_nearest_neighbors.cpp:76-79 | with `k == 0` every row survives |
| UnanimousEditing.RefillRecord | edited_nearest_neighbors/src/edited_nearest_neighbors.cpp:82-84 | the training table is replaced and both count vectors are recounted from zero (the corrected reset of the Findings table), so the record stays consistent |
| UnanimousEditing.EditedNearestNeighbors | edited_nearest_neighbors/src/edited_nearest_neighbors.cpp:54-85 | the training table becomes the order-preserving subsequence of rows of the least minority class or with unanimous neighbours, and its counts are recomputed from zero (the corrected reset of the Findings table) |
| Prim.AreAllTrue | proposed/src/prim.cpp:74-86 | the answer is true exactly when every entry of the array is true |
| Prim.Relax | proposed/src/prim.cpp:32-47 | only unvisited vertices change; a vertex's key and parent move to the new vertex exactly when the edge weight is non-zero and below its key |
| Prim.SelectNearest | proposed/src/prim.cpp:50-58 | a vertex is found iff some unvisited key is below `FLT_MAX`; it is then an unvisited vertex of least key, the lowest index among ties |
| Prim.MarkAndRelax | proposed/src/prim.cpp:29-47 | marking the selected vertex visited and relaxing its edges keeps the loop invariant: tree shape, visit order, pending keys and the cut property |
| Prim.GreedyStep | proposed/src/prim.cpp:41-56 | the edge hanging each visited vertex is a lightest real edge leaving the vertices visited before it, after one more round |
| Prim.Start | proposed/src/prim.cpp:23-26 | vertex 0 starting with key 0 and parent 0, every other key `FLT_MAX`, satisfies the invariant and selects vertex 0 first |
| Prim.Init | proposed/src/prim.cpp:8-26 | the three arrays start as the loop invariant requires |
| Prim.Visit | proposed/src/prim.cpp:29-47 | one visit records the vertex's rank in the visit order and keeps the invariant |
| Prim.Round | proposed/src/prim.cpp:27-58 | one round either selects the next vertex with the invariant kept, or finds no unvisited key below `FLT_MAX`, in which case the visited vertices have no usable edge to the rest |
| Prim.MstEntryFacts | proposed/src/prim.cpp:62-69 | every output entry equals its mirror, and every non-zero entry is the input edge between a vertex and its parent |
| Prim.BuildMst | proposed/src/prim.cpp:61-71 | the output matrix holds exactly the parent edges, in both orientations, and zero elsewhere |
| Prim.SpanningFacts | proposed/src/prim.cpp:23-58 | once every vertex is visited the parent links form a tree rooted at 0 in which each edge is a lightest edge leaving the earlier vertices |
| Prim.LoopsCut | proposed/src/prim.cpp:27-58 | when the program would loop forever, vertex 0 is visited and no non-zero edge below `FLT_MAX` joins a visited to an unvisited vertex |
| Prim.RootPath | proposed/src/prim.cpp:41-45 | following parent links from any vertex reaches vertex 0 after `rank` steps |
| Prim.Finish | proposed/src/prim.cpp:60-71 | the finished parent links form a spanning tree of lightest edges and the output matrix encodes it |
| Prim.Prim | proposed/src/prim.cpp:6-72 | either the result is a symmetric matrix of a spanning tree whose every edge is a lightest edge leaving the vertices visited before it, or (the program's endless loop) the vertices reachable from 0 are cut off from the rest |
| Roulette.FirstReachFacts | comparing_algorithms/cluster_centroids/src/k_means_pp.cpp:27-32 | the scan finds the first index whose running total reaches the draw, or reports that none does |
| Roulette.SpinSlice | comparing_algorithms/cluster_centroids/src/k_means_pp.cpp:18-35 | a draw in (0, total] selects index `j` exactly when it falls in `j`'s slice (PrefixSum(j), PrefixSum(j+1)] |
| Roulette.SpinAvoidsZero | comparing_algorithms/cluster_centroids/src/k_means_pp.cpp:18-35 | a positive draw never selects an index of zero fitness |
| Roulette.RouletteWheelSelection | comparing_algorithms/cluster_centroids/src/k_means_pp.cpp:18-35 | the loop returns the first index whose running total reaches the draw, else the last index |
| Roulette.NormalisedSelection | proposed/src/k_means_pp.cpp:192-220 | the program stops when the total fitness is at most 0; otherwise subtracting `f[i] / total` selects what the unnormalised wheel selects for `u * total` |
| Roulette.NormalisedStep | proposed/src/k_means_pp.cpp:209-215 | after one subtraction the normalised rest is non-positive exactly when the scaled draw is reached |
| Roulette.ScanLoop | proposed/src/proposed.cpp:104-110 | the remover's scan stops at the first index reached, or runs to the wheel's length |
| Roulette.DrawWithoutReplacement | proposed/src/proposed.cpp:93-117 | the rounds succeed exactly when no scan overruns, and then flags and fitness are those of the round-by-round specification |
| Roulette.RoundsUnfold | proposed/src/proposed.cpp:99-116 | an overrunning round ends the rounds; a selection flags the index, zeroes its fitness and subtracts it from the total |
| Roulette.OneRound | proposed/src/proposed.cpp:104-115 | a draw in (0, 1) with a positive index left selects an unflagged index of positive fitness, and the total drops by exactly its fitness |
| Roulette.RoundsFlagDistinctPositives | proposed/src/proposed.cpp:93-117 | with at most as many rounds as positive fitnesses and draws in (0, 1) no scan overruns; each round flags a new index of positive fitness and earlier flags stay |
| Lloyd.FirstBelow | proposed/src/k_means_pp.cpp:42-52 | the scan from `FLT_MAX` moving on `<` ends at the lowest index of the least present value, or at 0 when none lies below `FLT_MAX` |
| Lloyd.NearestCentroid | proposed/src/k_means_pp.cpp:42-53 | the loop returns the nearest live centroid and its distance |
| Lloyd.NearestIsFirstClosest | proposed/src/k_means_pp.cpp:40-54 | the chosen centroid is live, no farther than any live centroid, and strictly nearer than every live centroid before it |
| Lloyd.AssignInPass | comparing_algorithms/cluster_centroids/src/k_means_pp.cpp:97-114 | every row is labelled with its nearest centroid and the error accumulates the squared nearest distance in the same pass |
| Lloyd.AssignNearest | proposed/src/k_means_pp.cpp:40-54 | every row is labelled with its nearest centroid |
| Lloyd.MeasureAssigned | proposed/src/k_means_pp.cpp:56-64 | the error is the sum of squared distances to the assigned centroids, computed before they move |
| Lloyd.SeparateErrorAgrees | proposed/src/k_means_pp.cpp:56-64 | measuring against the nearest-centroid labels gives the same error as the in-pass sum |
| Lloyd.AddMember | proposed/src/k_means_pp.cpp:78-81 | adding a member adds its features coordinate by coordinate |
| Lloyd.DivideSum | proposed/src/k_means_pp.cpp:84-90 | an empty cluster's centroid becomes NaN (`None`); otherwise the sum divided by the size |
| Lloyd.AccumulatedStep | proposed/src/k_means_pp.cpp:74-82 | adding a row raises its cluster's size by one and its coordinate sums by its features |
| Lloyd.UpdateCentroids | proposed/src/k_means_pp.cpp:66-90 | every centroid becomes the mean of its members' first `w` coordinates, or NaN for an empty cluster |
| Lloyd.SizesAddUp | proposed/src/k_means_pp.cpp:74-82 | the cluster sizes add up to the number of rows |
| Lloyd.SizePositiveIffMember | proposed/src/k_means_pp.cpp:74-82 | a cluster's size is positive exactly when some row is labelled with it |
| Lloyd.MeanLiveIffMember | proposed/src/k_means_pp.cpp:84-90 | a centroid stays a number exactly when its cluster has a member |
| Lloyd.PresentExactly | proposed/src/k_means_pp.cpp:111-117 | dropping NaN centroids keeps the live centroids, one per live cluster |
| Lloyd.DropEmpty | proposed/src/k_means_pp.cpp:111-117 | the back-to-front erase keeps exactly the live centroids, in cluster order |
| Lloyd.DropStep | proposed/src/k_means_pp.cpp:111-117 | one erase step keeps the suffix already filtered and the prefix untouched |
| Lloyd.Iterate | proposed/src/k_means_pp.cpp:37-109 | the do-while loop runs at least one and at most `max_iter + 1` rounds and keeps one centroid per cluster |
| Lloyd.StopsAfterOneRound | proposed/src/k_means_pp.cpp:104-109 | the loop ends after a round exactly when the round counter passes `max_iter` or the error fell by no more than the tolerance |
| Lloyd.RunEndsOnMeans | comparing_algorithms/cluster_centroids/src/k_means_pp.cpp:116-128 | the final centroids are the member means of a nearest-centroid labelling |
| Lloyd.IterateUnfold | comparing_algorithms/cluster_centroids/src/k_means_pp.cpp:96-135 | one round moves the centroids to the means and continues only while the counter allows it and the error fell by more than the tolerance |
| Seeding.PairFacts | proposed/src/k_means_pp.cpp:139-150 | the pairwise distance table is symmetric with a zero diagonal, non-negative, and agrees with the distance |
| Seeding.DistanceTable | proposed/src/k_means_pp.cpp:139-150 | the fill loop computes the upper triangle and mirrors it, giving the whole table |
| Seeding.FindDensest | proposed/src/k_means_pp.cpp:152-166 | the scan returns the row of least total distance |
| Seeding.DensestIsFirstLeast | proposed/src/k_means_pp.cpp:152-166 | the densest row has the least column total, and every earlier row a strictly larger one |
| Seeding.ComputeFitness | proposed/src/k_means_pp.cpp:171-181 | each row's fitness is its summed distance to the seeds chosen so far |
| Seeding.FitnessNonNegative | proposed/src/k_means_pp.cpp:171-181 | every fitness is non-negative |
| Seeding.FitnessZeroIff | proposed/src/k_means_pp.cpp:171-181 | a row's fitness is zero exactly when it lies at distance zero from every chosen seed |
| Seeding.TotalZeroIff | proposed/src/k_means_pp.cpp:195-200 | a non-negative fitness total is at most zero exactly when every fitness is zero |
| Seeding.AbortsIffAllAtSeeds | proposed/src/k_means_pp.cpp:195-200 | the roulette stops the program exactly when every row lies at distance zero from every chosen seed |
| BaselineKMeans.Seeds | comparing_algorithms/cluster_centroids/src/k_means_pp.cpp:37-76 | one seed per draw plus the first, the first being the given row, all of them rows of the table |
| BaselineKMeans.SelectInitCentroids | comparing_algorithms/cluster_centroids/src/k_means_pp.cpp:37-76 | the seeds are the first row and one roulette pick over summed distances per further centroid; the centroids copy those rows |
| BaselineKMeans.DrawnSeedIsNew | comparing_algorithms/cluster_centroids/src/k_means_pp.cpp:61-75 | a further seed drawn with a positive value up to the total lies at positive distance from some earlier seed |
| BaselineKMeans.KMeansPP | comparing_algorithms/cluster_centroids/src/k_means_pp.cpp:78-146 | the result is the live centroids of the Lloyd run from the seeds, in cluster order, at most `n_clusters` of them |
| ProposedKMeans.Seeds | proposed/src/k_means_pp.cpp:135-191 | when the seeding does not stop, it has one seed per draw plus the densest row first, all of them rows of the table |
| ProposedKMeans.SelectInitCentroids | proposed/src/k_means_pp.cpp:135-191 | the seeds are the densest row followed by one normalised roulette pick per further centroid, or the program stops |
| ProposedKMeans.SeedsStayAborted | proposed/src/k_means_pp.cpp:196-200 | once one draw stops the program, further draws do not resume it |
| ProposedKMeans.AbortIffNoSpread | proposed/src/k_means_pp.cpp:169-188 | the last draw stops the program exactly when every row lies at distance zero from every earlier seed |
| ProposedKMeans.KMeansPP | proposed/src/k_means_pp.cpp:9-120 | the result is `None` when the seeding stops; otherwise the live centroid rows of the Lloyd run (features moved, seed label kept), at most `n_clusters` |
| ClusterCentroids.GroupByClass | comparing_algorithms/cluster_centroids/src/cluster_centroids.cpp:23-33 | group `c` holds the rows of class `c` in their original order |
| ClusterCentroids.LabelCentroids | comparing_algorithms/cluster_centroids/src/cluster_centroids.cpp:39-41 | every centroid gets its class appended as label |
| ClusterCentroids.ClassRun | comparing_algorithms/cluster_centroids/src/cluster_centroids.cpp:37 | one class's centroids are the k-means++ result for its rows and the least class count |
| ClusterCentroids.Extend | comparing_algorithms/cluster_centroids/src/cluster_centroids.cpp:36-43 | one class iteration appends that class's labelled centroids to the output |
| ClusterCentroids.Resample | comparing_algorithms/cluster_centroids/src/cluster_centroids.cpp:16-44 | the new table stacks, for classes 1..n in order, the labelled centroids of each class's k-means++ run |
| ClusterCentroids.LeastCountFacts | comparing_algorithms/cluster_centroids/src/cluster_centroids.cpp:35 | the cluster count `m` is the count of some class 1..n and at most every class count |
| ClusterCentroids.CentroidsCount | comparing_algorithms/cluster_centroids/src/cluster_centroids.cpp:37 | a class with rows yields between 1 and `m` centroids |
| ClusterCentroids.RunKeepsLiveCentroid | comparing_algorithms/cluster_centroids/src/k_means_pp.cpp:96-143 | a Lloyd run over a non-empty class keeps at least one live centroid |
| ClusterCentroids.StackedCounts | comparing_algorithms/cluster_centroids/src/cluster_centroids.cpp:36-43 | the output holds as many rows of class `c` as `c`'s run has centroids, and none of other labels |
| ClusterCentroids.StackedSize | comparing_algorithms/cluster_centroids/src/cluster_centroids.cpp:37-42 | the output size lies between the number of classes and `n * m` |
| ClusterCentroids.StackedOrdered | comparing_algorithms/cluster_centroids/src/cluster_centroids.cpp:36-43 | the output labels lie in 1..n and ascend |
| ClusterCentroids.ResampledFacts | comparing_algorithms/cluster_centroids/src/cluster_centroids.cpp:35-43 | every class keeps between 1 and `m` rows, no other label occurs, the size lies in [n, n*m], and the output is grouped by ascending class |
| ProposedWeights.ISqrt | proposed/src/proposed.cpp:51-54 | the stored root is the integer square root: its square is at most the count and the next square exceeds it |
| ProposedWeights.ISqrtUnique | proposed/src/proposed.cpp:51-54 | any `r` with `r*r <= x < (r+1)*(r+1)` is that root, so truncating the float root gives it |
| ProposedWeights.ISqrtPositive | proposed/src/proposed.cpp:51-54 | a class with at least one row has a root of at least 1, so each query asks for at least one neighbour |
| ProposedWeights.SquareClassCounts | proposed/src/proposed.cpp:51-54 | entry 0 is copied and every entry `c >= 1` is replaced by its integer square root |
| ProposedWeights.RelMinorityOrder | proposed/src/proposed.cpp:31-44 | the strict `>` test is irreflexive and never holds both ways; with positive counts it compares `cm[b][a] * counts[b]` with `cm[a][b] * counts[a]` |
| ProposedWeights.CrossMultiply | proposed/src/proposed.cpp:34-38 | comparing two fractions with positive denominators is comparing the cross products |
| ProposedWeights.CreditNeighbours | proposed/src/proposed.cpp:69-78 | draining one query's heap raises a neighbour's count by one and its distance sum by its distance exactly when the query's class is a relative minority to the neighbour's |
| ProposedWeights.TalliedStep | proposed/src/proposed.cpp:56-79 | one query's credits extend the running counts and distance sums of the queries before it |
| ProposedWeights.TallyCredits | proposed/src/proposed.cpp:56-79 | every query's neighbours are its `isqrt(count)` nearest rows, itself a candidate, and the counts and sums are the credits of all queries |
| ProposedWeights.WeighRows | proposed/src/proposed.cpp:81-90 | a row's weight is 0 when its credited distance is 0, else its count over that distance times its class's root |
| ProposedWeights.SamplingWeights | proposed/src/proposed.cpp:46-91 | the weights are those of the credit specification for the neighbours the heaps found |
| ProposedWeights.NoSelfCredit | proposed/src/proposed.cpp:59-78 | a query never credits itself, though the heap does not exclude it, since a class is never a relative minority against itself |
| ProposedWeights.CreditDistanceFacts | proposed/src/proposed.cpp:69-78 | the credited distance is non-negative and positive only for a row credited at least once |
| ProposedWeights.CreditsOnlyFromRelativeMinorities | proposed/src/proposed.cpp:73-76 | a row no query class is a relative minority against receives no credit |
| ProposedWeights.WeightsSign | proposed/src/proposed.cpp:81-90 | every weight is non-negative, and positive exactly when the row's credited distance is |
| ProposedRemoval.RemovalCountFacts | proposed/src/proposed.cpp:165-168 | the removal count is the smaller of the candidate count and `trunc(size * (1 - macro_recall))`, so at most both; it is 0 at a macro recall of 1 |
| ProposedRemoval.TruesFlip | proposed/src/proposed.cpp:177-181 | erasing the flagged rows keeps the size minus the number of flags |
| ProposedRemoval.DrawAndErase | proposed/src/proposed.cpp:174-181 | drawing the rounds and erasing the flagged rows back to front gives the removal specification's result |
| ProposedRemoval.RemovalFacts | proposed/src/proposed.cpp:174-181 | with no more draws than positive weights, each in (0, 1), exactly one row per draw is flagged, each of positive weight, and the survivors are the unflagged rows in order |
| ProposedRemoval.Proposed | proposed/src/proposed.cpp:119-202 | the weights come from the nearest-neighbour credits, the removal count is the bounded candidate count, and the result is the removal of that many roulette draws |
| ProposedRemoval.ProposedRemovesCreditedRows | proposed/src/proposed.cpp:154-181 | the removal never overruns, removes exactly the counted number of rows, and every removed row was credited by some relative-minority query |
| ConfusionTally.TallyPredictions | proposed/src/validation.cpp:73-88 | the `{TP, FP, FN}` array filled by the prediction loop holds exactly the tally of the testing rows: a right prediction counts a true positive of its class, a wrong one a false positive of the predicted class and a false negative of the true class |
| ConfusionTally.Count | proposed/src/validation.cpp:79-87 | one comparison changes only the counters of the predicted and the true class, as the tally of one more row prescribes |
| ConfusionTally.TallyOfClass | proposed/src/validation.cpp:79-101 | for every class, true positives plus false negatives equal the class's row count, and true positives plus false positives equal the number of rows predicted as it |
| ConfusionTally.TalliesAddUp | proposed/src/validation.cpp:73-88 | summed over classes, true plus false positives equal the number of testing rows, and the false positives equal the false negatives |
| ConfusionTally.UnusedRowZero | proposed/src/validation.cpp:73-88 | the unused class slot 0 stays all zero when every label and prediction is a class 1..n |
| MacroMetrics.Ratio | proposed/src/validation.cpp:115-125 | a guarded ratio of counts `a <= b` lies in [0, 1], is 0 exactly when `a` is 0 and 1 exactly when `a == b` |
| MacroMetrics.Precision | proposed/src/validation.cpp:115-119 | the program's "precision" (true positives over the class's rows) lies in [0, 1], is 0 exactly without true positives, and 1 exactly when no row of the class is missed |
| MacroMetrics.Recall | proposed/src/validation.cpp:121-125 | the program's "recall" (true positives over the rows predicted as the class) lies in [0, 1], is 0 exactly without true positives, and 1 exactly when no false positive occurs |
| MacroMetrics.F1Between | proposed/src/validation.cpp:127-131 | the f1 score of two non-negative rates lies between their minimum and their maximum |
| MacroMetrics.MacroAverages | edited_nearest_neighbors/src/validation.cpp:54-92 | the class loop adds the rates of exactly the classes whose count is non-zero, multiplies their recalls, and divides by their number; `None` when no class takes part |
| MacroMetrics.ClassRates | edited_nearest_neighbors/src/validation.cpp:64-80 | the rates read off the tally array are the class's "precision", "recall" and f1 |
| MacroMetrics.AccumulatedBounds | proposed/src/validation.cpp:104-137 | the number of classes summed is the number of present classes; each running sum lies between 0 and that number; the recall product lies in [0, 1] |
| MacroMetrics.AveragesInUnit | proposed/src/validation.cpp:139-143 | averages exist exactly when some class is present, and then every average and the recall product lie in [0, 1] |
| MacroMetrics.PresentPositive | proposed/src/validation.cpp:104-113 | some class takes part exactly when some class count in 1..n is positive |
| ProposedValidation.CalculateAccuracies | proposed/src/validation.cpp:41-150 | the result is the macro average of the rates of the classes present in the testing set, computed from the tally and the testing class counts |
| ProposedValidation.AccuraciesFacts | proposed/src/validation.cpp:91-143 | averages exist exactly for a non-empty testing set and lie in [0, 1]; a class takes part exactly when its true positives and false negatives are not both 0 |
| ProposedValidation.PerfectTally | proposed/src/validation.cpp:73-88 | predicting every label right leaves each class with only true positives, one per row of the class |
| ProposedValidation.PerfectScores | proposed/src/validation.cpp:104-143 | a tree that labels every testing row right scores 1 on every average and on the recall product |
| EnnValidation.Validation | edited_nearest_neighbors/src/validation.cpp:7-94 | the averages are those of the tally of the testing rows (all zero for a model type other than "decision_tree") over the classes whose stored testing count is non-zero |
| EnnValidation.ValidationFacts | edited_nearest_neighbors/src/validation.cpp:54-92 | with the stored testing counts, a tree's averages exist exactly for a non-empty testing set and lie in [0, 1] |
| EnnValidation.OtherModelScoresZero | edited_nearest_neighbors/src/validation.cpp:28-92 | for another model type every average and the recall product are 0 whenever some class is present |
| MatrixValidation.FillMatrix | src/validation.cpp:26-39 | cell `[p][a]` of the matrix counts the testing rows of class `a` predicted as `p` |
| MatrixValidation.MatrixTotalIsSize | src/validation.cpp:26-39 | with every label and prediction a class 1..n, each testing row falls in exactly one cell, so the cells add up to the number of testing rows |
| MatrixValidation.ReadCounts | src/validation.cpp:42-58 | TP is the diagonal cell, FP the rest of the class's row, FN the rest of its column, TN the other classes' diagonal cells |
| MatrixValidation.DiagonalSplit | src/validation.cpp:44-50 | a class's "TN", the other classes' diagonal cells, plus its own diagonal cell is the sum of every class's true positives |
| MatrixValidation.MatrixIsTally | src/validation.cpp:42-58 | the diagonal, off-row and off-column counts of a class equal its true positives, false positives and false negatives of the `{TP, FP, FN}` tally |
| MatrixValidation.ReadTally | src/validation.cpp:42-60 | the counts read for a class are its tally entry, and `TP + FN > 0` holds exactly when the class occurs in the testing set |
| MatrixValidation.Discovery | src/validation.cpp:78-82 | the false discovery rate lies in [0, 1] |
| MatrixValidation.Omission | src/validation.cpp:84-88 | the false omission rate lies in [0, 1] |
| MatrixValidation.DiscoveryComplementsRecall | src/validation.cpp:66-82 | for a class predicted at least once, false discovery rate plus "recall" is 1 |
| MatrixValidation.MisreadCells | src/validation.cpp:61-88 | on two rows of class 1 both predicted right, the metric block as written reads cells that give class 1 every rate 0, where its counts give "precision", "recall" and f1 of 1 |
| MatrixValidation.RateListsFacts | src/validation.cpp:90-96 | one false discovery and one false omission rate is pushed per present class, each in [0, 1] |
| MatrixValidation.NoTestingClasses | src/validation.cpp:99-102 | on a non-empty testing set the averages as written divide by a class counter that stayed 0, while dividing by the classes that took part gives averages |
| MatrixValidation.CalcAccForDecisionTree | src/validation.cpp:8-105 | with the counts read as intended, the averages equal the macro averages of the present classes, and the rate lists hold each present class's false discovery and false omission rate in class order |
| MatrixValidation.ClassStep | src/validation.cpp:42-96 | one pass of the class loop adds the class's rates and pushes its two error rates exactly when the class occurs in the testing set |
| MatrixValidation.Validation | src/validation.cpp:107-122 | a result exists exactly for the model type "decision_tree", and it is the evaluation of the tree's predictions |
| FileOps.LabelExists | src/file_operations.cpp:3-12 | the scan answers true exactly when the label is already in the list |
| FileOps.DistinctCardinality | proposed/src/file_operations.cpp:59-72 | a list that only ever receives labels it does not yet hold has as many entries as distinct values |
| FileOps.GetNumClasses | src/file_operations.cpp:14-26 | the number of classes is the number of distinct labels of the training table |
| FileOps.RunMaxBounds | src/file_operations.cpp:57-66 | the running maximum is at least its start and every value scanned, and is the start or one of those values |
| FileOps.RunMinBounds | src/file_operations.cpp:57-66 | the running minimum is at most its start and every value scanned, and is the start or one of those values |
| FileOps.RunMaxAppend | src/file_operations.cpp:57-77 | scanning the training column and then the testing column is one scan over both |
| FileOps.RunMinAppend | src/file_operations.cpp:57-77 | the same holds for the running minimum |
| FileOps.ScaleInUnit | src/file_operations.cpp:79-96 | a value between the bounds is rescaled into [0, 1] |
| FileOps.BoundsEnclose | src/file_operations.cpp:57-77 | the bounds found enclose every value of the column in both tables, for either way of starting them |
| FileOps.NormalizedInUnit | src/file_operations.cpp:51-98 | after normalisation every feature of both tables lies in [0, 1], and a column whose bounds coincide is 0 throughout |
| FileOps.FirstRowStartReachesBounds | edited_nearest_neighbors/src/file_operations.cpp:71-95 | starting from the first training row, both bounds are values that actually occur in the column |
| FileOps.ZeroStartMissesNegativeMaximum | proposed/src/file_operations.cpp:76-128 | starting the maximum at 0, the all-negative column -2, -1 gets the bound 0 and its largest value is scaled to 0.5, not 1 |
| FileOps.ColumnBounds | src/file_operations.cpp:57-77 | the two scan loops compute exactly the bounds of the column over the training rows followed by the testing rows |
| FileOps.RescaleColumn | src/file_operations.cpp:79-96 | column `d` of every row is replaced by its rescaled value; every other feature, the label and the row order stay |
| FileOps.NormalizeTables | src/file_operations.cpp:51-98 | both tables become their normalised forms, each column rescaled with the bounds of the original tables |
| FileOps.ReadTrainingAndTestingSet | src/file_operations.cpp:100-110 | the number of classes is the number of distinct training labels and both tables are normalised with the maximum starting at 0 and the minimum at `FLT_MAX` |
| DatasetInfo.TallyOnto | edited_nearest_neighbors/src/file_operations.cpp:50-62 | the counting loop adds one to the entry of each row's label and nothing else |
| DatasetInfo.TalliedZeros | edited_nearest_neighbors/src/file_operations.cpp:43-62 | counting onto a fresh zeroed vector gives the class counts of the table |
| DatasetInfo.ResetIntendedRecounts | edited_nearest_neighbors/src/file_operations.cpp:45-54 | clearing all `n + 1` counters before the recount gives the class counts |
| DatasetInfo.ResetAsWrittenKeepsLastCount | edited_nearest_neighbors/src/file_operations.cpp:47 | with two or more classes, the `memset` as written leaves the last class's old count, and the recount adds onto it |
| DatasetInfo.ResetAsWrittenCounterexample | edited_nearest_neighbors/src/file_operations.cpp:45-54 | old counts 5 and 7 and a new table with one row of class 1 and three of class 2 recount to 1 and 10 instead of 1 and 3 |
| DatasetInfo.Dataset.GetDatasetInfo | edited_nearest_neighbors/src/file_operations.cpp:15-65 | fails without change exactly when the first rows of the two tables differ in width; otherwise sets the dimension and label column, finds the number of classes (or keeps it on update), and both count vectors become the class counts; on update this uses the corrected full reset of the Findings table, not the partial `memset` at line 47 |
| DatasetInfo.Dataset.Normalize | edited_nearest_neighbors/src/file_operations.cpp:67-120 | both tables become their min-max normalised forms with bounds starting at the first training row; counts and sizes stay |
| DatasetInfo.LoadDataset | edited_nearest_neighbors/src/file_operations.cpp:122-179 | a record read from two tables of one width holds the distinct-label count, both class-count vectors and the normalised tables |
| Gini.ImpurityAtMostOne | random_under_sampling/src/decision_tree_classifier.cpp:29-43 | a side's impurity, 1 minus its squared class shares (1 for an empty side), never exceeds 1 |
| Gini.ImpurityNonNegative | random_under_sampling/src/decision_tree_classifier.cpp:29-43 | a side whose class counts add up to its size has impurity at least 0 |
| Gini.WeightedGiniBounds | random_under_sampling/src/decision_tree_classifier.cpp:45-46 | the weighted score of a split is at most 1, and lies in [0, 1) when each side's counts add up to its size |
| Gini.WeightedAverageBounds | src/decision_tree_classifier.cpp:37-38 | the two side weights add up to 1, so the score lies between the bounds of the two impurities |
| Gini.PureSideHasZeroImpurity | src/decision_tree_classifier.cpp:10-23 | a side holding rows of a single class has impurity 0 |
| Gini.ZeroImpurityIsPure | src/decision_tree_classifier.cpp:10-23 | conversely, a non-empty side whose class counts add up to its size has impurity 0 only when one class holds all its rows and every other count is 0 |
| Gini.ImpurityBelowOne | src/decision_tree_classifier.cpp:10-23 | a non-empty side whose class counts add up to its size has impurity below 1 |
| TreeSpec.MajorityFirstMax | edited_nearest_neighbors/src/decision_tree_classifier.cpp:122-129 | the strict-`<` majority scan ends on the first class with the largest count from where it starts |
| TreeSpec.MajorityInRange | random_under_sampling/src/decision_tree_classifier.cpp:119-125 | the majority is a valid index of the count vector, and at least 1 when the scan starts at class 1 |
| TreeSpec.MajorityIsLowestMax | src/decision_tree_classifier.cpp:145-148 | the majority has the largest count among the classes scanned and every earlier class has a strictly smaller count |
| TreeSpec.SplitSizes | random_under_sampling/src/decision_tree_classifier.cpp:154-166 | the two sides of a split partition the node's rows: sizes add up, every row goes to the side its value dictates, and each side holds only such rows of the node |
| TreeSpec.BestSplitFeature | random_under_sampling/src/decision_tree_classifier.cpp:134-145 | the split a node takes names a feature below the dimension |
| TreeSpec.FeatureBestFeature | random_under_sampling/src/decision_tree_classifier.cpp:73 | a feature's best split point names that feature |
| TreeFacts.ScanFromOutcome | random_under_sampling/src/decision_tree_classifier.cpp:74-102 | the scan over one feature's candidates returns a score no larger than any candidate's and the start, and keeps the first minimum (`<`) or the last (`<=`) |
| TreeFacts.CandidateIffNotConstant | random_under_sampling/src/decision_tree_classifier.cpp:74-77 | a feature offers a candidate midpoint exactly when it takes two distinct values on the node |
| TreeFacts.CandidateSplitsBothWays | random_under_sampling/src/decision_tree_classifier.cpp:79-94 | splitting at a candidate midpoint leaves rows on both sides |
| TreeFacts.ConstantSplitsOneWay | random_under_sampling/src/decision_tree_classifier.cpp:154-166 | on a feature constant on the node, any threshold sends every row to one side |
| TreeFacts.ScoreBounds | random_under_sampling/src/decision_tree_classifier.cpp:3-47 | the score of any split is at most 1, and lies in [0, 1) when labels are classes 1..n |
| TreeFacts.FeatureBestIsMinimum | random_under_sampling/src/decision_tree_classifier.cpp:49-104 | a feature's best split has the lowest score of its candidates, is a candidate midpoint with that score and the variant's tie rule, or is the default value with score 1.1 when there is no candidate |
| TreeFacts.FeatureBestSplits | random_under_sampling/src/decision_tree_classifier.cpp:49-104 | a feature's best score is below 1.1 exactly when the feature varies on the node, and then its split leaves rows on both sides |
| TreeFacts.AcrossFromOutcome | random_under_sampling/src/decision_tree_classifier.cpp:139-145 | the scan over features keeps a score no larger than each feature's best, with the first (`>`) or last (`>=`) feature winning ties |
| TreeFacts.BestSplitIsMinimum | random_under_sampling/src/decision_tree_classifier.cpp:134-145 | the node's split has the lowest score over all features and is the winning feature's best, or the initial split point when no feature beats 1.1 |
| TreeFacts.SplitProperIff | random_under_sampling/src/decision_tree_classifier.cpp:134-166 | the chosen split leaves rows on both sides exactly when some feature varies on the node |
| TreeFacts.UniformNodeIsPure | random_under_sampling/src/decision_tree_classifier.cpp:119-132 | on data without contradictory duplicates, a node on which no feature varies has all its rows in the majority class, so it is a leaf under purity 1 |
| TreeFacts.BuildFinishes | random_under_sampling/src/decision_tree_classifier.cpp:106-202 | on data without contradictory duplicates and with purity at most 1, growth from any partition finishes |
| TreeFacts.PredictionIsLeafLabel | random_under_sampling/src/decision_tree_classifier.cpp:228-243 | a prediction is the label of some leaf, so it lies in the leaves' label range |
| TreeFacts.MajorityIsALabel | edited_nearest_neighbors/src/decision_tree_classifier.cpp:122-129 | on a non-empty node with labels 1..n the majority is a class 1..n |
| TreeFacts.LeafParts | random_under_sampling/src/decision_tree_classifier.cpp:127-132 | a leaf carries the node's majority class and the node meets the stopping condition |
| TreeFacts.NodeParts | random_under_sampling/src/decision_tree_classifier.cpp:147-201 | an inner node's children are the trees grown from its two non-empty, strictly smaller sides, and each row of the node lies on the side its value selects |
| TreeFacts.NodePredict | random_under_sampling/src/decision_tree_classifier.cpp:235-242 | at an inner node the prediction is the left child's when the sample's split feature is at most the split value, else the right child's |
| TreeFacts.BuildReachesLeaves | random_under_sampling/src/decision_tree_classifier.cpp:106-202 | a finished tree splits only on features below the dimension, its leaves carry classes 1..n, and every row of the partition reaches a leaf |
| TreeFacts.PureLeaf | random_under_sampling/src/decision_tree_classifier.cpp:128 | when the majority share of a node reaches a purity of 1, every row of the node has the majority label |
| TreeFacts.BuildFitsTrainingRows | random_under_sampling/src/decision_tree_classifier.cpp:106-202 | with purity 1 and no minimum split size, on data without contradictory duplicates, the tree predicts every training row's own label |
| TreeFacts.GrowFitsConsistentData | random_under_sampling/src/decision_tree_classifier.cpp:204-226 | a tree grown to purity 1 from data without contradictory duplicates finishes and classifies every training row correctly |
| TreeFacts.GrowReachesLeaves | random_under_sampling/src/decision_tree_classifier.cpp:204-243 | a finished tree uses valid features, has leaf labels 1..n and gives every training row a prediction; growth finishes on data without contradictory duplicates and purity at most 1 |
| TreeLoops.SubtractSquaredShares | random_under_sampling/src/decision_tree_classifier.cpp:29-43 | the `gini -= ratio * ratio` loop computes the side's impurity |
| TreeLoops.GatherMembers | random_under_sampling/src/decision_tree_classifier.cpp:219-220 | the rows a mask marks are the rows of the partition it stands for, as many as it has marks |
| TreeLoops.MaskedCounts | random_under_sampling/src/decision_tree_classifier.cpp:108-116 | counting the labels of the marked rows gives the class counts of the partition |
| TreeLoops.SideMaskMembers | random_under_sampling/src/decision_tree_classifier.cpp:148-166 | the side masks stand for the two sides of the partition at the threshold |
| TreeLoops.MembersNonEmpty | random_under_sampling/src/decision_tree_classifier.cpp:160-164 | a side is non-empty exactly when its mask marks some row |
| MaskTree.TallySides | random_under_sampling/src/decision_tree_classifier.cpp:5-20 | the two count vectors are the class counts of the rows marked "yes" and of those marked "no" but not "yes" |
| MaskTree.SumOverClasses | random_under_sampling/src/decision_tree_classifier.cpp:22-27 | summing the counts of classes 1..n gives the number of rows counted |
| MaskTree.CalculateGini | random_under_sampling/src/decision_tree_classifier.cpp:3-47 | the score is the weighted Gini impurity of the two marked sides |
| MaskTree.SideMaskScore | random_under_sampling/src/decision_tree_classifier.cpp:81-96 | scoring the two side masks gives the score of splitting the partition at the midpoint |
| MaskTree.SelectFeature | random_under_sampling/src/decision_tree_classifier.cpp:51-69 | the gathered values are the feature's values on the partition, in row order |
| MaskTree.SplitMasks | random_under_sampling/src/decision_tree_classifier.cpp:81-94 | the two masks mark the partition's rows at most and above the threshold |
| MaskTree.EvaluateSplitPoint | random_under_sampling/src/decision_tree_classifier.cpp:49-104 | the result is the feature's best split with a later candidate winning ties and default value 0 |
| MaskTree.TryCandidate | random_under_sampling/src/decision_tree_classifier.cpp:74-101 | one pass of the candidate loop advances the scan by one sorted position |
| MaskTree.TallyMasked | random_under_sampling/src/decision_tree_classifier.cpp:108-116 | the count vector is the class counts of the partition |
| MaskTree.MajorityAndSize | random_under_sampling/src/decision_tree_classifier.cpp:119-125 | the loop yields the first largest count from class 1 and the partition size |
| MaskTree.BestOverFeatures | random_under_sampling/src/decision_tree_classifier.cpp:134-145 | the node's split is the best over all features, a later feature winning ties |
| MaskTree.PartitionMasks | random_under_sampling/src/decision_tree_classifier.cpp:147-166 | the masks mark the two sides and each flag says whether its side is non-empty |
| MaskTree.FindBestSplitPoint | random_under_sampling/src/decision_tree_classifier.cpp:106-202 | the subtree grown from a partition is the specified tree for this variant, or `Loops` where the recursion does not end |
| MaskTree.SplitNode | random_under_sampling/src/decision_tree_classifier.cpp:134-201 | a node that does not stop is split and its children grown as specified |
| MaskTree.CreateDecisionTree | random_under_sampling/src/decision_tree_classifier.cpp:204-226 | the tree grown from all training rows is the specified tree for this variant |
| ProposedTree.CreateDecisionTree | proposed/src/decision_tree_classifier.cpp:9-40 | the proposed tree is the masked tree with purity 0.95; it finishes on data without contradictory duplicates, uses valid features and leaf labels 1..n, and gives every training row a prediction |
| IndexTree.CountClasses | edited_nearest_neighbors/src/decision_tree_classifier.cpp:113-120 | the count vector is the class counts of the index list |
| IndexTree.CalculateGini | edited_nearest_neighbors/src/decision_tree_classifier.cpp:3-47 | the score is the weighted Gini impurity of the two index lists |
| IndexTree.SelectFeature | edited_nearest_neighbors/src/decision_tree_classifier.cpp:53-58 | the gathered values are the feature's values on the index list, in its order |
| IndexTree.SplitIndices | edited_nearest_neighbors/src/decision_tree_classifier.cpp:74-87 | the two lists hold the indices at most and above the threshold, in order |
| IndexTree.EvaluateSplitPoint | edited_nearest_neighbors/src/decision_tree_classifier.cpp:49-98 | the result is the feature's best split with an earlier candidate winning ties |
| IndexTree.TryCandidate | edited_nearest_neighbors/src/decision_tree_classifier.cpp:67-94 | one pass of the candidate loop advances the scan by one sorted position |
| IndexTree.BestOverFeatures | edited_nearest_neighbors/src/decision_tree_classifier.cpp:150-166 | the node's split is the best over all features, an earlier feature winning ties |
| IndexTree.MajorityClass | edited_nearest_neighbors/src/decision_tree_classifier.cpp:122-129 | the majority is the first class 1..n with the largest count |
| IndexTree.FindBestSplitPoint | edited_nearest_neighbors/src/decision_tree_classifier.cpp:100-212 | the subtree grown from an index list is the specified tree for this variant, or `Loops` |
| IndexTree.SplitNode | edited_nearest_neighbors/src/decision_tree_classifier.cpp:150-211 | a node that does not stop is split and its children grown as specified |
| IndexTree.CreateDecisionTree | edited_nearest_neighbors/src/decision_tree_classifier.cpp:214-234 | the tree is the specified tree for this variant; it finishes on data without contradictory duplicates under purity at most 1, with valid features and leaf labels 1..n |
| EntryTable.ColumnEntries | src/decision_tree_classifier.cpp:230-241 | every entry of a feature's table carries a row index, that row's value and its label |
| EntryTable.VisitFacts | src/decision_tree_classifier.cpp:52-74 | walking a sorted table over the rows of a mask visits a permutation of the partition, and the values met are the partition's values sorted |
| EntryTable.PartCountsPermutation | src/decision_tree_classifier.cpp:137-143 | the class counts of a partition do not depend on the order its rows are visited in |
| EntryTable.SidesPermutation | src/decision_tree_classifier.cpp:172-186 | the sides of a split have the same sizes and class counts whatever order the partition is visited in |
| EntryTable.BelowSortedPrefix | src/decision_tree_classifier.cpp:81-122 | in value order, the rows at most a threshold are a prefix of the visit |
| EntryTable.MidpointSeparates | src/decision_tree_classifier.cpp:125-126 | the midpoint of two adjacent distinct sorted values separates the values before from those after |
| EntryTable.SweepScore | src/decision_tree_classifier.cpp:81-122 | the score of a candidate midpoint equals the weighted Gini of the visit's prefix and suffix at that position |
| SweepTree.RunSize | src/decision_tree_classifier.cpp:52-74 | a run's class counts add up to its length |
| SweepTree.CandidateRuns | src/decision_tree_classifier.cpp:81-122 | the score of the k-th candidate is the weighted Gini of the first k visited rows against the rest |
| SweepTree.CalculateGini | src/decision_tree_classifier.cpp:6-39 | the score is the weighted Gini impurity of the two count vectors and sizes |
| SweepTree.FirstEntry | src/decision_tree_classifier.cpp:52-74 | the first row of the partition starts side "yes" and all others side "no" |
| SweepTree.MoveEntry | src/decision_tree_classifier.cpp:84-121 | moving one row from "no" to "yes" keeps both sides' counts equal to the runs and the best so far equal to the scan over the candidates passed |
| SweepTree.NextRun | src/decision_tree_classifier.cpp:81-122 | one pass of the outer loop advances to the next value and keeps the sweep invariant |
| SweepTree.SweepColumn | src/decision_tree_classifier.cpp:41-129 | the sweep ends on the specified best split of the feature |
| SweepTree.EvaluateSplitPoint | src/decision_tree_classifier.cpp:41-129 | the result is the feature's best split with an earlier candidate winning ties and, without candidates, the feature's smallest training value |
| SweepTree.PartitionSize | src/decision_tree_classifier.cpp:133-134 | the size is the number of marked rows |
| SweepTree.PartitionCounts | src/decision_tree_classifier.cpp:137-143 | counting through the first table gives the class counts of the partition |
| SweepTree.MaxElement | src/decision_tree_classifier.cpp:145-148 | the majority is the first largest count, label 0 included |
| SweepTree.BestOverFeatures | src/decision_tree_classifier.cpp:157-163 | the node's split is the best over all features, a later feature winning ties |
| SweepTree.PartitionByTable | src/decision_tree_classifier.cpp:172-186 | walking the split feature's table yields the two side masks and whether each side is non-empty |
| SweepTree.FindBestSplitPoint | src/decision_tree_classifier.cpp:131-214 | the subtree grown from a mask is the specified tree for this variant, or `Loops` |
| SweepTree.SplitNode | src/decision_tree_classifier.cpp:155-213 | a node that does not stop is split and its children grown as specified |
| SweepTree.FillEntries | src/decision_tree_classifier.cpp:234-238 | a feature's entries tag every row with its index, value and label |
| SweepTree.BuildTables | src/decision_tree_classifier.cpp:230-241 | every feature gets a table of all rows sorted by value |
| SweepTree.CreateDecisionTree | src/decision_tree_classifier.cpp:216-247 | the tree is the specified tree for this variant; it finishes on data without contradictory duplicates under purity at most 1, with valid features and leaf labels 1..n |

## Left out

- Floating point: `float` is a real and `uint32_t`/`size_t` a natural number. Rounding, overflow and wrap-around (such as a `++n_iter` that wraps when `max_iter` is the largest `uint32_t`) are not modelled. NaN appears only as the `None` centroid of an empty cluster in `Lloyd`.
- Square roots: `sqrt` inside the Euclidean distance is not modelled; the distance is a parameter that is non-negative, symmetric and zero on equal vectors. `pow(g_mean, 1 / k)` is not taken either: `gProduct` holds the product of the recalls whose root the programs report.
- Randomness: `std::random_device`, `mt19937`, `shuffle` and the time seeds are replaced by explicit inputs (a permutation per class, a draw per roulette spin). Nothing is said about distributions.
- Roulette: the scans run in exact arithmetic. The float rounding that decides where a draw close to a boundary lands is not modelled.
- Input and output: reading and parsing the data files (`ReadDataset`), opening files, `printf`/`std::cout` diagnostics, the `DEBUG`/`PDEBUG`/`FDEBUG`/`SHOW_TREE` blocks, `exit(1)` on errors and the experiment drivers (`main.cpp`, timing with `clock_gettime`) are not modelled.
- Memory: `new`/`delete`, `malloc`/`calloc`, `bad_alloc` handling and leaked masks and trees are not modelled. A tree is an immutable datatype value rather than linked heap nodes, and a table is a sequence of rows that a method returns (or a field of the `Dataset` class) rather than a vector erased or rewritten in place; aliasing between tables is therefore not captured.
- A tree whose recursion would never end (a node that is neither small nor pure and on which no feature varies) is the outcome `Loops`; the stack overflow it causes in the program is not modelled.
- Ties: which of several equally distant rows a heap or `std::sort` keeps is not fixed by the programs; every contract holds for any such choice. `SweepTree` is proved for every value-sorted table, and `SweepTree.BuildTables` builds one particular such table.
- Row indices and labels stored as floats in the tables of `src/decision_tree_classifier.cpp` are exact only below 2^24; the model stores them as naturals.
- proposed/src/minimum_spanning_tree.cpp is not part of this model: it does not compile and `prim.cpp` supersedes it.
- The header files only declare types; they appear here as datatypes. Their signatures that disagree with the definitions are not modelled.
- ProposedRemoval.Proposed: the confusion matrix and the macro recall of the tree's validation on its own training table are inputs, not a call of the tree and validation code. Its `k` argument and its `macro_error_rate`, which the program computes but never uses, are left out.
- ProposedWeights.RelMinority: the program divides by class counts without a guard; in the model the test is false when either count is 0, a case that does not arise for the classes of actual rows, the only ones it is asked about.
- The validations take the tree's predictions for the testing rows as an input; `PredictByDecisionTree` is `TreeSpec.Predict`, and the composition with `CreateDecisionTree` inside `Validation` is not spelt out.
- For a model type other than "decision_tree", `Validation` in `src/validation.cpp` returns a record it never filled in; `MatrixValidation.Validation` returns `None` there. The proposed program's own `Validation` wrapper is not modelled separately; `ProposedValidation.CalculateAccuracies` does its work.
- Preconditions exclude inputs on which the programs read outside a vector: an empty table (the programs read the width of row 0), `k` at least the table size in the unanimous edited nearest neighbours, and a label outside 1..n.
- UnanimousEditing.EditedNearestNeighbors, RebuildUnderSampling.RandomUnderSampling, ClusterCentroids.Resample: they require every class 1..n to have a row, as `GetDatasetInfo` guarantees when the labels are 1..n. With an empty class the cluster-centroids program would run k-means++ with k = 0 on no rows, which the model does not cover.
- MatrixValidation.CalcAccForDecisionTree: it computes the rates from the counts TP, FP, FN and TN as read, and divides the averages by the number of classes present. The program indexes cells by those counts and divides by a class number that stays 0; `MatrixValidation.MisreadCells` and `MatrixValidation.NoTestingClasses` state that behaviour (see the Findings table).
- DatasetInfo.Dataset.GetDatasetInfo: on update it recounts both vectors from a full reset. The program clears only `num_classes + 8` bytes at edited_nearest_neighbors/src/file_operations.cpp:47, so every counter that starts past those bytes keeps its old value and the recount adds onto it; with two or more classes the last class's counter is one of them. `DatasetInfo.ResetAsWrittenKeepsLastCount` and `DatasetInfo.ResetAsWrittenCounterexample` state that behaviour; the record methods do not follow it.
- UnanimousEditing.RefillRecord: its recount uses the corrected full reset, not the partial `memset` of the program's `GetDatasetInfo(dataset, true)`, so the counts it promises are the intended ones, not the stale ones the program leaves.
- UnanimousEditing.EditedNearestNeighbors: the counts after the refill are the intended recount, for the same reason as `UnanimousEditing.RefillRecord`.
- RebuildUnderSampling.RefillRecord: its recount uses the corrected full reset, not the partial `memset`. random_under_sampling/src/file_operations.cpp is not part of this model; the model assumes that program's `GetDatasetInfo` matches the edited nearest neighbours one, including its update path.
- RebuildUnderSampling.RandomUnderSampling: its training counts are the intended recount of the rebuilt table, for the same reasons as `RebuildUnderSampling.RefillRecord`.
- Lloyd.DropEmpty: a centroid counts as NaN when its cluster is empty, that is, when every averaged coordinate is NaN. The programs test only coordinate 0. The two tests agree whenever coordinate 0 is averaged. The proposed program averages only the first `size() - 1` columns, so on rows with no feature its coordinate 0 is the seed row's label, which is never NaN, and it never erases a centroid. The model does not cover that case.

## Findings

| source | as written | input that shows it | evidently intended | confidence | as-written member | corrected member |
|---|---|---|---|---|---|---|
| edited_nearest_neighbors/src/file_operations.cpp:47 | the update-mode `memset` clears `num_classes + 1 * sizeof(size_t)` bytes, which is `num_classes + 8` bytes, not every counter | two classes with old counts 5 and 7, and a new table with one row of class 1 and three of class 2: the recount gives 1 and 10 | clear all `num_classes + 1` counters, so the recount gives 1 and 3 | not executed | DatasetInfo.ResetAsWrittenCounterexample | DatasetInfo.ResetIntendedRecounts |
| src/validation.cpp:61-88 | the metric block reads `confusion_matrix[class_idx][TP]` and similar cells while the index constants are commented out, so the counts themselves serve as column indices | two testing rows of class 1, both predicted as class 1, with two classes: the cells read give class 1 every rate 0 | compute the rates from the counts TP, FP, FN and TN just read, which give "precision", "recall" and f1 of 1 | not executed | MatrixValidation.MisreadCells | MatrixValidation.CalcAccForDecisionTree |
| src/validation.cpp:99-102 | the averages divide by `n_testing_classes`, which starts at 0 and is never incremented | any non-empty testing set | divide by the number of classes that took part | not executed | MatrixValidation.NoTestingClasses | MatrixValidation.CalcAccForDecisionTree |
