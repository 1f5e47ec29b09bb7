# Matrix offset matcher: KD-tree and matching pass in Dafny

This project models the computational core of a Unity program that looks
for a "model" set of 4x4 transform matrices inside a "space" set. The
translation column (m03, m13, m23) of each matrix is taken as a 3-D
position. The space positions go into a KD-tree. Then, for every model
position, every integer offset of the cube [-maxOffset, maxOffset]^3 is
tried: the tree gives the nearest space point to the shifted position, and
a match is recorded when that point is not the zero vector and lies
strictly within the tolerance on every axis. Afterwards the model
matrices whose position never matched are counted.

The modules follow the program's files:

- `Vectors` (vectors.dfy): the Vector3/Vector2 values, the axis indexer,
  squared distance, Mathf.Abs and float.CompareTo.
- `Matrices` (matrices.dfy): `Matrix`, `OptimizedMatrix`, the position
  projection and the copying constructor.
- `Serialization` (serialization.dfy): `SerializableVector3`.
- `Comparers` (comparers.dfy): `AxisComparer`.
- `Loading` (loading.dfy): `MatrixLoader.ConvertToOptimizedMatrices`.
- `Spawning` (spawning.dfy): `EntitySpawnFactory` and its chess-order
  spawn position, with `DefaultEntity`'s constant size.
- `KdNodes` (kd_node.dfy): the `KDNode` class, with the subtree's value
  as a ghost `Tree` and its nodes as a ghost `Repr`.
- `SortedLists` (sorted_list.dfy): the `SortedList<float, Vector3>` with
  `DuplicateKeyComparer` that the k-nearest query keeps.
- `Selection` (selection.dfy): facts about rearranging a slice of the
  point array, used by Partition, QuickSelect and BuildTree.
- `CandidateLists` (k_nearest.dfy): the k-nearest search as a function on
  values, and the proof that it lists k nearest points.
- `KdTrees` (kd_tree.dfy): the `KDTree` class. It has the in-place build
  (Lomuto partition, quickselect, recursive build), the nearest-neighbour
  query and the k-nearest query.
- `Matching` (matching.dfy): the `MatrixVisualizer` pass. The matches it
  appends are specified as a sequence built in loop order. Its loops are
  proved equal to that sequence.

Coordinates are exact reals.

The matching specification is stated over an abstract answer function
`nearest`. `Answers(nearest, t)` ties that function to the tree's own
search, `NearestIn`. `TreeQueryIsNearest` then shows that the tree's
answer is a stored point, and that no stored point is strictly closer.

## Model

| member | source | states |
|---|---|---|
| Vectors.SqrMagnitude | Assets/Game/Scripts/Utils/KDTree.cs:60-61 | a squared magnitude is never negative |
| Vectors.CompareTo | Assets/Game/Scripts/Utils/AxisComparer.cs:13 | float.CompareTo answers -1, 0 or 1: negative exactly when a < b, zero exactly when a == b |
| Vectors.FarSideBound | Assets/Game/Scripts/Utils/KDTree.cs:77 | a point on the other side of a splitting plane from the target is at least the squared plane distance away, so skipping that side is safe |
| Matrices.Position | Assets/Game/Scripts/MatrixVisualizer.cs:98 | the position of a matrix is its translation column (m03, m13, m23) |
| Matrices.OptimizedPosition | Assets/Game/Scripts/OptimizedMatrix.cs:8-10 | the same projection on the compact form reads m03, m13, m23 |
| Matrices.FromMatrix | Assets/Game/Scripts/OptimizedMatrix.cs:12-28 | each of the twelve fields m00..m23 of the copy equals the field of the source matrix |
| Matrices.FromMatrixKeepsPosition | Assets/Game/Scripts/OptimizedMatrix.cs:17-27 | the copy keeps the translation column, so its position is the matrix's position |
| Matrices.FromMatrixDropsBottomRowOnly | Assets/Game/Scripts/OptimizedMatrix.cs:8-10 | two matrices have equal copies exactly when their top three rows agree: only the bottom row is dropped |
| Matrices.BottomRowIgnored | Assets/Game/Scripts/OptimizedMatrix.cs:12-28 | changing m30..m33 changes neither the copy nor the position |
| Serialization.SerializableVector3.ToVector3 | Assets/Game/Scripts/Utils/SerializableVector3.cs:20 | the vector read back has the stored x, y and z |
| Serialization.FromVector3 | Assets/Game/Scripts/Utils/SerializableVector3.cs:13-18 | the constructor stores x, y and z of the vector |
| Serialization.RoundTrip | Assets/Game/Scripts/Utils/SerializableVector3.cs:13-20 | storing a vector and reading it back gives the same vector |
| Serialization.RoundTripBack | Assets/Game/Scripts/Utils/SerializableVector3.cs:13-20 | reading a stored value and storing it again gives an equal value |
| Serialization.FromVector3Injective | Assets/Game/Scripts/Utils/SerializableVector3.cs:13-18 | different vectors are stored as different values |
| Comparers.AxisComparer.Compare | Assets/Game/Scripts/Utils/AxisComparer.cs:11-14 | the answer is -1, 0 or 1, and its sign is the order of the two points' coordinates on the comparer's axis |
| Comparers.CompareOnlyReadsAxis | Assets/Game/Scripts/Utils/AxisComparer.cs:8-13 | points that agree on the axis compare the same against every point |
| Comparers.CompareAntisymmetric | Assets/Game/Scripts/Utils/AxisComparer.cs:13 | swapping the arguments negates the answer |
| Comparers.CompareTransitive | Assets/Game/Scripts/Utils/AxisComparer.cs:13 | "at most" is transitive |
| Comparers.CompareTotal | Assets/Game/Scripts/Utils/AxisComparer.cs:13 | any two points are comparable, so the comparer is a total preorder |
| Comparers.CompareReflexive | Assets/Game/Scripts/Utils/AxisComparer.cs:13 | a point compares equal to itself |
| Loading.ConvertToOptimizedMatrices | Assets/Game/Scripts/MatrixLoader.cs:59-67 | the output has the input's length, element i is the copy of input i (order kept, empty gives empty), and each copy has its matrix's position |
| Spawning.DefaultEntity.GetEntitySize | Assets/Game/Scripts/Spawn/Entities/DefaultEntity.cs:7-10 | a default entity is 2 by 2 |
| Spawning.ChessStepFlips | Assets/Game/Scripts/EntitySpawnFactory.cs:33-46 | one step keeps the counter in {0, 1} and flips it; x grows by the width; y grows by the height from counter 0 and shrinks by it from counter 1 |
| Spawning.ChessStepsClosedForm | Assets/Game/Scripts/EntitySpawnFactory.cs:35-45 | after n steps x has grown by 2n, the counter is (start + n) mod 2, and y is back at its start after an even number of steps and 2 above or below it after an odd number |
| Spawning.EvenStepsReturnY | Assets/Game/Scripts/EntitySpawnFactory.cs:35-45 | from counter 0, an even number of steps returns y and the counter to their start |
| Spawning.ChessStepsAppend | Assets/Game/Scripts/EntitySpawnFactory.cs:48-54 | n + 1 steps are n steps followed by one more |
| Spawning.EntitySpawnFactory.constructor | Assets/Game/Scripts/EntitySpawnFactory.cs:10-15 | a new factory has counter 0 and spawn position (0, 0) |
| Spawning.EntitySpawnFactory.SpawnInChessOrder | Assets/Game/Scripts/EntitySpawnFactory.cs:33-46 | the state after the call is one chess step from the state before, and the counter stays 0 or 1 |
| Spawning.EntitySpawnFactory.SpawnDefaultEntity | Assets/Game/Scripts/EntitySpawnFactory.cs:17-23 | takes one chess step and places the entity at the new spawn position |
| Spawning.EntitySpawnFactory.SpawnDefaultEntityAt | Assets/Game/Scripts/EntitySpawnFactory.cs:25-30 | places the entity at the given position and changes neither the counter nor the spawn position |
| Spawning.EntitySpawnFactory.SpawnDefaultEntities | Assets/Game/Scripts/EntitySpawnFactory.cs:48-54 | the state ends exactly n chess steps on (none when n is not positive) |
| SortedLists.DuplicateKeyCompare | Assets/Game/Scripts/Utils/KDTree.cs:168-174 | the comparer never answers 0: it is negative exactly when x < y and positive exactly when y <= x |
| SortedLists.InsertionIndex | Assets/Game/Scripts/Utils/KDTree.cs:109 | the slot Add fills: every key before it is strictly smaller than the new key, every key from it on is at least as large |
| SortedLists.SortedList.constructor | Assets/Game/Scripts/Utils/KDTree.cs:88 | a new list is empty |
| SortedLists.SortedList.Add | Assets/Game/Scripts/Utils/KDTree.cs:109 | the pair is inserted at its InsertionIndex, as a new slot even when an equal key is present, and the keys stay sorted |
| SortedLists.SortedList.RemoveAt | Assets/Game/Scripts/Utils/KDTree.cs:114 | exactly the given slot is deleted and the keys stay sorted |
| Selection.PartitionStep | Assets/Game/Scripts/Utils/KDTree.cs:134-140 | one quickselect round keeps the range a rearrangement of its start, keeps the splits at lo and hi + 1, and adds splits just before and after the pivot |
| Selection.SplitRank | Assets/Game/Scripts/Utils/KDTree.cs:132-141 | a range split just before and just after slot k has slot k at its rank |
| Selection.HalvesPermuted | Assets/Game/Scripts/Utils/KDTree.cs:42-45 | building the two halves one after the other only rearranges the range, keeps the lower half as first built, leaves the median slot in place, and keeps both halves on their side of the median |
| Selection.MedianNode | Assets/Game/Scripts/Utils/KDTree.cs:27-29 | after selection the range is its lower half, its median and its upper half, and the halves lie on either side of the median on the axis |
| KdNodes.BagOfInOrder | Assets/Game/Scripts/Utils/KDNode.cs:8-10 | the bag of a tree holds exactly the points of its in-order sequence |
| KdNodes.KDNode.constructor | Assets/Game/Scripts/Utils/KDNode.cs:12 | a new node holds the given point and has no children |
| KdNodes.KDNode.SetChildren | Assets/Game/Scripts/Utils/KDNode.cs:13-17 | the links become the given nodes, the point is unchanged, and the node heads a valid tree, whose two subtrees share no node, whenever its subtrees are valid, disjoint and do not contain it |
| KdNodes.FarSide | Assets/Game/Scripts/Utils/KDTree.cs:77-80 | every point of the far subtree of a KD-ordered node is at least the squared plane distance from the target |
| KdTrees.NearestIn | Assets/Game/Scripts/Utils/KDTree.cs:56-83 | the search's answer is never farther from the target than the starting best, and is that best or a subtree point |
| KdTrees.NearestInIsNearest | Assets/Game/Scripts/Utils/KDTree.cs:56-83 | on a KD-ordered subtree no point of the subtree is strictly closer to the target than the answer: the pruning loses nothing |
| KdTrees.NearestInFarSide | Assets/Game/Scripts/Utils/KDTree.cs:77-80 | the far-side search, or its pruning, gives an answer at least as close as every far-side point and as the near-side answer |
| KdTrees.KDTree.constructor | Assets/Game/Scripts/Utils/KDTree.cs:14-18 | the new tree is valid and KD-ordered, holds exactly the given points as a bag, and is empty exactly when no points are given |
| KdTrees.KDTree.BuildTree | Assets/Game/Scripts/Utils/KDTree.cs:20-49 | returns null exactly for an empty range; otherwise the node holds the point at slot (start+end)/2, the subtree is made of fresh nodes, is valid and KD-ordered on depth % 3, its in-order points are the range's slice, and the array is only rearranged within the range |
| KdTrees.KDTree.BuildSubtrees | Assets/Game/Scripts/Utils/KDTree.cs:31-46 | the two children are valid, made of fresh nodes, share no node, and are KD-ordered one level deeper, the left one's points are at most the median on the axis and the right one's at least, and together with the median they are the range's slice |
| KdTrees.KDTree.Compare | Assets/Game/Scripts/Utils/KDTree.cs:159-165 | negative exactly when a's coordinate on the axis is smaller, zero exactly when they are equal |
| KdTrees.KDTree.Swap | Assets/Game/Scripts/Utils/KDTree.cs:151 | the two slots are exchanged, every other slot is unchanged, and the array is a rearrangement within the range |
| KdTrees.KDTree.Partition | Assets/Game/Scripts/Utils/KDTree.cs:143-157 | returns i in [left, right] holding the old points[right]; everything before it in the range is strictly smaller on the axis and everything after it is at least as large; only the range is rearranged |
| KdTrees.KDTree.QuickSelect | Assets/Game/Scripts/Utils/KDTree.cs:132-141 | only the range [left, right] is rearranged; afterwards nothing in [left, k) is larger than points[k] on the axis and nothing in (k, right] is smaller |
| KdTrees.KDTree.FindNearest | Assets/Game/Scripts/Utils/KDTree.cs:56-83 | the walk over the linked nodes returns NearestIn of the subtree they hold |
| KdTrees.KDTree.NearestInStep | Assets/Game/Scripts/Utils/KDTree.cs:60-80 | one level of NearestIn is the better of best and the node's point, refined by the near subtree and then, while the squared plane distance is below the distance that better point has, by the far subtree |
| KdTrees.KDTree.GetNearestNeighbor | Assets/Game/Scripts/Utils/KDTree.cs:51-54 | on a non-empty tree the answer is a stored point and no stored point is strictly closer to the target |
| KdTrees.KDTree.GetNearestNeighbors | Assets/Game/Scripts/Utils/KDTree.cs:85-98 | min(k, n) stored points, drawn from the stored points with repeats counted, in non-decreasing squared distance, and no point left out strictly closer than the last one returned; an empty tree gives none |
| KdTrees.KDTree.FindKNearest | Assets/Game/Scripts/Utils/KDTree.cs:100-130 | the candidate list ends as KNearest of the subtree says and stays sorted; a null node leaves it unchanged |
| KdTrees.KDTree.SearchFarSide | Assets/Game/Scripts/Utils/KDTree.cs:126-129 | the far child is searched exactly when the squared plane distance is below the last key or the list is short, as FarSearch says |
| KdTrees.KDTree.Children | Assets/Game/Scripts/Utils/KDTree.cs:118-122 | the near and far children of a valid node are valid, lie strictly inside its footprint, and hold the near and far subtrees of its value |
| KdTrees.KDTree.Offer | Assets/Game/Scripts/Utils/KDTree.cs:104-116 | the list becomes Offered of the old list: added while short, the last entry replaced when the point is strictly closer, otherwise unchanged; it stays sorted |
| CandidateLists.Offered | Assets/Game/Scripts/Utils/KDTree.cs:104-116 | one offer leaves min(k, length + 1) entries |
| CandidateLists.Inserted | Assets/Game/Scripts/Utils/KDTree.cs:109 | an Add makes the list one entry longer |
| CandidateLists.InsertedAt | Assets/Game/Scripts/Utils/KDTree.cs:109 | the recursive insertion puts the pair exactly at its InsertionIndex |
| CandidateLists.OfferedAsSteps | Assets/Game/Scripts/Utils/KDTree.cs:107-116 | an offer is an Add at the insertion index, a RemoveAt of the last slot followed by an Add, or nothing, by the source's three branches |
| CandidateLists.InsertedSorted | Assets/Game/Scripts/Utils/KDTree.cs:109 | an Add keeps the keys sorted |
| CandidateLists.OfferGrow | Assets/Game/Scripts/Utils/KDTree.cs:107-110 | offering to a short list keeps k nearest of the old contents plus the point |
| CandidateLists.OfferReplace | Assets/Game/Scripts/Utils/KDTree.cs:112-116 | replacing the last entry of a full list by a strictly closer point keeps k nearest of the old contents plus the point and does not raise the last key |
| CandidateLists.ReplacedLastKey | Assets/Game/Scripts/Utils/KDTree.cs:112-116 | dropping the last key of a full list and inserting a smaller one never raises the last key |
| CandidateLists.OfferSkip | Assets/Game/Scripts/Utils/KDTree.cs:112 | a point no closer than the last entry of a full list is left out without losing the selection property |
| CandidateLists.OfferSelectsOwn | Assets/Game/Scripts/Utils/KDTree.cs:104-116 | after one offer the list holds k nearest of its old contents plus the point, and a full list's last key does not grow |
| CandidateLists.OfferSelects | Assets/Game/Scripts/Utils/KDTree.cs:104-116 | a list holding k nearest of a pool holds k nearest of the pool plus the offered point |
| CandidateLists.SelectsEmpty | Assets/Game/Scripts/Utils/KDTree.cs:88 | the empty list holds k nearest of the empty pool |
| CandidateLists.SelectsNearestFirst | Assets/Game/Scripts/Utils/KDTree.cs:92-95 | the values of a selecting list are k nearest points of the pool, nearest first |
| CandidateLists.SelectsTrans | Assets/Game/Scripts/Utils/KDTree.cs:104-116 | selecting from a list's contents plus new points, without raising a full list's last key, selects from the whole pool plus those points |
| CandidateLists.SelectsPruned | Assets/Game/Scripts/Utils/KDTree.cs:126 | points no closer than a full list's last key can be added to its pool without changing the list |
| CandidateLists.KNearest | Assets/Game/Scripts/Utils/KDTree.cs:100-130 | a search keeps the list at most k long, never shortens it, and leaves it unchanged on an empty subtree |
| CandidateLists.Descend | Assets/Game/Scripts/Utils/KDTree.cs:118-129 | the search below an offered node keeps the list between its length and k |
| CandidateLists.FarSearch | Assets/Game/Scripts/Utils/KDTree.cs:126-129 | the far-side step keeps the list between its length and k |
| CandidateLists.KNearestIsNearest | Assets/Game/Scripts/Utils/KDTree.cs:85-98 | from an empty list on a KD-ordered tree the search lists k nearest points of the tree, nearest first |
| CandidateLists.KNearestNode | Assets/Game/Scripts/Utils/KDTree.cs:104-129 | KNearest on a node is the offer, then the near search, then FarSearch |
| CandidateLists.KNearestSelects | Assets/Game/Scripts/Utils/KDTree.cs:100-130 | a list holding k nearest of a pool holds, after the search of a KD-ordered subtree, k nearest of the pool and the subtree's points together |
| CandidateLists.DescendSelects | Assets/Game/Scripts/Utils/KDTree.cs:118-129 | the near and far searches keep the selection property over both subtrees |
| CandidateLists.FarSearchSelects | Assets/Game/Scripts/Utils/KDTree.cs:126-129 | the far search, or its pruning, keeps the selection property with the far subtree's points added |
| CandidateLists.FarSidePruned | Assets/Game/Scripts/Utils/KDTree.cs:126 | when the plane is no closer than a full list's last key, the far subtree holds no point that belongs in the list |
| CandidateLists.FarSideBag | Assets/Game/Scripts/Utils/KDTree.cs:126 | every point in the far subtree's bag is at least the squared plane distance away |
| Matching.ApplyOffset | Assets/Game/Scripts/MatrixVisualizer.cs:124-127 | the shifted position minus the original is the offset vector (dx, dy, dz) |
| Matching.ApplyOffsetInverse | Assets/Game/Scripts/MatrixVisualizer.cs:124-127 | shifting back by the opposite offset restores the position |
| Matching.MatricesAreEqualProperties | Assets/Game/Scripts/MatrixVisualizer.cs:129-134 | the strict test never passes with a tolerance that is not positive, is symmetric, and accepts a position against itself exactly when the tolerance is positive |
| Matching.MatricesAreEqual | Assets/Game/Scripts/MatrixVisualizer.cs:129-134 | the strict per-axis tolerance test passes only with a positive tolerance, and positions that pass are closer than sqrt(3) times the tolerance |
| Matching.Accepted | Assets/Game/Scripts/MatrixVisualizer.cs:103-105 | the acceptance test of one offset never accepts a zero-vector neighbour or a tolerance that is not positive, and an accepted neighbour is closer than sqrt(3) times the tolerance to the shifted position |
| Matching.Width | Assets/Game/Scripts/MatrixVisualizer.cs:99-101 | the loop range is empty exactly when maxOffset is negative |
| Matching.TreeQueryAnswers | Assets/Game/Scripts/MatrixVisualizer.cs:104 | the tree's own search answers every position |
| Matching.TreeQueryIsNearest | Assets/Game/Scripts/MatrixVisualizer.cs:104 | the tree's answer is a stored space position and no stored position is strictly closer |
| Matching.DzRowMembers | Assets/Game/Scripts/MatrixVisualizer.cs:101-117 | a match is in the dz row up to upTo exactly when it is the accepted match at its own offset, with that dx and dy and dz in range |
| Matching.DyPlaneMembers | Assets/Game/Scripts/MatrixVisualizer.cs:100-117 | the same characterisation for the dy loop |
| Matching.DxCubeMembers | Assets/Game/Scripts/MatrixVisualizer.cs:99-117 | the same characterisation for the dx loop |
| Matching.PointMatchesExactly | Assets/Game/Scripts/MatrixVisualizer.cs:99-117 | a match is recorded for a model position exactly when its offset lies in the cube, its space position is the nearest neighbour of the shifted position, that neighbour is not zero, and it is within tolerance |
| Matching.AcceptedOffsetIsRecorded | Assets/Game/Scripts/MatrixVisualizer.cs:103-116 | every accepted offset of the cube yields its match |
| Matching.ZeroNeighbourRejected | Assets/Game/Scripts/MatrixVisualizer.cs:105 | an offset whose nearest neighbour is the zero vector is never recorded, however close it is |
| Matching.DzRowBound | Assets/Game/Scripts/MatrixVisualizer.cs:101 | the dz loop records at most one match per value of dz |
| Matching.DyPlaneBound | Assets/Game/Scripts/MatrixVisualizer.cs:100-101 | the dy loop records at most one match per (dy, dz) |
| Matching.DxCubeBound | Assets/Game/Scripts/MatrixVisualizer.cs:99-101 | the dx loop records at most one match per (dx, dy, dz) |
| Matching.PointMatchesBound | Assets/Game/Scripts/MatrixVisualizer.cs:99-118 | with no early exit, one model records at most (2 maxOffset + 1)^3 matches |
| Matching.ModelsMatchesSound | Assets/Game/Scripts/MatrixVisualizer.cs:96-119 | every match of the pass belongs to one of the model positions and is a match for it |
| Matching.PointMatchesPositions | Assets/Game/Scripts/MatrixVisualizer.cs:107-116 | one model's matches all carry its own position: that position if it has any match, otherwise none |
| Matching.MatchedExactly | Assets/Game/Scripts/MatrixVisualizer.cs:96-119 | a position is marked exactly when it is a model position whose sweep accepts some offset |
| Matching.NoMatchesWithoutTolerance | Assets/Game/Scripts/MatrixVisualizer.cs:105 | with a tolerance that is not positive the pass records nothing |
| Matching.FirstPositionsHold | Assets/Game/Scripts/MatrixVisualizer.cs:96-98 | every model's position is among the positions the pass goes through |
| Matching.UnmatchedAfterPass | Assets/Game/Scripts/MatrixVisualizer.cs:136-139 | after one pass the unmatched count is zero exactly when every model has a match, and equals the model count exactly when none has |
| Matching.UnmatchedCount | Assets/Game/Scripts/MatrixVisualizer.cs:138 | the count is at most the number of models, zero exactly when every model position is marked, and the model count exactly when none is |
| Matching.MatrixVisualizer.constructor | Assets/Game/Scripts/MatrixVisualizer.cs:11-20 | the visualizer starts with the given bounds and lists, no tree and no matches |
| Matching.MatrixVisualizer.BuildKdTree | Assets/Game/Scripts/MatrixVisualizer.cs:81-86 | spacePositions holds the positions of the space matrices in order, and a fresh valid tree holds exactly those positions |
| Matching.MatrixVisualizer.CompareMatricesWithOffsetsUsingKdTree | Assets/Game/Scripts/MatrixVisualizer.cs:88-122 | with a list missing nothing changes; otherwise the pass appends exactly ModelsMatches and marks exactly MarkedPositions for the tree's answers |
| Matching.MatrixVisualizer.CheckUnmatchedMatrices | Assets/Game/Scripts/MatrixVisualizer.cs:136-140 | the count is at most the number of models, zero exactly when every model position is marked, and the model count exactly when none is |
| Matching.TryOffset | Assets/Game/Scripts/MatrixVisualizer.cs:103-116 | one offset is accepted exactly when Accepted says, and then the recorded match is the offset's contribution |
| Matching.MatchRow | Assets/Game/Scripts/MatrixVisualizer.cs:101-117 | the dz loop returns exactly the dz row and marks the position exactly when the row is non-empty |
| Matching.MatchPlane | Assets/Game/Scripts/MatrixVisualizer.cs:100-118 | the dy loop returns exactly the dy plane and marks the position exactly when it is non-empty |
| Matching.MatchModelPosition | Assets/Game/Scripts/MatrixVisualizer.cs:98-118 | the offset sweep of one model returns exactly its PointMatches and marks its position exactly when there is one |
| Matching.MatchModels | Assets/Game/Scripts/MatrixVisualizer.cs:96-119 | the loop over the models returns exactly ModelsMatches and MarkedPositions over all of them |

## Left out

- Floating point: coordinates, distances, the tolerance and the offsets are exact reals. IEEE rounding of `float` is not modelled.
- Matching.Accepted: Unity's `Vector3 !=` is an approximate comparison that treats vectors closer than about 1e-5 as equal. The zero-vector test here is exact equality, so a neighbour very close to the origin but not at it is rejected by the program and accepted by the model.
- Concurrency: `Parallel.Invoke` in BuildTree and `Parallel.ForEach` with `lock` in the matching pass are modelled sequentially. In the program, the order in which different models' matches reach the list is not determined. The model fixes model order. Within one model the order is always (dx, dy, dz) ascending.
- KdTrees.KDTree.BuildSubtrees stands for both branches of the build: the two halves touch disjoint slices, so building them one after the other gives the same children.
- Matching.MatrixVisualizer.CompareMatricesWithOffsetsUsingKdTree appends the pass's matches and marks its positions once, at the end. The program adds each one as it is found; with the loops run sequentially the final lists are the same.
- Matching.MatrixVisualizer.CompareMatricesWithOffsetsUsingKdTree requires a built tree. It also requires a non-empty tree whenever some offset is tried, because a query on an empty tree dereferences a null root.
- Matching.TreeQuery gives the zero vector for an empty tree. The sweep never consults that value.
- The loop nest of the pass is split into Matching.MatchModels, Matching.MatchModelPosition, Matching.MatchPlane and Matching.MatchRow, one method per loop. Matching.TryOffset is the loop body.
- KdTrees.KDTree.SearchFarSide is the last statement of FindKNearest as its own method.
- KdTrees.KDTree.BuildTree allocates the node after its subtrees exist. The program allocates it before building them, which nothing can observe.
- KdTrees.KDTree.FindNearest and KdTrees.KDTree.FindKNearest write `delta * delta` as `Square(delta)`, which is the same value.
- KdTrees.KDTree.GetNearestNeighbors requires k >= 1 on a non-empty tree: with k < 1 the program reads the last key of an empty list and throws.
- KdTrees.KDTree.GetNearestNeighbor requires a non-empty tree, because the program dereferences the null root otherwise.
- KdTrees.KDTree.Compare and Comparers.AxisComparer.Compare require an axis in 0..2. The program throws for any other axis.
- Matching.MatrixVisualizer.BuildKdTree requires the space list to be loaded, and Matching.MatrixVisualizer.CheckUnmatchedMatrices requires the model list, since the program reads through them unchecked.
- The SortedList is modelled by its key and value sequences: Add at the index its binary search finds, RemoveAt, Count, the last key and the values. Its array storage and growth are not modelled.
- Spawning.EntitySpawnFactory.SpawnDefaultEntityAt is `SpawnDefaultEntity(Vector3 position)`, renamed because Dafny has no overloading.
- The entity pool (`CustomPool.Get`) and `transform.position` are abstracted: an entity is the position it is placed at.
- I/O: `MatrixLoader.LoadMatrices` (resource loading and JSON parsing) and `ExportResults` are not part of this model. A list that failed to load is `None`.
- Unity presentation and lifecycle are not part of this model: `Init`, `VisualizeMatrices`, `Visualize`, `VisualizeMatches`, `ChangeColor`, `ClearPreviousCubes`, the entity map and `Debug.Log`.
- 32-bit integer overflow is not modelled: depths, indices and offsets are unbounded integers.
