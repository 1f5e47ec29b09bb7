/**
 * KDTree: a 3-D tree over a point array, built by in-place median
 * selection (Lomuto partition inside a quickselect loop), with a
 * nearest-neighbour and a k-nearest-neighbours branch-and-bound query.
 */
module KdTrees {
  import opened Vectors
  import opened KdNodes
  import opened SortedLists
  import opened Selection
  import opened CandidateLists

  /**
   * The nearest-neighbour search of KDTree.FindNearest on the value of a
   * subtree: the best of `best` and the subtree's points, searching the
   * target's side of the splitting plane first and the other side only
   * while the plane is closer than the best distance found before that
   * first search (the program does not refresh `bestDist` after it). The
   * answer never gets worse and is either `best` or a subtree point.
   */
  function NearestIn(t: Tree, target: Vector3, depth: nat, best: Vector3): (r: Vector3)
    ensures SqDist(r, target) <= SqDist(best, target)
    ensures r == best || r in InOrder(t)
  {
    match t
    case Empty => best
    case Node(left, point, right) =>
      var bestDist := SqDist(best, target);
      var nodeDist := SqDist(point, target);
      var best' := if nodeDist < bestDist then point else best;
      var bestDist' := if nodeDist < bestDist then nodeDist else bestDist;
      var axis := depth % 3;
      var delta := Get(target, axis) - Get(point, axis);
      var first := if delta < 0.0 then left else right;
      var second := if delta < 0.0 then right else left;
      var afterFirst := NearestIn(first, target, depth + 1, best');
      if Square(delta) < bestDist' then NearestIn(second, target, depth + 1, afterFirst)
      else afterFirst
  }

  /**
   * On a KD-ordered subtree the pruning loses nothing: the answer is at
   * least as close to the target as every point of the subtree.
   */
  lemma {:induction false} NearestInIsNearest(t: Tree, target: Vector3, depth: nat, best: Vector3)
    requires KdOrdered(t, depth)
    decreases t, 1
    ensures forall q | q in InOrder(t) ::
      SqDist(NearestIn(t, target, depth, best), target) <= SqDist(q, target)
  {
    if t.Node? {
      var best' := if SqDist(t.point, target) < SqDist(best, target) then t.point else best;
      var delta := Get(target, depth % 3) - Get(t.point, depth % 3);
      var first := if delta < 0.0 then t.left else t.right;
      NearestInIsNearest(first, target, depth + 1, best');
      NearestInFarSide(t, target, depth, best', NearestIn(first, target, depth + 1, best'));
    }
  }

  /**
   * The second, far-side search, or its pruning, leaves an answer at least
   * as close as every far-side point and as the near-side answer it
   * started from.
   */
  lemma {:induction false} NearestInFarSide(t: Tree, target: Vector3, depth: nat, best': Vector3, afterFirst: Vector3)
    requires t.Node? && KdOrdered(t, depth)
    requires SqDist(afterFirst, target) <= SqDist(best', target)
    decreases t, 0
    ensures var delta := Get(target, depth % 3) - Get(t.point, depth % 3);
      var second := if delta < 0.0 then t.right else t.left;
      var r := if Square(delta) < SqDist(best', target) then NearestIn(second, target, depth + 1, afterFirst) else afterFirst;
      && SqDist(r, target) <= SqDist(afterFirst, target)
      && forall q | q in InOrder(second) :: SqDist(r, target) <= SqDist(q, target)
  {
    var delta := Get(target, depth % 3) - Get(t.point, depth % 3);
    var second := if delta < 0.0 then t.right else t.left;
    if Square(delta) < SqDist(best', target) {
      NearestInIsNearest(second, target, depth + 1, afterFirst);
    } else {
      FarSide(t, target, depth, second);
    }
  }

  class KDTree {
    const pointsArray: array<Vector3>
    var root: KDNode?

    /**
     * The tree is well formed and KD-ordered from depth 0, and its in-order
     * traversal is the backing array: the build leaves every subtree's
     * points in the array slice it was built from.
     */
    ghost predicate Valid()
      reads this, pointsArray, root, Footprint(root)
    {
      && ValidNode(root)
      && KdOrdered(ModelOf(root), 0)
      && Points(root) == pointsArray[..]
    }

    /** `new KDTree(points)`: copies the list into the array and builds over all of it. */
    constructor (points: seq<Vector3>)
      ensures Valid()
      ensures multiset(Points(root)) == multiset(points)
      ensures root == null <==> |points| == 0
    {
      pointsArray := new Vector3[|points|](i requires 0 <= i < |points| => points[i]);
      new;
      assert pointsArray[..] == points;
      root := BuildTree(0, pointsArray.Length - 1, 0);
      assert pointsArray[0..pointsArray.Length] == pointsArray[..];
    }

    /**
     * Builds the subtree over pointsArray[start..end]: empty when
     * start > end; otherwise the range's median along `depth % 3` becomes
     * the node and the two halves become its subtrees. The node is
     * allocated once its subtrees exist; the program allocates it first,
     * which nothing can observe.
     */
    method BuildTree(start: int, end: int, depth: nat) returns (node: KDNode?)
      requires 0 <= start <= end + 1 <= pointsArray.Length
      modifies pointsArray
      decreases end - start, 1
      ensures node == null <==> start > end
      ensures node != null ==> node.point == pointsArray[(start + end) / 2]
      ensures ValidNode(node) && fresh(Footprint(node))
      ensures KdOrdered(ModelOf(node), depth)
      ensures Points(node) == pointsArray[start..end + 1]
      ensures Permuted(old(pointsArray[..]), pointsArray[..], start, end + 1)
    {
      if start > end {
        return null;
      }
      var axis := depth % 3;
      var median := (start + end) / 2;
      QuickSelect(pointsArray, start, end, median, axis);
      ghost var selected := pointsArray[..];
      var left, right := BuildSubtrees(start, median, end, depth);
      PermutedTrans(old(pointsArray[..]), selected, pointsArray[..], start, end + 1, start, end + 1);
      node := new KDNode(pointsArray[median]);
      node.SetChildren(left, right);
    }

    /**
     * The two recursive builds of one BuildTree step, over the halves
     * before and after the median slot, which quickselect has already put
     * in place along `depth % 3`. The program forks them onto parallel
     * tasks above 5000 points; they touch disjoint ranges, so one build
     * after the other yields the same children.
     */
    method BuildSubtrees(start: int, median: int, end: int, depth: nat) returns (left: KDNode?, right: KDNode?)
      requires 0 <= start <= median <= end < pointsArray.Length
      requires forall i :: start <= i < median ==> Get(pointsArray[i], depth % 3) <= Get(pointsArray[median], depth % 3)
      requires forall i :: median < i <= end ==> Get(pointsArray[median], depth % 3) <= Get(pointsArray[i], depth % 3)
      modifies pointsArray
      decreases end - start, 0
      ensures ValidNode(left) && ValidNode(right)
      ensures fresh(Footprint(left)) && fresh(Footprint(right)) && Footprint(left) !! Footprint(right)
      ensures KdOrdered(ModelOf(left), depth + 1) && KdOrdered(ModelOf(right), depth + 1)
      ensures pointsArray[start..end + 1] == Points(left) + [pointsArray[median]] + Points(right)
      ensures forall q | q in Points(left) :: Get(q, depth % 3) <= Get(pointsArray[median], depth % 3)
      ensures forall q | q in Points(right) :: Get(pointsArray[median], depth % 3) <= Get(q, depth % 3)
      ensures Permuted(old(pointsArray[..]), pointsArray[..], start, end + 1)
    {
      left := BuildTree(start, median - 1, depth + 1);
      ghost var afterLeft := pointsArray[..];
      ghost var leftNodes := Footprint(left);
      right := BuildTree(median + 1, end, depth + 1);
      assert leftNodes !! Footprint(right);
      HalvesPermuted(old(pointsArray[..]), afterLeft, pointsArray[..], start, median, end, depth % 3);
      MedianNode(pointsArray[..], start, median, end, depth % 3);
    }

    /** KDTree.Compare: float.CompareTo on the coordinate `axis` selects. */
    static function Compare(a: Vector3, b: Vector3, axis: int): (order: int)
      requires 0 <= axis < 3
      ensures order < 0 <==> Get(a, axis) < Get(b, axis)
      ensures order == 0 <==> Get(a, axis) == Get(b, axis)
    {
      if axis == 0 then CompareTo(a.x, b.x)
      else if axis == 1 then CompareTo(a.y, b.y)
      else CompareTo(a.z, b.z)
    }

    /** The tuple swap `(points[i], points[j]) = (points[j], points[i])`. */
    static method Swap(points: array<Vector3>, i: int, j: int, ghost lo: int, ghost hi: int)
      requires 0 <= lo <= i < hi <= points.Length && lo <= j < hi
      modifies points
      ensures points[i] == old(points[j]) && points[j] == old(points[i])
      ensures forall m :: 0 <= m < points.Length && m != i && m != j ==> points[m] == old(points[m])
      ensures Permuted(old(points[..]), points[..], lo, hi)
    {
      SwapPermutes(points[..], i, j, lo, hi);
      points[i], points[j] := points[j], points[i];
    }

    /**
     * Lomuto partition of points[left..right] around the pivot
     * points[right]: the pivot lands at the returned index, strictly
     * smaller coordinates before it, the others after it.
     */
    static method Partition(points: array<Vector3>, left: int, right: int, axis: int) returns (i: int)
      requires 0 <= left <= right < points.Length && 0 <= axis < 3
      modifies points
      ensures left <= i <= right
      ensures points[i] == old(points[right])
      ensures forall j :: left <= j < i ==> Get(points[j], axis) < Get(points[i], axis)
      ensures forall j :: i < j <= right ==> Get(points[i], axis) <= Get(points[j], axis)
      ensures Permuted(old(points[..]), points[..], left, right + 1)
    {
      var pivot := points[right];
      i := left;
      for j := left to right
        invariant left <= i <= j <= right
        invariant points[right] == pivot
        invariant forall m :: left <= m < i ==> Get(points[m], axis) < Get(pivot, axis)
        invariant forall m :: i <= m < j ==> Get(pivot, axis) <= Get(points[m], axis)
        invariant Permuted(old(points[..]), points[..], left, right + 1)
      {
        if Compare(points[j], pivot, axis) < 0 {
          Swap(points, i, j, left, right + 1);
          i := i + 1;
        }
      }
      Swap(points, i, right, left, right + 1);
    }

    /**
     * FindNearest: walks the linked nodes and returns NearestIn of the
     * subtree they hold.
     */
    static method FindNearest(node: KDNode?, target: Vector3, depth: nat, best: Vector3) returns (r: Vector3)
      requires ValidNode(node)
      decreases Footprint(node)
      ensures r == NearestIn(ModelOf(node), target, depth, best)
    {
      if node == null {
        return best;
      }
      r := best;
      var bestDist := SqDist(r, target);
      var nodeDist := SqDist(node.point, target);
      if nodeDist < bestDist {
        r := node.point;
        bestDist := nodeDist;
      }
      var axis := depth % 3;
      var delta := Get(target, axis) - Get(node.point, axis);
      var first := if delta < 0.0 then node.left else node.right;
      var second := if delta < 0.0 then node.right else node.left;
      Children(node, target, depth, first, second);
      NearestInStep(node.Model, target, depth, best);
      r := FindNearest(first, target, depth + 1, r);
      if Square(delta) < bestDist {
        r := FindNearest(second, target, depth + 1, r);
      }
    }

    /**
     * One level of NearestIn, in the terms FindNearest computes: the better
     * of `best` and the node's point, refined by the near subtree and then,
     * while the squared plane distance is below the distance of that better
     * point, by the far subtree.
     */
    static lemma NearestInStep(t: Tree, target: Vector3, depth: nat, best: Vector3)
      requires t.Node?
      ensures
        var nodeCloser := SqDist(t.point, target) < SqDist(best, target);
        var best' := if nodeCloser then t.point else best;
        var bestDist' := if nodeCloser then SqDist(t.point, target) else SqDist(best, target);
        var delta := PlaneGap(t, target, depth);
        var afterFirst := NearestIn(NearSubtree(t, target, depth), target, depth + 1, best');
        NearestIn(t, target, depth, best)
          == if Square(delta) < bestDist' then NearestIn(FarSubtree(t, target, depth), target, depth + 1, afterFirst) else afterFirst
    {
    }

    /**
     * GetNearestNeighbor: the stored point closest to `target`. The program
     * starts from the root's point and dereferences the root, so the tree
     * must not be empty.
     */
    method GetNearestNeighbor(target: Vector3) returns (r: Vector3)
      requires Valid() && root != null
      ensures r == NearestIn(ModelOf(root), target, 0, root.point)
      ensures r in pointsArray[..]
      ensures forall q | q in pointsArray[..] :: SqDist(r, target) <= SqDist(q, target)
    {
      NearestInIsNearest(root.Model, target, 0, root.point);
      r := FindNearest(root, target, 0, root.point);
    }

    /**
     * GetNearestNeighbors: runs FindKNearest from the root into an empty
     * candidate list and copies its values out, nearest first. The result
     * lists k nearest stored points. With k < 1 on a non-empty tree the
     * program reads the last key of an empty list and throws.
     */
    method GetNearestNeighbors(originalPosition: Vector3, k: int) returns (nearestNeighbors: seq<Vector3>)
      requires Valid()
      requires root == null || k >= 1
      ensures root == null ==> nearestNeighbors == []
      ensures root != null ==>
        && nearestNeighbors == KNearest(ModelOf(root), originalPosition, 0, k, [], []).1
        && NearestFirst(multiset(pointsArray[..]), nearestNeighbors, originalPosition, k)
    {
      var maxHeap := new SortedList();
      FindKNearest(root, ModelOf(root), originalPosition, 0, k, maxHeap);
      nearestNeighbors := [];
      for i := 0 to |maxHeap.values|
        invariant nearestNeighbors == maxHeap.values[..i]
      {
        nearestNeighbors := nearestNeighbors + [maxHeap.values[i]];
      }
      assert nearestNeighbors == maxHeap.values;
      if root != null {
        KNearestIsNearest(ModelOf(root), originalPosition, k);
        BagOfInOrder(ModelOf(root));
      }
    }

    /**
     * FindKNearest: offers the node's point to the candidate list, searches
     * the target's side of the splitting plane, then the other side while
     * the list's last key is strictly above the squared plane distance or
     * the list is short. The list ends as KNearest says.
     */
    static method FindKNearest(node: KDNode?, ghost tree: Tree, target: Vector3, depth: nat, k: int, maxHeap: SortedList)
      requires ValidNode(node) && tree == ModelOf(node) && maxHeap.Valid()
      requires node == null || (1 <= k && |maxHeap.keys| <= k)
      modifies maxHeap
      decreases Footprint(node), 1
      ensures maxHeap.Valid()
      ensures node == null ==> maxHeap.keys == old(maxHeap.keys) && maxHeap.values == old(maxHeap.values)
      ensures node != null ==>
        var r := KNearest(tree, target, depth, k, old(maxHeap.keys), old(maxHeap.values));
        maxHeap.keys == r.0 && maxHeap.values == r.1
    {
      if node == null {
        return;
      }
      var axis := depth % 3;
      var delta := Get(target, axis) - Get(node.point, axis);
      var first := if delta < 0.0 then node.left else node.right;
      var second := if delta < 0.0 then node.right else node.left;
      Children(node, target, depth, first, second);
      ghost var keys0, values0 := maxHeap.keys, maxHeap.values;
      var nodeDist := SqDist(node.point, target);
      Offer(maxHeap, k, nodeDist, node.point);
      ghost var offered := (maxHeap.keys, maxHeap.values);
      FindKNearest(first, NearSubtree(tree, target, depth), target, depth + 1, k, maxHeap);
      ghost var afterNear := (maxHeap.keys, maxHeap.values);
      KNearestNode(tree, target, depth, k, keys0, values0, offered, afterNear);
      SearchFarSide(node, tree, target, depth, k, delta, second, maxHeap);
    }

    /** The tail of FindKNearest: the far child is searched only when the plane is close enough or the list is short. */
    static method SearchFarSide(node: KDNode, ghost tree: Tree, target: Vector3, depth: nat, k: int, delta: real, second: KDNode?, maxHeap: SortedList)
      requires node.Valid() && tree == node.Model && maxHeap.Valid()
      requires delta == Get(target, depth % 3) - Get(node.point, depth % 3)
      requires second == (if delta < 0.0 then node.right else node.left)
      requires 1 <= k && 1 <= |maxHeap.keys| <= k
      modifies maxHeap
      decreases node.Repr, 0
      ensures maxHeap.Valid()
      ensures tree.Node? && (maxHeap.keys, maxHeap.values) == FarSearch(tree, target, depth, k, old(maxHeap.keys), old(maxHeap.values))
    {
      var first := if delta < 0.0 then node.left else node.right;
      Children(node, target, depth, first, second);
      if Square(delta) < maxHeap.LastKey() || maxHeap.Count() < k {
        FindKNearest(second, FarSubtree(tree, target, depth), target, depth + 1, k, maxHeap);
      }
    }

    /**
     * The near and far children of a valid node: well formed, strictly
     * inside its footprint, and the near and far subtrees of its value.
     */
    static lemma Children(node: KDNode, target: Vector3, depth: nat, first: KDNode?, second: KDNode?)
      requires node.Valid()
      requires first == (if Get(target, depth % 3) - Get(node.point, depth % 3) < 0.0 then node.left else node.right)
      requires second == (if Get(target, depth % 3) - Get(node.point, depth % 3) < 0.0 then node.right else node.left)
      ensures ValidNode(first) && ValidNode(second)
      ensures Footprint(first) < node.Repr && Footprint(second) < node.Repr
      ensures node.Model.Node? && node.Model.point == node.point
      ensures ModelOf(first) == NearSubtree(node.Model, target, depth)
      ensures ModelOf(second) == FarSubtree(node.Model, target, depth)
    {
    }

    /**
     * The candidate-list update of one FindKNearest step: add the point
     * while fewer than k are held, otherwise replace the last (farthest)
     * entry when the point is strictly closer, otherwise leave the list.
     */
    static method Offer(maxHeap: SortedList, k: int, nodeDist: real, point: Vector3)
      requires maxHeap.Valid() && 1 <= k && |maxHeap.keys| <= k
      modifies maxHeap
      ensures maxHeap.Valid()
      ensures (maxHeap.keys, maxHeap.values) == Offered(old(maxHeap.keys), old(maxHeap.values), k, nodeDist, point)
    {
      OfferedAsSteps(maxHeap.keys, maxHeap.values, k, nodeDist, point);
      if maxHeap.Count() < k {
        maxHeap.Add(nodeDist, point);
      } else if nodeDist < maxHeap.LastKey() {
        ghost var keys0, values0 := maxHeap.keys, maxHeap.values;
        maxHeap.RemoveAt(maxHeap.Count() - 1);
        assert maxHeap.keys == keys0[..k - 1] && maxHeap.values == values0[..k - 1];
        maxHeap.Add(nodeDist, point);
      }
    }

    /**
     * Rearranges points[left..right] so that slot k holds an element of
     * rank k along `axis`: nothing before it is larger, nothing after it
     * smaller. The program reassigns its `left`/`right` parameters; here
     * they are the locals `lo`/`hi`.
     */
    static method QuickSelect(points: array<Vector3>, left: int, right: int, k: int, axis: int)
      requires 0 <= left <= k <= right < points.Length && 0 <= axis < 3
      modifies points
      ensures Permuted(old(points[..]), points[..], left, right + 1)
      ensures forall i :: left <= i < k ==> Get(points[i], axis) <= Get(points[k], axis)
      ensures forall i :: k < i <= right ==> Get(points[k], axis) <= Get(points[i], axis)
    {
      var lo, hi := left, right;
      while lo < hi
        invariant left <= lo <= k <= hi <= right
        invariant Permuted(old(points[..]), points[..], left, right + 1)
        invariant SplitAt(points[..], left, lo, right, axis)
        invariant SplitAt(points[..], left, hi + 1, right, axis)
        decreases hi - lo
      {
        ghost var before := points[..];
        var pivotIndex := Partition(points, lo, hi, axis);
        PartitionStep(old(points[..]), before, points[..], left, lo, pivotIndex, hi, right, axis);
        if pivotIndex == k {
          break;  // the program returns here; nothing follows the loop
        }
        if pivotIndex > k {
          hi := pivotIndex - 1;
        } else {
          lo := pivotIndex + 1;
        }
      }
      SplitRank(points[..], left, k, right, axis);
    }
  }
}
