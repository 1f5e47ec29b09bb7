/**
 * The candidate list of the k-nearest query, as values: what one offer of
 * a point does to it, what a whole FindKNearest search over a subtree
 * value does to it, and the property the search achieves: the list ends
 * up holding k nearest points of everything offered or pruned.
 */
module CandidateLists {
  import opened Vectors
  import opened KdNodes
  import opened SortedLists

  function Min(a: int, b: int): int {
    if a <= b then a else b
  }

  /**
   * A candidate list of the k-nearest query: keys ascending, and each key
   * the squared distance of its value to the target.
   */
  ghost predicate Ranked(keys: seq<real>, values: seq<Vector3>, target: Vector3) {
    && |keys| == |values|
    && Sorted(keys)
    && forall i {:trigger keys[i]} :: 0 <= i < |keys| ==> keys[i] == SqDist(values[i], target)
  }

  /**
   * The candidate list holds k nearest points of `pool` to the target:
   * as many as k allows, all drawn from the pool, ranked, and no point
   * left out of it closer than the last (largest) kept key.
   */
  ghost predicate Selects(pool: multiset<Vector3>, keys: seq<real>, values: seq<Vector3>, target: Vector3, k: int) {
    && Ranked(keys, values, target)
    && |keys| == Min(k, |pool|)
    && multiset(values) <= pool
    && NoneCloser(pool - multiset(values), keys, target)
  }

  /**
   * `result` lists k nearest points of `pool` to the target, nearest
   * first: as many as k allows, all drawn from the pool, in ascending
   * distance, and no point left out closer than the last one listed.
   */
  ghost predicate NearestFirst(pool: multiset<Vector3>, result: seq<Vector3>, target: Vector3, k: int) {
    && |result| == Min(k, |pool|)
    && multiset(result) <= pool
    && (forall i, j :: 0 <= i < j < |result| ==> SqDist(result[i], target) <= SqDist(result[j], target))
    && (forall v {:trigger (pool - multiset(result))[v]} | v in pool - multiset(result) ::
          |result| > 0 && SqDist(result[|result| - 1], target) <= SqDist(v, target))
  }

  /** The values of a list that selects from `pool` are k nearest points of it, nearest first. */
  lemma SelectsNearestFirst(pool: multiset<Vector3>, keys: seq<real>, values: seq<Vector3>, target: Vector3, k: int)
    requires Selects(pool, keys, values, target, k)
    ensures NearestFirst(pool, values, target, k)
  {
    forall i, j | 0 <= i < j < |values| ensures SqDist(values[i], target) <= SqDist(values[j], target) {
      assert keys[i] <= keys[j];
    }
  }

  /** The empty list selects from the empty pool. */
  lemma SelectsEmpty(target: Vector3, k: int)
    requires k >= 0
    ensures Selects(multiset{}, [], [], target, k)
  {
  }

  /** No point of `rest` is closer to the target than the last key of the list. */
  ghost predicate NoneCloser(rest: multiset<Vector3>, keys: seq<real>, target: Vector3) {
    forall v {:trigger rest[v]} | v in rest :: |keys| > 0 && keys[|keys| - 1] <= SqDist(v, target)
  }

  /** Offering more points to a full list after it was built for a pool extends the pool. */
  lemma SelectsTrans(pool: multiset<Vector3>, keys: seq<real>, values: seq<Vector3>,
                     extra: multiset<Vector3>, keys': seq<real>, values': seq<Vector3>, target: Vector3, k: int)
    requires k >= 1
    requires Selects(pool, keys, values, target, k)
    requires Selects(multiset(values) + extra, keys', values', target, k)
    requires |keys| == k ==> keys'[|keys'| - 1] <= keys[|keys| - 1]
    ensures Selects(pool + extra, keys', values', target, k)
  {
    forall v | v in pool + extra - multiset(values')
      ensures |keys'| > 0 && keys'[|keys'| - 1] <= SqDist(v, target)
    {
      if pool[v] > multiset(values)[v] {
        assert v in pool - multiset(values);
        var rest := pool - multiset(values);
        assert pool == multiset(values) + rest;
        assert |rest| > 0 by { assert v in rest; }
        assert |pool| == |multiset(values)| + |rest|;
      } else {
        assert v in multiset(values) + extra - multiset(values');
      }
    }
  }

  /**
   * A full list whose last key is at most `bound`, where no point of `extra`
   * is closer than `bound`, also selects from the pool with `extra` added.
   */
  lemma SelectsPruned(pool: multiset<Vector3>, keys: seq<real>, values: seq<Vector3>,
                      extra: multiset<Vector3>, bound: real, target: Vector3, k: int)
    requires Selects(pool, keys, values, target, k) && |keys| == k >= 1
    requires keys[|keys| - 1] <= bound
    requires forall q {:trigger extra[q]} | q in extra :: bound <= SqDist(q, target)
    ensures Selects(pool + extra, keys, values, target, k)
  {
    forall v | v in pool + extra - multiset(values)
      ensures keys[|keys| - 1] <= SqDist(v, target)
    {
      if v !in extra {
        assert v in pool - multiset(values);
      }
    }
  }

  /** Inserting a point with its own distance as key, where the sorted order puts it, keeps a list ranked. */
  lemma RankedInsert(keys: seq<real>, values: seq<Vector3>, i: int, key: real, value: Vector3, target: Vector3)
    requires Ranked(keys, values, target) && 0 <= i <= |keys| && key == SqDist(value, target)
    requires Sorted(keys[..i] + [key] + keys[i..])
    ensures Ranked(keys[..i] + [key] + keys[i..], values[..i] + [value] + values[i..], target)
  {
    var keys', values' := keys[..i] + [key] + keys[i..], values[..i] + [value] + values[i..];
    forall j | 0 <= j < |keys'| ensures keys'[j] == SqDist(values'[j], target) {
      if j > i {
        assert keys'[j] == keys[j - 1] && values'[j] == values[j - 1];
      }
    }
  }

  lemma InsertMultiset(values: seq<Vector3>, i: int, value: Vector3)
    requires 0 <= i <= |values|
    ensures multiset(values[..i] + [value] + values[i..]) == multiset(values) + multiset{value}
  {
    assert values == values[..i] + values[i..];
  }

  /** Dropping the last entry of a ranked list leaves it ranked. */
  lemma RankedDropLast(keys: seq<real>, values: seq<Vector3>, target: Vector3)
    requires Ranked(keys, values, target) && |keys| > 0
    ensures Ranked(keys[..|keys| - 1], values[..|keys| - 1], target)
    ensures multiset(values) == multiset(values[..|keys| - 1]) + multiset{values[|keys| - 1]}
  {
    assert values == values[..|keys| - 1] + [values[|keys| - 1]];
  }

  /** Offering a point to a list that is not yet full adds it. */
  lemma OfferGrow(keys: seq<real>, values: seq<Vector3>, key: real, value: Vector3,
                  keys': seq<real>, values': seq<Vector3>, target: Vector3, k: int)
    requires Ranked(keys, values, target) && |keys| < k && key == SqDist(value, target)
    requires Sorted(keys')
    requires var i := InsertionIndex(keys, key);
      keys' == keys[..i] + [key] + keys[i..] && values' == values[..i] + [value] + values[i..]
    ensures Selects(multiset(values) + multiset{value}, keys', values', target, k)
  {
    var i := InsertionIndex(keys, key);
    RankedInsert(keys, values, i, key, value, target);
    InsertMultiset(values, i, value);
  }

  /**
   * Offering a point closer than the last one to a full list drops the
   * last entry and inserts the point: the last key does not grow.
   */
  lemma OfferReplace(keys: seq<real>, values: seq<Vector3>, key: real, value: Vector3,
                     keys': seq<real>, values': seq<Vector3>, target: Vector3, k: int)
    requires Ranked(keys, values, target) && |keys| == k >= 1 && key == SqDist(value, target)
    requires key < keys[k - 1]
    requires Sorted(keys')
    requires var i := InsertionIndex(keys[..k - 1], key);
      && keys' == keys[..k - 1][..i] + [key] + keys[..k - 1][i..]
      && values' == values[..k - 1][..i] + [value] + values[..k - 1][i..]
    ensures Selects(multiset(values) + multiset{value}, keys', values', target, k)
    ensures keys'[k - 1] <= keys[k - 1]
  {
    var kept, keptValues := keys[..k - 1], values[..k - 1];
    var i := InsertionIndex(kept, key);
    RankedDropLast(keys, values, target);
    OfferGrow(kept, keptValues, key, value, keys', values', target, k);
    ReplacedLastKey(keys, key, keys', k);
    var pool, dropped := multiset(keptValues) + multiset{value}, multiset{values[k - 1]};
    assert pool + dropped == multiset(values) + multiset{value};
    assert keys[k - 1] == SqDist(values[k - 1], target);
    SelectsPruned(pool, keys', values', dropped, keys[k - 1], target, k);
  }

  /** Dropping the last key of a full sorted list and inserting a smaller one never raises the last key. */
  lemma ReplacedLastKey(keys: seq<real>, key: real, keys': seq<real>, k: int)
    requires Sorted(keys) && |keys| == k >= 1 && key < keys[k - 1]
    requires var i := InsertionIndex(keys[..k - 1], key);
      keys' == keys[..k - 1][..i] + [key] + keys[..k - 1][i..]
    ensures |keys'| == k && keys'[k - 1] <= keys[k - 1]
  {
    var i := InsertionIndex(keys[..k - 1], key);
    if i < k - 1 {
      assert keys'[k - 1] == keys[k - 2];
    }
  }

  /** Offering a point no closer than the last one to a full list leaves it as it is. */
  lemma OfferSkip(keys: seq<real>, values: seq<Vector3>, key: real, value: Vector3, target: Vector3, k: int)
    requires Ranked(keys, values, target) && |keys| == k >= 1 && key == SqDist(value, target)
    requires keys[k - 1] <= key
    ensures Selects(multiset(values) + multiset{value}, keys, values, target, k)
  {
    var pool := multiset(values) + multiset{value};
    assert pool - multiset(values) == multiset{value};
  }

  /**
   * The list after offering one point with key `key`: added while fewer
   * than k entries are held; on a full list, the last entry is removed
   * and the point inserted when its key is strictly smaller than the last
   * key; otherwise the list is unchanged.
   */
  ghost function Offered(keys: seq<real>, values: seq<Vector3>, k: int, key: real, value: Vector3): (r: (seq<real>, seq<Vector3>))
    requires |keys| == |values| && 1 <= k && |keys| <= k
    ensures |r.0| == |r.1| == Min(k, |keys| + 1)
  {
    if |keys| < k then
      Inserted(keys, values, key, value)
    else if key < keys[|keys| - 1] then
      Inserted(keys[..|keys| - 1], values[..|keys| - 1], key, value)
    else
      (keys, values)
  }

  /**
   * SortedList.Add on values: the pair goes in front of the first key at
   * least `key`, that is at its InsertionIndex.
   */
  ghost function Inserted(keys: seq<real>, values: seq<Vector3>, key: real, value: Vector3): (r: (seq<real>, seq<Vector3>))
    requires |keys| == |values|
    ensures |r.0| == |r.1| == |keys| + 1
    decreases |keys|
  {
    if |keys| == 0 || key <= keys[0] then ([key] + keys, [value] + values)
    else
      var rest := Inserted(keys[1..], values[1..], key, value);
      ([keys[0]] + rest.0, [values[0]] + rest.1)
  }

  lemma {:induction false} InsertedAt(keys: seq<real>, values: seq<Vector3>, key: real, value: Vector3)
    requires Sorted(keys) && |keys| == |values|
    ensures var i := InsertionIndex(keys, key);
      Inserted(keys, values, key, value) == (keys[..i] + [key] + keys[i..], values[..i] + [value] + values[i..])
    decreases |keys|
  {
    if |keys| == 0 || key <= keys[0] {
      assert InsertionIndex(keys, key) == 0;
      assert keys[..0] + [key] + keys[0..] == [key] + keys;
      assert values[..0] + [value] + values[0..] == [value] + values;
    } else {
      InsertedAt(keys[1..], values[1..], key, value);
      var i := InsertionIndex(keys[1..], key);
      assert InsertionIndex(keys, key) == i + 1;
      SpliceAfterHead(keys, i, key);
      SpliceAfterHead(values, i, value);
    }
  }

  /** Splicing x in after slot i of a non-empty sequence splices it into the tail at i - 1. */
  lemma SpliceAfterHead<T>(s: seq<T>, i: int, x: T)
    requires 0 <= i < |s|
    ensures s[..i + 1] + [x] + s[i + 1..] == [s[0]] + (s[1..][..i] + [x] + s[1..][i..])
  {
    assert s[..i + 1] == [s[0]] + s[1..][..i];
    assert s[i + 1..] == s[1..][i..];
  }

  /**
   * Offered spelled out as the SortedList operations FindKNearest performs:
   * an Add at the InsertionIndex, a RemoveAt of the last slot followed by
   * an Add, or nothing.
   */
  lemma OfferedAsSteps(keys: seq<real>, values: seq<Vector3>, k: int, key: real, value: Vector3)
    requires Sorted(keys) && |keys| == |values| && 1 <= k && |keys| <= k
    ensures |keys| < k ==> var i := InsertionIndex(keys, key);
      Offered(keys, values, k, key, value) == (keys[..i] + [key] + keys[i..], values[..i] + [value] + values[i..])
    ensures |keys| == k && key < keys[k - 1] ==>
      var kept, keptValues := keys[..k - 1], values[..k - 1];
      var i := InsertionIndex(kept, key);
      Offered(keys, values, k, key, value) == (kept[..i] + [key] + kept[i..], keptValues[..i] + [value] + keptValues[i..])
    ensures |keys| == k && keys[k - 1] <= key ==> Offered(keys, values, k, key, value) == (keys, values)
  {
    if |keys| < k {
      InsertedAt(keys, values, key, value);
    } else if key < keys[k - 1] {
      InsertedAt(keys[..k - 1], values[..k - 1], key, value);
    }
  }

  lemma InsertedSorted(keys: seq<real>, values: seq<Vector3>, key: real, value: Vector3)
    requires Sorted(keys) && |keys| == |values|
    ensures Sorted(Inserted(keys, values, key, value).0)
  {
    InsertedAt(keys, values, key, value);
    InsertSorted(keys, InsertionIndex(keys, key), key);
  }

  lemma InsertSorted(keys: seq<real>, i: nat, key: real)
    requires Sorted(keys) && i == InsertionIndex(keys, key)
    ensures Sorted(keys[..i] + [key] + keys[i..])
  {
  }

  /**
   * One offer makes a ranked list select from its old contents plus the
   * point, and never lets the last key of a full list grow.
   */
  lemma OfferSelectsOwn(keys: seq<real>, values: seq<Vector3>, k: int, value: Vector3, target: Vector3)
    requires Ranked(keys, values, target) && 1 <= k && |keys| <= k
    ensures var r := Offered(keys, values, k, SqDist(value, target), value);
      && Selects(multiset(values) + multiset{value}, r.0, r.1, target, k)
      && (|keys| == k ==> r.0[|r.0| - 1] <= keys[|keys| - 1])
  {
    var key := SqDist(value, target);
    var r := Offered(keys, values, k, key, value);
    if |keys| < k {
      InsertedAt(keys, values, key, value);
      InsertedSorted(keys, values, key, value);
      OfferGrow(keys, values, key, value, r.0, r.1, target, k);
    } else if key < keys[|keys| - 1] {
      InsertedAt(keys[..|keys| - 1], values[..|keys| - 1], key, value);
      InsertedSorted(keys[..|keys| - 1], values[..|keys| - 1], key, value);
      OfferReplace(keys, values, key, value, r.0, r.1, target, k);
    } else {
      OfferSkip(keys, values, key, value, target, k);
    }
  }

  /** One offer to a list that selects from `pool` makes it select from the pool plus the point. */
  lemma OfferSelects(pool: multiset<Vector3>, keys: seq<real>, values: seq<Vector3>, k: int, value: Vector3, target: Vector3)
    requires 1 <= k && Selects(pool, keys, values, target, k)
    ensures |keys| <= k
    ensures var r := Offered(keys, values, k, SqDist(value, target), value);
      Selects(pool + multiset{value}, r.0, r.1, target, k)
  {
    var r := Offered(keys, values, k, SqDist(value, target), value);
    OfferSelectsOwn(keys, values, k, value, target);
    SelectsTrans(pool, keys, values, multiset{value}, r.0, r.1, target, k);
  }

  /**
   * The list after FindKNearest has searched the subtree value `t`, whose
   * root splits on axis `depth % 3`: the root's point is offered, then
   * Descend searches below it.
   */
  ghost function KNearest(t: Tree, target: Vector3, depth: nat, k: int, keys: seq<real>, values: seq<Vector3>): (r: (seq<real>, seq<Vector3>))
    requires |keys| == |values| && 1 <= k && |keys| <= k
    ensures |r.0| == |r.1| && |keys| <= |r.0| <= k
    ensures t == Empty ==> r == (keys, values)
    decreases t, 2
  {
    match t
    case Empty => (keys, values)
    case Node(_, point, _) =>
      var offered := Offered(keys, values, k, SqDist(point, target), point);
      Descend(t, target, depth, k, offered.0, offered.1)
  }

  /** `delta` of FindKNearest: how far the target lies beyond the node's splitting plane. */
  function PlaneGap(t: Tree, target: Vector3, depth: nat): real
    requires t.Node?
  {
    Get(target, depth % 3) - Get(t.point, depth % 3)
  }

  /** The subtree on the target's side of the splitting plane. */
  function NearSubtree(t: Tree, target: Vector3, depth: nat): Tree
    requires t.Node?
  {
    if PlaneGap(t, target, depth) < 0.0 then t.left else t.right
  }

  /** The subtree on the other side of the splitting plane. */
  function FarSubtree(t: Tree, target: Vector3, depth: nat): Tree
    requires t.Node?
  {
    if PlaneGap(t, target, depth) < 0.0 then t.right else t.left
  }

  /** The search below a node whose point has been offered: the near side first, then FarSearch. */
  ghost function Descend(t: Tree, target: Vector3, depth: nat, k: int, keys: seq<real>, values: seq<Vector3>): (r: (seq<real>, seq<Vector3>))
    requires t.Node? && |keys| == |values| && 1 <= k && 1 <= |keys| <= k
    ensures |r.0| == |r.1| && |keys| <= |r.0| <= k
    decreases t, 1
  {
    var afterNear := KNearest(NearSubtree(t, target, depth), target, depth + 1, k, keys, values);
    FarSearch(t, target, depth, k, afterNear.0, afterNear.1)
  }

  /**
   * The far side is searched only while the list is short or the squared
   * distance to the plane is strictly below the last key.
   */
  ghost function FarSearch(t: Tree, target: Vector3, depth: nat, k: int, keys: seq<real>, values: seq<Vector3>): (r: (seq<real>, seq<Vector3>))
    requires t.Node? && |keys| == |values| && 1 <= k && 1 <= |keys| <= k
    ensures |r.0| == |r.1| && |keys| <= |r.0| <= k
    decreases t, 0
  {
    if Square(PlaneGap(t, target, depth)) < keys[|keys| - 1] || |keys| < k then
      KNearest(FarSubtree(t, target, depth), target, depth + 1, k, keys, values)
    else
      (keys, values)
  }

  /**
   * The public k-nearest query: the search of a KD-ordered tree from the
   * root, into an empty list, lists k nearest points of the tree, nearest
   * first.
   */
  lemma KNearestIsNearest(t: Tree, target: Vector3, k: int)
    requires 1 <= k && KdOrdered(t, 0)
    ensures NearestFirst(Bag(t), KNearest(t, target, 0, k, [], []).1, target, k)
  {
    var r := KNearest(t, target, 0, k, [], []);
    SelectsEmpty(target, k);
    KNearestSelects(t, target, 0, k, multiset{}, [], []);
    assert multiset{} + Bag(t) == Bag(t);
    SelectsNearestFirst(Bag(t), r.0, r.1, target, k);
  }

  /**
   * KNearest on a node, spelled out as FindKNearest runs it: the offer,
   * the near search from the offered list, then the far search or not.
   */
  lemma KNearestNode(t: Tree, target: Vector3, depth: nat, k: int, keys: seq<real>, values: seq<Vector3>,
                     offered: (seq<real>, seq<Vector3>), afterNear: (seq<real>, seq<Vector3>))
    requires t.Node? && |keys| == |values| && 1 <= k && |keys| <= k
    requires offered == Offered(keys, values, k, SqDist(t.point, target), t.point)
    requires afterNear == KNearest(NearSubtree(t, target, depth), target, depth + 1, k, offered.0, offered.1)
    ensures 1 <= |afterNear.0| <= k && |afterNear.0| == |afterNear.1|
    ensures KNearest(t, target, depth, k, keys, values) == FarSearch(t, target, depth, k, afterNear.0, afterNear.1)
  {
    assert KNearest(t, target, depth, k, keys, values) == Descend(t, target, depth, k, offered.0, offered.1);
  }

  /**
   * On a KD-ordered subtree the pruning loses nothing: a list that holds
   * k nearest points of `pool` holds, after the search, k nearest points
   * of the pool and the subtree's points together.
   */
  lemma {:induction false} KNearestSelects(t: Tree, target: Vector3, depth: nat, k: int,
                                           pool: multiset<Vector3>, keys: seq<real>, values: seq<Vector3>)
    requires 1 <= k && Selects(pool, keys, values, target, k)
    requires KdOrdered(t, depth)
    ensures |keys| <= k
    ensures var r := KNearest(t, target, depth, k, keys, values);
      Selects(pool + Bag(t), r.0, r.1, target, k)
    decreases t, 2
  {
    if t.Node? {
      OfferSelects(pool, keys, values, k, t.point, target);
      var offered := Offered(keys, values, k, SqDist(t.point, target), t.point);
      DescendSelects(t, target, depth, k, pool + multiset{t.point}, offered.0, offered.1);
      assert pool + multiset{t.point} + Bag(t.left) + Bag(t.right) == pool + Bag(t);
    } else {
      assert pool + Bag(t) == pool;
    }
  }

  /** Descend keeps the selection property, over both subtrees. */
  lemma {:induction false} DescendSelects(t: Tree, target: Vector3, depth: nat, k: int,
                                          pool: multiset<Vector3>, keys: seq<real>, values: seq<Vector3>)
    requires t.Node? && 1 <= k && Selects(pool, keys, values, target, k) && 1 <= |keys|
    requires KdOrdered(t, depth)
    ensures |keys| <= k
    ensures var r := Descend(t, target, depth, k, keys, values);
      Selects(pool + Bag(t.left) + Bag(t.right), r.0, r.1, target, k)
    decreases t, 1
  {
    var near := NearSubtree(t, target, depth);
    KNearestSelects(near, target, depth + 1, k, pool, keys, values);
    var afterNear := KNearest(near, target, depth + 1, k, keys, values);
    FarSearchSelects(t, target, depth, k, pool + Bag(near), afterNear.0, afterNear.1);
    assert pool + Bag(near) + Bag(FarSubtree(t, target, depth)) == pool + Bag(t.left) + Bag(t.right);
  }

  /** FarSearch keeps the selection property, adding the far subtree's points. */
  lemma {:induction false} FarSearchSelects(t: Tree, target: Vector3, depth: nat, k: int,
                                            pool: multiset<Vector3>, keys: seq<real>, values: seq<Vector3>)
    requires t.Node? && 1 <= k && Selects(pool, keys, values, target, k) && 1 <= |keys|
    requires KdOrdered(t, depth)
    ensures |keys| <= k
    ensures var r := FarSearch(t, target, depth, k, keys, values);
      Selects(pool + Bag(FarSubtree(t, target, depth)), r.0, r.1, target, k)
    decreases t, 0
  {
    var far := FarSubtree(t, target, depth);
    if Square(PlaneGap(t, target, depth)) < keys[|keys| - 1] || |keys| < k {
      KNearestSelects(far, target, depth + 1, k, pool, keys, values);
    } else {
      FarSideBag(t, target, depth, far);
      FarSidePruned(t, target, depth, k, far, pool, keys, values);
    }
  }

  /**
   * When the plane is no closer than the last key of a full list, the far
   * subtree holds no point that belongs in it.
   */
  lemma FarSidePruned(t: Tree, target: Vector3, depth: nat, k: int, second: Tree,
                      pool: multiset<Vector3>, keys: seq<real>, values: seq<Vector3>)
    requires t.Node?
    requires forall q {:trigger Bag(second)[q]} | q in Bag(second) ::
      Square(Get(target, depth % 3) - Get(t.point, depth % 3)) <= SqDist(q, target)
    requires Selects(pool, keys, values, target, k) && |keys| == k >= 1
    requires keys[k - 1] <= Square(Get(target, depth % 3) - Get(t.point, depth % 3))
    ensures Selects(pool + Bag(second), keys, values, target, k)
  {
    SelectsPruned(pool, keys, values, Bag(second),
                  Square(Get(target, depth % 3) - Get(t.point, depth % 3)), target, k);
  }

  lemma FarSideBag(t: Tree, target: Vector3, depth: nat, second: Tree)
    requires t.Node? && KdOrdered(t, depth)
    requires second == if Get(target, depth % 3) - Get(t.point, depth % 3) < 0.0 then t.right else t.left
    ensures forall q {:trigger Bag(second)[q]} | q in Bag(second) ::
      Square(Get(target, depth % 3) - Get(t.point, depth % 3)) <= SqDist(q, target)
  {
    FarSide(t, target, depth, second);
    BagOfInOrder(second);
    forall q | q in Bag(second)
      ensures Square(Get(target, depth % 3) - Get(t.point, depth % 3)) <= SqDist(q, target)
    {
      assert q in InOrder(second);
    }
  }
}
