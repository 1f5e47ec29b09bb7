/**
 * KDNode: one point of the KD-tree and links to its two subtrees. The
 * links are assigned after construction by SetChildren. Two ghost fields
 * describe the subtree a node heads: `Repr`, the node and every node
 * below it (finite and acyclic), and `Model`, the same
 * subtree as an immutable `Tree` value, on which the KD ordering and the
 * stored points are defined.
 */
module KdNodes {
  import opened Vectors

  /** The value of a (sub)tree: the shape and points the linked nodes hold. */
  datatype Tree = Empty | Node(left: Tree, point: Vector3, right: Tree)

  /** The points stored in a tree, in order: left subtree, root, right subtree. */
  ghost function InOrder(t: Tree): seq<Vector3>
  {
    match t
    case Empty => []
    case Node(l, p, r) => InOrder(l) + [p] + InOrder(r)
  }

  /** The points stored in a tree, as a bag. */
  ghost function Bag(t: Tree): multiset<Vector3>
  {
    match t
    case Empty => multiset{}
    case Node(l, p, r) => Bag(l) + multiset{p} + Bag(r)
  }

  /** The bag of a tree holds exactly the points of its in-order sequence. */
  lemma {:induction false} BagOfInOrder(t: Tree)
    ensures Bag(t) == multiset(InOrder(t))
  {
    match t
    case Empty =>
    case Node(l, p, r) =>
      BagOfInOrder(l);
      BagOfInOrder(r);
      assert multiset(InOrder(l) + [p] + InOrder(r)) == multiset(InOrder(l)) + multiset{p} + multiset(InOrder(r));
  }

  /**
   * The KD ordering invariant of a tree whose root splits on axis
   * `depth % 3`: every point of the left subtree is at most the root's
   * point on that axis, every point of the right subtree at least, and
   * both subtrees satisfy the invariant one level deeper.
   */
  ghost predicate KdOrdered(t: Tree, depth: nat)
  {
    match t
    case Empty => true
    case Node(l, p, r) =>
      && (forall q {:trigger q in InOrder(l)} | q in InOrder(l) :: Get(q, depth % 3) <= Get(p, depth % 3))
      && (forall q {:trigger q in InOrder(r)} | q in InOrder(r) :: Get(p, depth % 3) <= Get(q, depth % 3))
      && KdOrdered(l, depth + 1)
      && KdOrdered(r, depth + 1)
  }

  class KDNode {
    var point: Vector3
    var left: KDNode?
    var right: KDNode?
    ghost var Repr: set<KDNode>
    ghost var Model: Tree

    /**
     * The node heads a finite, acyclic tree whose value is `Model`; its two
     * subtrees share no node, so every node has a single parent.
     */
    ghost predicate Valid()
      reads this, Repr
      decreases Repr
    {
      && this in Repr
      && (left != null ==>
            left in Repr && left.Repr <= Repr && this !in left.Repr && left.Valid())
      && (right != null ==>
            right in Repr && right.Repr <= Repr && this !in right.Repr && right.Valid())
      && (left != null && right != null ==> left.Repr !! right.Repr)
      && Model == Node(ModelOf(left), point, ModelOf(right))
    }

    /** A fresh node is a leaf holding the given point. */
    constructor (point: Vector3)
      ensures Valid() && Repr == {this} && Model == Node(Empty, point, Empty)
      ensures this.point == point && left == null && right == null
    {
      this.point := point;
      left := null;
      right := null;
      Repr := {this};
      Model := Node(Empty, point, Empty);
    }

    /**
     * Links the two subtrees. The node is well formed afterwards whenever
     * the links make a tree: both subtrees well formed, disjoint and not
     * containing this node.
     */
    method SetChildren(left: KDNode?, right: KDNode?)
      modifies this
      ensures this.left == left && this.right == right && point == old(point)
      ensures Repr == {this} + old(Footprint(left) + Footprint(right))
      ensures Model == Node(old(ModelOf(left)), point, old(ModelOf(right)))
      ensures old(ValidNode(left) && ValidNode(right) && Footprint(left) !! Footprint(right)) ==>
                old(this !in Footprint(left) + Footprint(right)) ==> Valid()
    {
      this.left := left;
      this.right := right;
      Repr := {this} + Footprint(left) + Footprint(right);
      Model := Node(ModelOf(left), point, ModelOf(right));
    }
  }

  /** The nodes of the (possibly empty) tree headed by `n`. */
  ghost function Footprint(n: KDNode?): set<KDNode>
    reads n
  {
    if n == null then {} else n.Repr
  }

  /** The value of the (possibly empty) tree headed by `n`. */
  ghost function ModelOf(n: KDNode?): Tree
    reads n
  {
    if n == null then Empty else n.Model
  }

  /** The points stored in the (possibly empty) tree headed by `n`, in order. */
  ghost function Points(n: KDNode?): seq<Vector3>
    reads n
  {
    InOrder(ModelOf(n))
  }

  ghost predicate ValidNode(n: KDNode?)
    reads n, Footprint(n)
  {
    n != null ==> n.Valid()
  }

  /**
   * Every point of the subtree on the far side of a node's splitting
   * plane from the target is at least the squared plane distance away.
   */
  lemma FarSide(t: Tree, target: Vector3, depth: nat, second: Tree)
    requires t.Node? && KdOrdered(t, depth)
    requires second == if Get(target, depth % 3) - Get(t.point, depth % 3) < 0.0 then t.right else t.left
    ensures forall q {:trigger q in InOrder(second)} | q in InOrder(second) ::
      Square(Get(target, depth % 3) - Get(t.point, depth % 3)) <= SqDist(q, target)
  {
    forall q | q in InOrder(second)
      ensures Square(Get(target, depth % 3) - Get(t.point, depth % 3)) <= SqDist(q, target)
    {
      FarSidePoint(t, target, depth, second, q);
    }
  }

  lemma FarSidePoint(t: Tree, target: Vector3, depth: nat, second: Tree, q: Vector3)
    requires t.Node? && KdOrdered(t, depth)
    requires second == if Get(target, depth % 3) - Get(t.point, depth % 3) < 0.0 then t.right else t.left
    requires q in InOrder(second)
    ensures Square(Get(target, depth % 3) - Get(t.point, depth % 3)) <= SqDist(q, target)
  {
    var axis := depth % 3;
    var split := t.point;
    if Get(target, axis) - Get(split, axis) < 0.0 {
      assert Get(split, axis) <= Get(q, axis);
    } else {
      assert Get(q, axis) <= Get(split, axis);
    }
    FarSideBound(q, split, target, axis);
  }
}
