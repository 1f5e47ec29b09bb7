/**
 * The Unity and .NET value primitives the core is written against:
 * Vector3, Vector2, the Vector3 indexer, subtraction, sqrMagnitude,
 * Mathf.Abs and float.CompareTo. Coordinates are exact reals; IEEE
 * rounding is not modelled.
 */
module Vectors {

  datatype Vector3 = Vector3(x: real, y: real, z: real)

  datatype Vector2 = Vector2(x: real, y: real)

  /** Vector3.zero */
  const Zero := Vector3(0.0, 0.0, 0.0)

  /** The implicit Vector2 -> Vector3 conversion of Unity (z becomes 0). */
  function ToVector3(v: Vector2): Vector3 {
    Vector3(v.x, v.y, 0.0)
  }

  /** The indexer `v[axis]`: 0 is x, 1 is y, 2 is z (any other index throws). */
  function Get(v: Vector3, axis: int): real
    requires 0 <= axis < 3
  {
    if axis == 0 then v.x else if axis == 1 then v.y else v.z
  }

  function Sub(a: Vector3, b: Vector3): Vector3 {
    Vector3(a.x - b.x, a.y - b.y, a.z - b.z)
  }

  function Square(r: real): (s: real)
    ensures s >= 0.0
  {
    r * r
  }

  /** Vector3.sqrMagnitude */
  function SqrMagnitude(v: Vector3): (m: real)
    ensures m >= 0.0
  {
    Square(v.x) + Square(v.y) + Square(v.z)
  }

  /** `(a - b).sqrMagnitude`, the squared Euclidean distance the KD-tree ranks by. */
  function SqDist(a: Vector3, b: Vector3): real {
    SqrMagnitude(Sub(a, b))
  }

  /** Mathf.Abs */
  function Abs(r: real): real {
    if r < 0.0 then -r else r
  }

  /** float.CompareTo: -1, 0 or 1. */
  function CompareTo(a: real, b: real): (r: int)
    ensures r == -1 || r == 0 || r == 1
    ensures r < 0 <==> a < b
    ensures r == 0 <==> a == b
  {
    if a < b then -1 else if a > b then 1 else 0
  }

  /** A value strictly inside (-bound, bound) has a square strictly below bound's. */
  lemma SquareBelow(d: real, bound: real)
    requires Abs(d) < bound
    ensures Square(d) < Square(bound)
  {
    var a := Abs(d);
    calc {
      Square(d);
    ==
      a * a;
    <= { ProductMonotone(a, a, bound); }
      a * bound;
    < { assert 0.0 < bound; }
      bound * bound;
    ==
      Square(bound);
    }
  }


  /** Squaring is monotone on the non-negative reals. */
  lemma SquareMonotone(u: real, v: real)
    requires 0.0 <= u <= v
    ensures Square(u) <= Square(v)
  {
    assert u * u <= v * v by {
      ProductMonotone(u, u, v);
      ProductMonotone(v, u, v);
    }
  }

  lemma ProductMonotone(a: real, b: real, c: real)
    requires a >= 0.0 && b <= c
    ensures a * b <= a * c
  {
  }

  /** The squared distance is at least the squared gap on any one axis. */
  lemma SqDistAtLeastAxisGap(a: Vector3, b: Vector3, axis: int)
    requires 0 <= axis < 3
    ensures Square(Get(a, axis) - Get(b, axis)) <= SqDist(a, b)
  {
  }

  /**
   * A point lying on the far side of the plane `Get(_, axis) == Get(split, axis)`
   * from the target is at least the squared plane distance away: the
   * branch-and-bound pruning argument of the KD-tree queries.
   */
  lemma FarSideBound(p: Vector3, split: Vector3, target: Vector3, axis: int)
    requires 0 <= axis < 3
    requires var delta := Get(target, axis) - Get(split, axis);
      (delta < 0.0 && Get(p, axis) >= Get(split, axis)) ||
      (delta >= 0.0 && Get(p, axis) <= Get(split, axis))
    ensures Square(Get(target, axis) - Get(split, axis)) <= SqDist(p, target)
  {
    var delta := Get(target, axis) - Get(split, axis);
    var gap := Get(p, axis) - Get(target, axis);
    if delta < 0.0 {
      SquareMonotone(-delta, gap);
      assert Square(delta) == Square(-delta);
    } else {
      SquareMonotone(delta, -gap);
      assert Square(gap) == Square(-gap);
    }
    SqDistAtLeastAxisGap(p, target, axis);
  }
}
