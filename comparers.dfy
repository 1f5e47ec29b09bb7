/**
 * AxisComparer: an IComparer<Vector3> fixed at construction to one axis,
 * ordering points by float.CompareTo of that coordinate.
 */
module Comparers {
  import opened Vectors

  /** The comparer keeps only the axis it was constructed with; it never changes. */
  datatype AxisComparer = AxisComparer(axis: int)
  {
    /**
     * `a[_axis].CompareTo(b[_axis])`. The indexer throws for an axis other
     * than 0, 1 or 2, so such a comparer can be built but not used.
     */
    function Compare(a: Vector3, b: Vector3): (order: int)
      requires 0 <= axis < 3
      ensures order == -1 || order == 0 || order == 1
      ensures order < 0 <==> Get(a, axis) < Get(b, axis)
      ensures order == 0 <==> Get(a, axis) == Get(b, axis)
      ensures order > 0 <==> Get(a, axis) > Get(b, axis)
    {
      CompareTo(Get(a, axis), Get(b, axis))
    }
  }

  /** Two points that agree on the comparer's axis compare the same against every point. */
  lemma CompareOnlyReadsAxis(c: AxisComparer, a: Vector3, a': Vector3, b: Vector3)
    requires 0 <= c.axis < 3
    requires Get(a, c.axis) == Get(a', c.axis)
    ensures c.Compare(a, b) == c.Compare(a', b) && c.Compare(b, a) == c.Compare(b, a')
  {
  }

  /** Swapping the arguments negates the answer. */
  lemma CompareAntisymmetric(c: AxisComparer, a: Vector3, b: Vector3)
    requires 0 <= c.axis < 3
    ensures c.Compare(a, b) == -c.Compare(b, a)
  {
  }

  /** "At most" is transitive, so the comparer is a total preorder on points. */
  lemma CompareTransitive(c: AxisComparer, a: Vector3, b: Vector3, d: Vector3)
    requires 0 <= c.axis < 3
    requires c.Compare(a, b) <= 0 && c.Compare(b, d) <= 0
    ensures c.Compare(a, d) <= 0
  {
  }

  lemma CompareTotal(c: AxisComparer, a: Vector3, b: Vector3)
    requires 0 <= c.axis < 3
    ensures c.Compare(a, b) <= 0 || c.Compare(b, a) <= 0
  {
  }

  /** Every point compares equal to itself. */
  lemma CompareReflexive(c: AxisComparer, a: Vector3)
    requires 0 <= c.axis < 3
    ensures c.Compare(a, a) == 0
  {
  }
}
