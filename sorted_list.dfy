/**
 * The `SortedList<float, Vector3>` that the k-nearest query keeps, built
 * with a `DuplicateKeyComparer<float>`. Like .NET's SortedList it holds a
 * key sequence in ascending order and a parallel value sequence; Add
 * inserts at the slot its binary search reports, RemoveAt deletes one slot.
 */
module SortedLists {
  import opened Vectors

  /**
   * DuplicateKeyComparer<float>.Compare: float.CompareTo, except that
   * "equal" is reported as "greater", so no two keys ever compare equal.
   */
  function DuplicateKeyCompare(x: real, y: real): (result: int)
    ensures result != 0
    ensures result < 0 <==> x < y
    ensures result > 0 <==> y <= x
  {
    var order := CompareTo(x, y);
    if order == 0 then 1 else order
  }

  ghost predicate Sorted(keys: seq<real>) {
    forall i, j :: 0 <= i < j < |keys| ==> keys[i] <= keys[j]
  }

  /**
   * The slot SortedList.Add fills. Its binary search compares
   * `DuplicateKeyCompare(keys[mid], key)`; that never answers "found", so
   * the search ends at the first key that compares greater, that is the
   * first key at least `key`. A new key therefore goes in front of the
   * keys equal to it.
   */
  function InsertionIndex(keys: seq<real>, key: real): (i: nat)
    requires Sorted(keys)
    ensures i <= |keys|
    ensures forall j :: 0 <= j < i ==> keys[j] < key
    ensures forall j :: i <= j < |keys| ==> key <= keys[j]
  {
    if |keys| == 0 || DuplicateKeyCompare(keys[0], key) > 0 then 0
    else 1 + InsertionIndex(keys[1..], key)
  }

  class SortedList {
    var keys: seq<real>
    var values: seq<Vector3>

    ghost predicate Valid()
      reads this
    {
      |keys| == |values| && Sorted(keys)
    }

    constructor ()
      ensures Valid() && keys == [] && values == []
    {
      keys := [];
      values := [];
    }

    function Count(): nat
      reads this
    {
      |keys|
    }

    /** `Keys.Last()`: the largest key. */
    function LastKey(): real
      requires |keys| > 0
      reads this
    {
      keys[|keys| - 1]
    }

    /**
     * Inserts the pair at its InsertionIndex. Every Add makes a new slot,
     * also when the key is already present: equal keys are never merged.
     */
    method Add(key: real, value: Vector3)
      requires Valid()
      modifies this
      ensures Valid()
      ensures var i := InsertionIndex(old(keys), key);
        && keys == old(keys)[..i] + [key] + old(keys)[i..]
        && values == old(values)[..i] + [value] + old(values)[i..]
    {
      var i := InsertionIndex(keys, key);
      keys := keys[..i] + [key] + keys[i..];
      values := values[..i] + [value] + values[i..];
    }

    /** Deletes slot `index`; the keys stay sorted. */
    method RemoveAt(index: int)
      requires Valid() && 0 <= index < |keys|
      modifies this
      ensures Valid()
      ensures keys == old(keys)[..index] + old(keys)[index + 1..]
      ensures values == old(values)[..index] + old(values)[index + 1..]
    {
      keys := keys[..index] + keys[index + 1..];
      values := values[..index] + values[index + 1..];
    }
  }
}
