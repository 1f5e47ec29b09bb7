/**
 * Facts about rearranging a slice of the point array, used by the
 * quickselect-based build of the KD-tree: a rearrangement confined to a
 * range, a range "split" at a slot along one axis, and how partition
 * rounds and the two recursive builds keep both.
 */
module Selection {
  import opened Vectors

  /** `t` is `s` with only the slots in [lo, hi) rearranged among themselves. */
  ghost predicate Permuted(s: seq<Vector3>, t: seq<Vector3>, lo: int, hi: int) {
    && |s| == |t|
    && multiset(s) == multiset(t)
    && forall i :: 0 <= i < |s| && !(lo <= i < hi) ==> s[i] == t[i]
  }

  /** The coordinate of slot i along `axis`, the key the build sorts by. */
  function Key(s: seq<Vector3>, i: int, axis: int): real
    requires 0 <= i < |s| && 0 <= axis < 3
  {
    Get(s[i], axis)
  }

  /** Within [left, right], every slot before `m` is at most every slot from `m` on, along `axis`. */
  ghost predicate SplitAt(s: seq<Vector3>, left: int, m: int, right: int, axis: int)
    requires 0 <= axis < 3
  {
    forall i, j {:trigger Key(s, i, axis), Key(s, j, axis)} ::
      left <= i < m <= j <= right && 0 <= i && j < |s| ==> Key(s, i, axis) <= Key(s, j, axis)
  }

  /** The multisets of a range before and after a rearrangement of it agree. */
  lemma PermutedRange(s: seq<Vector3>, t: seq<Vector3>, lo: int, hi: int)
    requires 0 <= lo <= hi <= |s|
    requires Permuted(s, t, lo, hi)
    ensures multiset(s[lo..hi]) == multiset(t[lo..hi])
  {
    MultisetOfThirds(s, lo, hi);
    MultisetOfThirds(t, lo, hi);
    assert s[..lo] == t[..lo];
    assert s[hi..] == t[hi..];
    MultisetCancel(multiset(s[..lo]), multiset(s[lo..hi]), multiset(t[lo..hi]), multiset(s[hi..]));
  }

  lemma MultisetOfThirds(s: seq<Vector3>, lo: int, hi: int)
    requires 0 <= lo <= hi <= |s|
    ensures multiset(s) == multiset(s[..lo]) + multiset(s[lo..hi]) + multiset(s[hi..])
  {
    assert s == s[..lo] + s[lo..hi] + s[hi..];
  }

  lemma MultisetCancel(a: multiset<Vector3>, x: multiset<Vector3>, y: multiset<Vector3>, b: multiset<Vector3>)
    requires a + x + b == a + y + b
    ensures x == y
  {
    forall v ensures x[v] == y[v] {
      assert (a + x + b)[v] == (a + y + b)[v];
    }
  }

  /** Exchanging two slots of a range only rearranges that range. */
  lemma SwapPermutes(s: seq<Vector3>, i: int, j: int, lo: int, hi: int)
    requires lo <= i < hi && lo <= j < hi && 0 <= lo && hi <= |s|
    ensures Permuted(s, s[i := s[j]][j := s[i]], lo, hi)
  {
  }

  lemma PermutedTrans(s: seq<Vector3>, t: seq<Vector3>, u: seq<Vector3>, lo: int, hi: int, lo': int, hi': int)
    requires lo <= lo' && hi' <= hi
    requires Permuted(s, t, lo, hi) && Permuted(t, u, lo', hi')
    ensures Permuted(s, u, lo, hi)
  {
  }

  /** Every value of a range also occurs, at some slot of the same range, before a rearrangement of it. */
  lemma PermutedSource(s: seq<Vector3>, t: seq<Vector3>, lo: int, hi: int, j: int) returns (i: int)
    requires 0 <= lo <= hi <= |s| && Permuted(s, t, lo, hi)
    requires lo <= j < hi
    ensures lo <= i < hi && s[i] == t[j]
  {
    PermutedRange(s, t, lo, hi);
    assert t[j] == t[lo..hi][j - lo];
    assert t[j] in multiset(s[lo..hi]);
    var k :| 0 <= k < hi - lo && s[lo..hi][k] == t[j];
    i := lo + k;
  }

  /** A split point outside the rearranged range [lo, hi] survives the rearrangement. */
  lemma SplitSurvives(s: seq<Vector3>, t: seq<Vector3>, left: int, m: int, right: int, lo: int, hi: int, axis: int)
    requires 0 <= axis < 3
    requires 0 <= left <= lo && hi <= right < |s|
    requires lo <= hi + 1
    requires m <= lo || hi + 1 <= m
    requires Permuted(s, t, lo, hi + 1)
    requires SplitAt(s, left, m, right, axis)
    ensures SplitAt(t, left, m, right, axis)
  {
    forall i, j | left <= i < m <= j <= right && 0 <= i && j < |t|
      ensures Key(t, i, axis) <= Key(t, j, axis)
    {
      var i', j' := i, j;
      if lo <= i <= hi {
        i' := PermutedSource(s, t, lo, hi + 1, i);
      }
      if lo <= j <= hi {
        j' := PermutedSource(s, t, lo, hi + 1, j);
      }
      assert Key(s, i', axis) <= Key(s, j', axis);
    }
  }

  /**
   * After partitioning [lo, hi] around slot p, inside a range already
   * split at lo and at hi + 1, the range is also split at p and at p + 1.
   */
  lemma PartitionSplits(t: seq<Vector3>, left: int, lo: int, p: int, hi: int, right: int, axis: int)
    requires 0 <= axis < 3
    requires 0 <= left <= lo <= p <= hi <= right < |t|
    requires SplitAt(t, left, lo, right, axis) && SplitAt(t, left, hi + 1, right, axis)
    requires forall j :: lo <= j < p ==> Get(t[j], axis) < Get(t[p], axis)
    requires forall j :: p < j <= hi ==> Get(t[p], axis) <= Get(t[j], axis)
    ensures SplitAt(t, left, p, right, axis) && SplitAt(t, left, p + 1, right, axis)
  {
  }

  /**
   * One quickselect round: partitioning [lo, hi] around slot p, inside a
   * range already split at lo and at hi + 1, keeps those splits, adds the
   * splits at p and p + 1, and still only rearranges the whole range.
   */
  lemma PartitionStep(s: seq<Vector3>, before: seq<Vector3>, after: seq<Vector3>,
                      left: int, lo: int, p: int, hi: int, right: int, axis: int)
    requires 0 <= axis < 3
    requires 0 <= left <= lo <= p <= hi <= right < |before|
    requires Permuted(s, before, left, right + 1) && Permuted(before, after, lo, hi + 1)
    requires SplitAt(before, left, lo, right, axis) && SplitAt(before, left, hi + 1, right, axis)
    requires forall j :: lo <= j < p ==> Get(after[j], axis) < Get(after[p], axis)
    requires forall j :: p < j <= hi ==> Get(after[p], axis) <= Get(after[j], axis)
    ensures Permuted(s, after, left, right + 1)
    ensures SplitAt(after, left, lo, right, axis) && SplitAt(after, left, hi + 1, right, axis)
    ensures SplitAt(after, left, p, right, axis) && SplitAt(after, left, p + 1, right, axis)
  {
    SplitSurvives(before, after, left, lo, right, lo, hi, axis);
    SplitSurvives(before, after, left, hi + 1, right, lo, hi, axis);
    PartitionSplits(after, left, lo, p, hi, right, axis);
  }

  /** A range split both just before and just after slot k has slot k at its rank. */
  lemma SplitRank(t: seq<Vector3>, left: int, k: int, right: int, axis: int)
    requires 0 <= axis < 3
    requires 0 <= left <= k <= right < |t|
    requires SplitAt(t, left, k, right, axis) && SplitAt(t, left, k + 1, right, axis)
    ensures forall i :: left <= i < k ==> Get(t[i], axis) <= Get(t[k], axis)
    ensures forall i :: k < i <= right ==> Get(t[k], axis) <= Get(t[i], axis)
  {
    forall i | left <= i <= right
      ensures i < k ==> Get(t[i], axis) <= Get(t[k], axis)
      ensures k < i ==> Get(t[k], axis) <= Get(t[i], axis)
    {
      assert Key(t, i, axis) == Get(t[i], axis) && Key(t, k, axis) == Get(t[k], axis);
    }
  }

  /**
   * Building the two halves of a range one after the other rearranges
   * each half within itself: the whole range is only rearranged, the
   * median slot and the finished left half are untouched by the right
   * build, and the halves stay on the median's two sides along `axis`.
   */
  lemma HalvesPermuted(s: seq<Vector3>, afterLeft: seq<Vector3>, built: seq<Vector3>,
                       start: int, median: int, end: int, axis: int)
    requires 0 <= axis < 3
    requires 0 <= start <= median <= end < |s|
    requires Permuted(s, afterLeft, start, median)
    requires Permuted(afterLeft, built, median + 1, end + 1)
    requires forall i :: start <= i < median ==> Get(s[i], axis) <= Get(s[median], axis)
    requires forall i :: median < i <= end ==> Get(s[median], axis) <= Get(s[i], axis)
    ensures Permuted(s, built, start, end + 1)
    ensures built[start..median] == afterLeft[start..median]
    ensures built[median] == s[median]
    ensures forall i :: start <= i < median ==> Get(built[i], axis) <= Get(built[median], axis)
    ensures forall i :: median < i <= end ==> Get(built[median], axis) <= Get(built[i], axis)
  {
    PermutedRange(s, afterLeft, start, median);
    PermutedRange(afterLeft, built, median + 1, end + 1);
    forall i | start <= i < median ensures Get(built[i], axis) <= Get(built[median], axis) {
      var j := PermutedSource(s, afterLeft, start, median, i);
    }
    forall i | median < i <= end ensures Get(built[median], axis) <= Get(built[i], axis) {
      var j := PermutedSource(afterLeft, built, median + 1, end + 1, i);
    }
  }

  /**
   * A range whose median slot is in place along `axis` is its left half,
   * the median and its right half, and every point of each half lies on
   * its side of the median.
   */
  lemma MedianNode(s: seq<Vector3>, start: int, median: int, end: int, axis: int)
    requires 0 <= axis < 3
    requires 0 <= start <= median <= end < |s|
    requires forall i :: start <= i < median ==> Get(s[i], axis) <= Get(s[median], axis)
    requires forall i :: median < i <= end ==> Get(s[median], axis) <= Get(s[i], axis)
    ensures s[start..end + 1] == s[start..median] + [s[median]] + s[median + 1..end + 1]
    ensures forall q | q in s[start..median] :: Get(q, axis) <= Get(s[median], axis)
    ensures forall q | q in s[median + 1..end + 1] :: Get(s[median], axis) <= Get(q, axis)
  {
    forall q | q in s[start..median] ensures Get(q, axis) <= Get(s[median], axis) {
      var k :| 0 <= k < median - start && s[start..median][k] == q;
      assert s[start + k] == q;
    }
    forall q | q in s[median + 1..end + 1] ensures Get(s[median], axis) <= Get(q, axis) {
      var k :| 0 <= k < end - median && s[median + 1..end + 1][k] == q;
      assert s[median + 1 + k] == q;
    }
  }
}
