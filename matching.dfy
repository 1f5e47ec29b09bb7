/**
 * The matching pass of MatrixVisualizer: for every model matrix, try every
 * integer offset of the cube [-maxOffset, maxOffset]^3, ask the KD-tree of
 * the space positions for the nearest neighbour of the shifted model
 * position, and record a match when that neighbour is not the zero vector
 * and lies within the tolerance on every axis. Then count the model
 * matrices whose position received no match.
 *
 * The pass is specified by the sequence of matches it appends, built in the
 * order the loops visit the offsets: model by model, then by dx, dy and dz
 * ascending.
 */
module Matching {
  import opened Vectors
  import opened Options
  import opened Matrices
  import opened KdNodes
  import opened KdTrees

  /** A recorded match: the model position, the space point it met, and the offset used. */
  datatype MatrixMatch = MatrixMatch(modelPosition: Vector3, spacePosition: Vector3, offset: Vector3)

  /** The integer offset (dx, dy, dz) as a vector. */
  function OffsetVector(dx: int, dy: int, dz: int): Vector3 {
    Vector3(dx as real, dy as real, dz as real)
  }

  /** `position` moved by the integer offset (dx, dy, dz). */
  function ApplyOffset(position: Vector3, dx: int, dy: int, dz: int): (shifted: Vector3)
    ensures Sub(shifted, position) == OffsetVector(dx, dy, dz)
  {
    Vector3(position.x + dx as real, position.y + dy as real, position.z + dz as real)
  }

  /** Moving back by the opposite offset restores the position. */
  lemma ApplyOffsetInverse(position: Vector3, dx: int, dy: int, dz: int)
    ensures ApplyOffset(ApplyOffset(position, dx, dy, dz), -dx, -dy, -dz) == position
  {
  }

  /**
   * The two positions differ by strictly less than `tolerance` on each
   * axis. Positions that pass are closer than sqrt(3) * tolerance, and
   * nothing passes unless the tolerance is positive.
   */
  function MatricesAreEqual(tolerance: real, pos1: Vector3, pos2: Vector3): (equal: bool)
    ensures equal ==> 0.0 < tolerance && SqDist(pos1, pos2) < 3.0 * Square(tolerance)
  {
    if Abs(pos1.x - pos2.x) < tolerance && Abs(pos1.y - pos2.y) < tolerance && Abs(pos1.z - pos2.z) < tolerance then
      SquareBelow(pos1.x - pos2.x, tolerance);
      SquareBelow(pos1.y - pos2.y, tolerance);
      SquareBelow(pos1.z - pos2.z, tolerance);
      true
    else
      false
  }

  /**
   * The test is strict, so no pair passes when the tolerance is not positive,
   * and it does not depend on the order of its arguments.
   */
  lemma MatricesAreEqualProperties(tolerance: real, pos1: Vector3, pos2: Vector3)
    ensures tolerance <= 0.0 ==> !MatricesAreEqual(tolerance, pos1, pos2)
    ensures MatricesAreEqual(tolerance, pos1, pos2) == MatricesAreEqual(tolerance, pos2, pos1)
    ensures MatricesAreEqual(tolerance, pos1, pos1) <==> 0.0 < tolerance
  {
  }

  /** The number of values in [-maxOffset, maxOffset]; none when maxOffset is negative. */
  function Width(maxOffset: int): (w: nat)
    ensures w == 0 <==> maxOffset < 0
  {
    if maxOffset >= 0 then 2 * maxOffset + 1 else 0
  }

  /**
   * The answer of GetNearestNeighbor on a tree whose nodes hold `t`, as a
   * function of the query position. The sweep never queries an empty tree,
   * so the value given for one is never consulted.
   */
  ghost function TreeQuery(t: Tree): Vector3 -> Vector3 {
    p => if t.Node? then NearestIn(t, p, 0, t.point) else Zero
  }

  /**
   * `nearest` gives the tree's answer for every position. The quantifier
   * is only instantiated at the tree's own search, so the sweep's
   * specification below stays a statement about `nearest` alone.
   */
  ghost predicate Answers(nearest: Vector3 -> Vector3, t: Tree) {
    t.Node? && forall p {:trigger NearestIn(t, p, 0, t.point)} :: nearest(p) == NearestIn(t, p, 0, t.point)
  }

  lemma TreeQueryAnswers(t: Tree)
    requires t.Node?
    ensures Answers(TreeQuery(t), t)
  {
  }

  /**
   * On a KD-ordered tree, the answer is one of the tree's points and no
   * point of the tree is strictly closer to the query position.
   */
  lemma TreeQueryIsNearest(t: Tree, p: Vector3)
    requires t.Node? && KdOrdered(t, 0)
    ensures TreeQuery(t)(p) in InOrder(t)
    ensures forall q | q in InOrder(t) :: SqDist(TreeQuery(t)(p), p) <= SqDist(q, p)
  {
    NearestInIsNearest(t, p, 0, t.point);
    assert t.point in InOrder(t);
  }

  /**
   * The acceptance test of one offset: the neighbour of the shifted
   * position is not the zero vector and is within tolerance of it. A zero
   * neighbour or a tolerance that is not positive is never accepted, and an
   * accepted neighbour is closer than sqrt(3) * tolerance.
   */
  ghost function Accepted(nearest: Vector3 -> Vector3, tolerance: real, origin: Vector3, dx: int, dy: int, dz: int): (accepted: bool)
    ensures tolerance <= 0.0 ==> !accepted
    ensures nearest(ApplyOffset(origin, dx, dy, dz)) == Zero ==> !accepted
    ensures accepted ==> SqDist(ApplyOffset(origin, dx, dy, dz), nearest(ApplyOffset(origin, dx, dy, dz))) < 3.0 * Square(tolerance)
  {
    var nearestNeighbor := nearest(ApplyOffset(origin, dx, dy, dz));
    nearestNeighbor != Zero && MatricesAreEqual(tolerance, ApplyOffset(origin, dx, dy, dz), nearestNeighbor)
  }

  /** What one offset contributes: its match if accepted, nothing otherwise. */
  ghost function Candidate(nearest: Vector3 -> Vector3, tolerance: real, origin: Vector3, dx: int, dy: int, dz: int): seq<MatrixMatch>
  {
    if Accepted(nearest, tolerance, origin, dx, dy, dz)
    then [MatrixMatch(origin, nearest(ApplyOffset(origin, dx, dy, dz)), OffsetVector(dx, dy, dz))]
    else []
  }

  /**
   * The matches of the values of dz from -maxOffset up to, but not
   * including, `upTo`, in ascending order, for fixed dx and dy.
   */
  ghost function DzRow(nearest: Vector3 -> Vector3, tolerance: real, maxOffset: int, origin: Vector3, dx: int, dy: int, upTo: int): seq<MatrixMatch>
    decreases upTo + maxOffset
  {
    if upTo <= -maxOffset then []
    else
      DzRow(nearest, tolerance, maxOffset, origin, dx, dy, upTo - 1)
      + Candidate(nearest, tolerance, origin, dx, dy, upTo - 1)
  }

  /** The matches of the values of dy from -maxOffset up to `upTo`, each with every dz, for fixed dx. */
  ghost function DyPlane(nearest: Vector3 -> Vector3, tolerance: real, maxOffset: int, origin: Vector3, dx: int, upTo: int): seq<MatrixMatch>
    decreases upTo + maxOffset
  {
    if upTo <= -maxOffset then []
    else
      DyPlane(nearest, tolerance, maxOffset, origin, dx, upTo - 1)
      + DzRow(nearest, tolerance, maxOffset, origin, dx, upTo - 1, maxOffset + 1)
  }

  /** The matches of the values of dx from -maxOffset up to `upTo`, each with every dy and dz. */
  ghost function DxCube(nearest: Vector3 -> Vector3, tolerance: real, maxOffset: int, origin: Vector3, upTo: int): seq<MatrixMatch>
    decreases upTo + maxOffset
  {
    if upTo <= -maxOffset then []
    else
      DxCube(nearest, tolerance, maxOffset, origin, upTo - 1)
      + DyPlane(nearest, tolerance, maxOffset, origin, upTo - 1, maxOffset + 1)
  }

  /** All matches of one model position, in the order the offsets are tried. */
  ghost function PointMatches(nearest: Vector3 -> Vector3, tolerance: real, maxOffset: int, origin: Vector3): seq<MatrixMatch>
  {
    DxCube(nearest, tolerance, maxOffset, origin, maxOffset + 1)
  }

  /** All matches of the first `n` model matrices, model by model. */
  ghost function ModelsMatches(nearest: Vector3 -> Vector3, tolerance: real, maxOffset: int, models: seq<Matrix>, n: nat): seq<MatrixMatch>
    requires n <= |models|
  {
    if n == 0 then []
    else
      ModelsMatches(nearest, tolerance, maxOffset, models, n - 1)
      + PointMatches(nearest, tolerance, maxOffset, Position(models[n - 1]))
  }

  /** The model positions that appear in a list of matches. */
  ghost function ModelPositions(matches: seq<MatrixMatch>): set<Vector3> {
    set m | m in matches :: m.modelPosition
  }

  /**
   * What a match of `origin` must be: its offset is an integer vector in the
   * cube, its space position is the tree's nearest neighbour of the shifted
   * position, that neighbour is not the zero vector, and it lies within the
   * tolerance of the shifted position.
   */
  ghost predicate IsMatchFor(nearest: Vector3 -> Vector3, tolerance: real, maxOffset: int, origin: Vector3, m: MatrixMatch)
  {
    var dx, dy, dz := m.offset.x.Floor, m.offset.y.Floor, m.offset.z.Floor;
    && -maxOffset <= dx <= maxOffset && -maxOffset <= dy <= maxOffset && -maxOffset <= dz <= maxOffset
    && m.offset == OffsetVector(dx, dy, dz)
    && m.modelPosition == origin
    && m.spacePosition == nearest(ApplyOffset(origin, dx, dy, dz))
    && m.spacePosition != Zero
    && MatricesAreEqual(tolerance, ApplyOffset(origin, dx, dy, dz), m.spacePosition)
  }

  /** `m` is the match of `origin` at its own offset, and that offset is accepted. */
  ghost predicate MatchAt(nearest: Vector3 -> Vector3, tolerance: real, origin: Vector3, m: MatrixMatch)
  {
    var dx, dy, dz := m.offset.x.Floor, m.offset.y.Floor, m.offset.z.Floor;
    && Accepted(nearest, tolerance, origin, dx, dy, dz)
    && m == MatrixMatch(origin, nearest(ApplyOffset(origin, dx, dy, dz)), OffsetVector(dx, dy, dz))
  }

  lemma {:induction false} DzRowMembers(nearest: Vector3 -> Vector3, tolerance: real, maxOffset: int, origin: Vector3, dx: int, dy: int, upTo: int, m: MatrixMatch)
    decreases upTo + maxOffset
    ensures m in DzRow(nearest, tolerance, maxOffset, origin, dx, dy, upTo) <==>
      && MatchAt(nearest, tolerance, origin, m)
      && m.offset.x.Floor == dx && m.offset.y.Floor == dy
      && -maxOffset <= m.offset.z.Floor < upTo
  {
    if upTo > -maxOffset {
      DzRowMembers(nearest, tolerance, maxOffset, origin, dx, dy, upTo - 1, m);
    }
  }

  lemma {:induction false} DyPlaneMembers(nearest: Vector3 -> Vector3, tolerance: real, maxOffset: int, origin: Vector3, dx: int, upTo: int, m: MatrixMatch)
    decreases upTo + maxOffset
    ensures m in DyPlane(nearest, tolerance, maxOffset, origin, dx, upTo) <==>
      && MatchAt(nearest, tolerance, origin, m)
      && m.offset.x.Floor == dx
      && -maxOffset <= m.offset.y.Floor < upTo
      && -maxOffset <= m.offset.z.Floor <= maxOffset
  {
    if upTo > -maxOffset {
      var before := DyPlane(nearest, tolerance, maxOffset, origin, dx, upTo - 1);
      var row := DzRow(nearest, tolerance, maxOffset, origin, dx, upTo - 1, maxOffset + 1);
      assert m in before + row <==> m in before || m in row;
      DyPlaneMembers(nearest, tolerance, maxOffset, origin, dx, upTo - 1, m);
      DzRowMembers(nearest, tolerance, maxOffset, origin, dx, upTo - 1, maxOffset + 1, m);
    }
  }

  lemma {:induction false} DxCubeMembers(nearest: Vector3 -> Vector3, tolerance: real, maxOffset: int, origin: Vector3, upTo: int, m: MatrixMatch)
    decreases upTo + maxOffset
    ensures m in DxCube(nearest, tolerance, maxOffset, origin, upTo) <==>
      && MatchAt(nearest, tolerance, origin, m)
      && -maxOffset <= m.offset.x.Floor < upTo
      && -maxOffset <= m.offset.y.Floor <= maxOffset
      && -maxOffset <= m.offset.z.Floor <= maxOffset
  {
    if upTo > -maxOffset {
      var before := DxCube(nearest, tolerance, maxOffset, origin, upTo - 1);
      var plane := DyPlane(nearest, tolerance, maxOffset, origin, upTo - 1, maxOffset + 1);
      assert m in before + plane <==> m in before || m in plane;
      DxCubeMembers(nearest, tolerance, maxOffset, origin, upTo - 1, m);
      DyPlaneMembers(nearest, tolerance, maxOffset, origin, upTo - 1, maxOffset + 1, m);
    }
  }

  /**
   * Soundness and completeness of the sweep over one model position: a
   * match is recorded exactly when it is a match for that position in the
   * sense of IsMatchFor (offset in the cube, nearest neighbour, non-zero,
   * within tolerance).
   */
  lemma PointMatchesExactly(nearest: Vector3 -> Vector3, tolerance: real, maxOffset: int, origin: Vector3, m: MatrixMatch)
    ensures m in PointMatches(nearest, tolerance, maxOffset, origin) <==> IsMatchFor(nearest, tolerance, maxOffset, origin, m)
  {
    DxCubeMembers(nearest, tolerance, maxOffset, origin, maxOffset + 1, m);
  }

  /**
   * Completeness by offset: every accepted offset of the cube yields its
   * match, with the nearest neighbour as space position.
   */
  lemma AcceptedOffsetIsRecorded(nearest: Vector3 -> Vector3, tolerance: real, maxOffset: int, origin: Vector3, dx: int, dy: int, dz: int)
    requires -maxOffset <= dx <= maxOffset && -maxOffset <= dy <= maxOffset && -maxOffset <= dz <= maxOffset
    requires Accepted(nearest, tolerance, origin, dx, dy, dz)
    ensures MatrixMatch(origin, nearest(ApplyOffset(origin, dx, dy, dz)), OffsetVector(dx, dy, dz))
      in PointMatches(nearest, tolerance, maxOffset, origin)
  {
    PointMatchesExactly(nearest, tolerance, maxOffset, origin,
      MatrixMatch(origin, nearest(ApplyOffset(origin, dx, dy, dz)), OffsetVector(dx, dy, dz)));
  }

  /**
   * The zero vector is a "not found" answer: an offset whose nearest
   * neighbour is the origin is never recorded, however close it is.
   */
  lemma ZeroNeighbourRejected(nearest: Vector3 -> Vector3, tolerance: real, maxOffset: int, origin: Vector3, dx: int, dy: int, dz: int)
    requires nearest(ApplyOffset(origin, dx, dy, dz)) == Zero
    ensures forall m | m in PointMatches(nearest, tolerance, maxOffset, origin) :: m.offset != OffsetVector(dx, dy, dz)
  {
    forall m | m in PointMatches(nearest, tolerance, maxOffset, origin)
      ensures m.offset != OffsetVector(dx, dy, dz)
    {
      PointMatchesExactly(nearest, tolerance, maxOffset, origin, m);
    }
  }

  lemma {:induction false} DzRowBound(nearest: Vector3 -> Vector3, tolerance: real, maxOffset: int, origin: Vector3, dx: int, dy: int, upTo: int)
    requires -maxOffset <= upTo
    decreases upTo + maxOffset
    ensures |DzRow(nearest, tolerance, maxOffset, origin, dx, dy, upTo)| <= upTo + maxOffset
  {
    if upTo > -maxOffset {
      DzRowBound(nearest, tolerance, maxOffset, origin, dx, dy, upTo - 1);
    }
  }

  lemma {:induction false} DyPlaneBound(nearest: Vector3 -> Vector3, tolerance: real, maxOffset: int, origin: Vector3, dx: int, upTo: int)
    requires -maxOffset <= upTo <= maxOffset + 1
    decreases upTo + maxOffset
    ensures |DyPlane(nearest, tolerance, maxOffset, origin, dx, upTo)| <= (upTo + maxOffset) * Width(maxOffset)
  {
    if upTo > -maxOffset {
      var w := Width(maxOffset);
      DyPlaneBound(nearest, tolerance, maxOffset, origin, dx, upTo - 1);
      DzRowBound(nearest, tolerance, maxOffset, origin, dx, upTo - 1, maxOffset + 1);
      assert (upTo - 1 + maxOffset) * w + w == (upTo + maxOffset) * w;
    }
  }

  lemma {:induction false} DxCubeBound(nearest: Vector3 -> Vector3, tolerance: real, maxOffset: int, origin: Vector3, upTo: int)
    requires -maxOffset <= upTo <= maxOffset + 1
    decreases upTo + maxOffset
    ensures |DxCube(nearest, tolerance, maxOffset, origin, upTo)| <= (upTo + maxOffset) * (Width(maxOffset) * Width(maxOffset))
  {
    if upTo > -maxOffset {
      var w := Width(maxOffset);
      DxCubeBound(nearest, tolerance, maxOffset, origin, upTo - 1);
      DyPlaneBound(nearest, tolerance, maxOffset, origin, upTo - 1, maxOffset + 1);
      assert (upTo - 1 + maxOffset) * (w * w) + w * w == (upTo + maxOffset) * (w * w);
    }
  }

  /** No early exit, one match per accepted offset: at most (2 maxOffset + 1)^3 matches per model. */
  lemma PointMatchesBound(nearest: Vector3 -> Vector3, tolerance: real, maxOffset: int, origin: Vector3)
    ensures |PointMatches(nearest, tolerance, maxOffset, origin)| <= Width(maxOffset) * Width(maxOffset) * Width(maxOffset)
  {
    var w := Width(maxOffset);
    if maxOffset >= 0 {
      DxCubeBound(nearest, tolerance, maxOffset, origin, maxOffset + 1);
      assert w * (w * w) == w * w * w;
    }
  }

  /** The positions of the first `n` model matrices. */
  ghost function FirstPositions(models: seq<Matrix>, n: nat): set<Vector3>
    requires n <= |models|
  {
    if n == 0 then {} else FirstPositions(models, n - 1) + {Position(models[n - 1])}
  }

  /**
   * Soundness of the whole pass: every match recorded for the first `n`
   * models belongs to one of their positions and is a match for it.
   */
  lemma {:induction false} ModelsMatchesSound(nearest: Vector3 -> Vector3, tolerance: real, maxOffset: int, models: seq<Matrix>, n: nat, m: MatrixMatch)
    requires n <= |models|
    requires m in ModelsMatches(nearest, tolerance, maxOffset, models, n)
    ensures m.modelPosition in FirstPositions(models, n)
    ensures IsMatchFor(nearest, tolerance, maxOffset, m.modelPosition, m)
  {
    var origin := Position(models[n - 1]);
    if m in PointMatches(nearest, tolerance, maxOffset, origin) {
      PointMatchesExactly(nearest, tolerance, maxOffset, origin, m);
    } else {
      ModelsMatchesSound(nearest, tolerance, maxOffset, models, n - 1, m);
    }
  }

  /** The model positions of one model's matches: its own position if it has any match, else none. */
  lemma PointMatchesPositions(nearest: Vector3 -> Vector3, tolerance: real, maxOffset: int, origin: Vector3)
    ensures ModelPositions(PointMatches(nearest, tolerance, maxOffset, origin)) ==
      if |PointMatches(nearest, tolerance, maxOffset, origin)| > 0 then {origin} else {}
  {
    var matches := PointMatches(nearest, tolerance, maxOffset, origin);
    if |matches| > 0 {
      forall m | m in matches
        ensures m.modelPosition == origin
      {
        PointMatchesExactly(nearest, tolerance, maxOffset, origin, m);
      }
      assert matches[0] in matches;
    }
  }

  /**
   * The positions the pass marks, model by model: a model's position is
   * added when its own sweep recorded at least one match.
   */
  ghost function MarkedPositions(nearest: Vector3 -> Vector3, tolerance: real, maxOffset: int, models: seq<Matrix>, n: nat): set<Vector3>
    requires n <= |models|
  {
    if n == 0 then {}
    else
      MarkedPositions(nearest, tolerance, maxOffset, models, n - 1)
      + (if |PointMatches(nearest, tolerance, maxOffset, Position(models[n - 1]))| > 0 then {Position(models[n - 1])} else {})
  }

  /**
   * A position is marked after the first `n` models exactly when it is the
   * position of one of them and its sweep accepts some offset of the cube.
   */
  lemma {:induction false} MatchedExactly(nearest: Vector3 -> Vector3, tolerance: real, maxOffset: int, models: seq<Matrix>, n: nat, p: Vector3)
    requires n <= |models|
    ensures p in MarkedPositions(nearest, tolerance, maxOffset, models, n) <==>
      p in FirstPositions(models, n) && |PointMatches(nearest, tolerance, maxOffset, p)| > 0
  {
    if n > 0 {
      MatchedExactly(nearest, tolerance, maxOffset, models, n - 1, p);
    }
  }

  /** With a tolerance that is not positive nothing ever matches. */
  lemma {:induction false} NoMatchesWithoutTolerance(nearest: Vector3 -> Vector3, tolerance: real, maxOffset: int, models: seq<Matrix>, n: nat)
    requires n <= |models|
    requires tolerance <= 0.0
    ensures ModelsMatches(nearest, tolerance, maxOffset, models, n) == []
  {
    if n > 0 {
      NoMatchesWithoutTolerance(nearest, tolerance, maxOffset, models, n - 1);
      var matches := PointMatches(nearest, tolerance, maxOffset, Position(models[n - 1]));
      if |matches| > 0 {
        PointMatchesExactly(nearest, tolerance, maxOffset, Position(models[n - 1]), matches[0]);
        assert false;
      }
    }
  }

  /** Every model's position is among the first n positions once n covers it. */
  lemma {:induction false} FirstPositionsHold(models: seq<Matrix>, n: nat, i: int)
    requires 0 <= i < n <= |models|
    ensures Position(models[i]) in FirstPositions(models, n)
  {
    if i < n - 1 {
      FirstPositionsHold(models, n - 1, i);
    }
  }

  /**
   * After one pass over all models, the unmatched count is zero exactly
   * when every model has a match at some offset, and it is the number of
   * models exactly when none has.
   */
  lemma UnmatchedAfterPass(nearest: Vector3 -> Vector3, tolerance: real, maxOffset: int, models: seq<Matrix>)
    ensures var marked := MarkedPositions(nearest, tolerance, maxOffset, models, |models|);
      && (UnmatchedCount(models, marked) == 0 <==>
            forall i :: 0 <= i < |models| ==> |PointMatches(nearest, tolerance, maxOffset, Position(models[i]))| > 0)
      && (UnmatchedCount(models, marked) == |models| <==>
            forall i :: 0 <= i < |models| ==> |PointMatches(nearest, tolerance, maxOffset, Position(models[i]))| == 0)
  {
    var marked := MarkedPositions(nearest, tolerance, maxOffset, models, |models|);
    forall i | 0 <= i < |models|
      ensures Position(models[i]) in marked <==> |PointMatches(nearest, tolerance, maxOffset, Position(models[i]))| > 0
    {
      FirstPositionsHold(models, |models|, i);
      MatchedExactly(nearest, tolerance, maxOffset, models, |models|, Position(models[i]));
    }
  }

  /** The number of model matrices whose position is not in `matched`. */
  function UnmatchedCount(models: seq<Matrix>, matched: set<Vector3>): (count: nat)
    ensures count <= |models|
    ensures count == 0 <==> forall i :: 0 <= i < |models| ==> Position(models[i]) in matched
    ensures count == |models| <==> forall i :: 0 <= i < |models| ==> Position(models[i]) !in matched
  {
    if |models| == 0 then 0
    else
      UnmatchedCount(models[..|models| - 1], matched)
      + (if Position(models[|models| - 1]) in matched then 0 else 1)
  }

  class MatrixVisualizer {
    /** The offset bound and the tolerance; the inspector defaults are 10 and 0.2. */
    const maxOffset: int
    const tolerance: real
    /** The loader's lists; None stands for a list that failed to load. */
    var modelData: Option<seq<Matrix>>
    var spaceData: Option<seq<Matrix>>
    var spacePositions: seq<Vector3>
    var spaceKdTree: KDTree?
    var matches: seq<MatrixMatch>
    var matchedPositions: set<Vector3>

    constructor (maxOffset: int, tolerance: real, modelData: Option<seq<Matrix>>, spaceData: Option<seq<Matrix>>)
      ensures this.maxOffset == maxOffset && this.tolerance == tolerance
      ensures this.modelData == modelData && this.spaceData == spaceData
      ensures spacePositions == [] && spaceKdTree == null
      ensures matches == [] && matchedPositions == {}
    {
      this.maxOffset := maxOffset;
      this.tolerance := tolerance;
      this.modelData := modelData;
      this.spaceData := spaceData;
      spacePositions := [];
      spaceKdTree := null;
      matches := [];
      matchedPositions := {};
    }

    /**
     * Projects every space matrix to its position and builds the KD-tree
     * over those positions. The program maps over the space list, which
     * must therefore be loaded.
     */
    method BuildKdTree()
      requires spaceData.Some?
      modifies this
      ensures modelData == old(modelData) && spaceData == old(spaceData)
      ensures |spacePositions| == |spaceData.value|
      ensures forall i :: 0 <= i < |spacePositions| ==> spacePositions[i] == Position(spaceData.value[i])
      ensures spaceKdTree != null && fresh(spaceKdTree) && spaceKdTree.Valid()
      ensures multiset(Points(spaceKdTree.root)) == multiset(spacePositions)
      ensures spaceKdTree.root == null <==> |spaceData.value| == 0
      ensures matches == old(matches) && matchedPositions == old(matchedPositions)
    {
      var spaces := spaceData.value;
      var positions := seq(|spaces|, i requires 0 <= i < |spaces| => Position(spaces[i]));
      var tree := new KDTree(positions);
      spacePositions, spaceKdTree := positions, tree;
    }

    /**
     * The pass, run sequentially. With either list missing it records
     * nothing. Otherwise it appends, model by model and offset by offset,
     * the matches ModelsMatches describes, and marks the position of every
     * model that received one. The tree must be built; it must hold a point
     * once any query is made, since a query on an empty tree throws.
     */
    method CompareMatricesWithOffsetsUsingKdTree()
      requires spaceKdTree != null && spaceKdTree.Valid()
      requires modelData.Some? && spaceData.Some? && |modelData.value| > 0 && Width(maxOffset) > 0 ==>
        spaceKdTree.root != null
      modifies this
      ensures modelData == old(modelData) && spaceData == old(spaceData)
      ensures spaceKdTree == old(spaceKdTree) && spacePositions == old(spacePositions)
      ensures modelData.None? || spaceData.None? ==>
        matches == old(matches) && matchedPositions == old(matchedPositions)
      ensures modelData.Some? && spaceData.Some? ==>
        var added := ModelsMatches(TreeQuery(ModelOf(spaceKdTree.root)), tolerance, maxOffset, modelData.value, |modelData.value|);
        && matches == old(matches) + added
        && matchedPositions == old(matchedPositions) + MarkedPositions(TreeQuery(ModelOf(spaceKdTree.root)), tolerance, maxOffset, modelData.value, |modelData.value|)
    {
      if modelData.None? || spaceData.None? {
        return;
      }
      ghost var nearest := TreeQuery(ModelOf(spaceKdTree.root));
      if spaceKdTree.root != null {
        TreeQueryAnswers(ModelOf(spaceKdTree.root));
      }
      var found, marked := MatchModels(spaceKdTree, nearest, tolerance, maxOffset, modelData.value);
      matches := matches + found;
      matchedPositions := matchedPositions + marked;
    }

    /**
     * CheckUnmatchedMatrices: how many model matrices have a position that
     * was never marked as matched. The program counts over the model list,
     * which must therefore be loaded.
     */
    function CheckUnmatchedMatrices(): (unmatchedCount: nat)
      requires modelData.Some?
      reads this
      ensures unmatchedCount <= |modelData.value|
      ensures unmatchedCount == 0 <==>
        forall i :: 0 <= i < |modelData.value| ==> Position(modelData.value[i]) in matchedPositions
      ensures unmatchedCount == |modelData.value| <==>
        forall i :: 0 <= i < |modelData.value| ==> Position(modelData.value[i]) !in matchedPositions
    {
      UnmatchedCount(modelData.value, matchedPositions)
    }
  }

  /**
   * One offset of the sweep: queries the tree for the nearest neighbour of
   * the shifted position and tests it. When accepted, `recorded` is the
   * match the program appends; either way the outcome is the offset's
   * Candidate contribution.
   */
  method TryOffset(tree: KDTree, ghost nearest: Vector3 -> Vector3, tolerance: real, originalPosition: Vector3, dx: int, dy: int, dz: int)
    returns (accepted: bool, recorded: MatrixMatch)
    requires tree.Valid() && tree.root != null && Answers(nearest, ModelOf(tree.root))
    ensures accepted == Accepted(nearest, tolerance, originalPosition, dx, dy, dz)
    ensures Candidate(nearest, tolerance, originalPosition, dx, dy, dz) == if accepted then [recorded] else []
    ensures recorded.modelPosition == originalPosition
  {
    var shiftedPosition := ApplyOffset(originalPosition, dx, dy, dz);
    var nearestNeighbor := tree.GetNearestNeighbor(shiftedPosition);
    accepted := nearestNeighbor != Zero && MatricesAreEqual(tolerance, shiftedPosition, nearestNeighbor);
    recorded := MatrixMatch(originalPosition, nearestNeighbor, OffsetVector(dx, dy, dz));
  }

  /**
   * The innermost loop of the sweep: for fixed dx and dy, tries dz from
   * -maxOffset to maxOffset and keeps one match per accepted offset.
   */
  method MatchRow(tree: KDTree, ghost nearest: Vector3 -> Vector3, tolerance: real, maxOffset: int, originalPosition: Vector3, dx: int, dy: int)
    returns (found: seq<MatrixMatch>, marked: set<Vector3>)
    requires tree.Valid() && (Width(maxOffset) > 0 ==> tree.root != null && Answers(nearest, ModelOf(tree.root)))
    ensures found == DzRow(nearest, tolerance, maxOffset, originalPosition, dx, dy, maxOffset + 1)
    ensures marked == if |found| > 0 then {originalPosition} else {}
  {
    found, marked := [], {};
    var dz := -maxOffset;
    while dz <= maxOffset
      invariant dz == -maxOffset || -maxOffset <= dz <= maxOffset + 1
      invariant found == DzRow(nearest, tolerance, maxOffset, originalPosition, dx, dy, dz)
      invariant marked == if |found| > 0 then {originalPosition} else {}
    {
      var accepted, recorded := TryOffset(tree, nearest, tolerance, originalPosition, dx, dy, dz);
      if accepted {
        found := found + [recorded];
        marked := marked + {originalPosition};
      }
      dz := dz + 1;
    }
  }

  /** The middle loop of the sweep: for fixed dx, every dy with every dz. */
  method MatchPlane(tree: KDTree, ghost nearest: Vector3 -> Vector3, tolerance: real, maxOffset: int, originalPosition: Vector3, dx: int)
    returns (found: seq<MatrixMatch>, marked: set<Vector3>)
    requires tree.Valid() && (Width(maxOffset) > 0 ==> tree.root != null && Answers(nearest, ModelOf(tree.root)))
    ensures found == DyPlane(nearest, tolerance, maxOffset, originalPosition, dx, maxOffset + 1)
    ensures marked == if |found| > 0 then {originalPosition} else {}
  {
    found, marked := [], {};
    var dy := -maxOffset;
    while dy <= maxOffset
      invariant dy == -maxOffset || -maxOffset <= dy <= maxOffset + 1
      invariant found == DyPlane(nearest, tolerance, maxOffset, originalPosition, dx, dy)
      invariant marked == if |found| > 0 then {originalPosition} else {}
    {
      var rowFound, rowMarked := MatchRow(tree, nearest, tolerance, maxOffset, originalPosition, dx, dy);
      found := found + rowFound;
      marked := marked + rowMarked;
      dy := dy + 1;
    }
  }

  /**
   * The body of the per-model loop: tries every offset of the cube in
   * (dx, dy, dz) order and keeps one match per accepted offset, with no
   * early exit.
   */
  method MatchModelPosition(tree: KDTree, ghost nearest: Vector3 -> Vector3, tolerance: real, maxOffset: int, originalPosition: Vector3)
    returns (found: seq<MatrixMatch>, marked: set<Vector3>)
    requires tree.Valid() && (Width(maxOffset) > 0 ==> tree.root != null && Answers(nearest, ModelOf(tree.root)))
    ensures found == PointMatches(nearest, tolerance, maxOffset, originalPosition)
    ensures marked == if |found| > 0 then {originalPosition} else {}
  {
    found, marked := [], {};
    var dx := -maxOffset;
    while dx <= maxOffset
      invariant dx == -maxOffset || -maxOffset <= dx <= maxOffset + 1
      invariant found == DxCube(nearest, tolerance, maxOffset, originalPosition, dx)
      invariant marked == if |found| > 0 then {originalPosition} else {}
    {
      var planeFound, planeMarked := MatchPlane(tree, nearest, tolerance, maxOffset, originalPosition, dx);
      found := found + planeFound;
      marked := marked + planeMarked;
      dx := dx + 1;
    }
  }

  /** The loop over the model matrices: the matches of each model position, model by model. */
  method MatchModels(tree: KDTree, ghost nearest: Vector3 -> Vector3, tolerance: real, maxOffset: int, models: seq<Matrix>)
    returns (found: seq<MatrixMatch>, marked: set<Vector3>)
    requires tree.Valid()
    requires |models| > 0 && Width(maxOffset) > 0 ==> tree.root != null && Answers(nearest, ModelOf(tree.root))
    ensures found == ModelsMatches(nearest, tolerance, maxOffset, models, |models|)
    ensures marked == MarkedPositions(nearest, tolerance, maxOffset, models, |models|)
  {
    found, marked := [], {};
    for i := 0 to |models|
      invariant found == ModelsMatches(nearest, tolerance, maxOffset, models, i)
      invariant marked == MarkedPositions(nearest, tolerance, maxOffset, models, i)
    {
      var originalPosition := Position(models[i]);
      var pointMatches, pointMarked := MatchModelPosition(tree, nearest, tolerance, maxOffset, originalPosition);
      found := found + pointMatches;
      marked := marked + pointMarked;
    }
  }
}
