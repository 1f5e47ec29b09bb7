/**
 * The 4x4 transform records the matcher reads (`Matrix`, as deserialised)
 * and their compact form `OptimizedMatrix`, which keeps the top three rows.
 * Neither is ever written after it is built, so both are values here.
 */
module Matrices {
  import opened Vectors

  datatype Matrix = Matrix(
    m00: real, m01: real, m02: real, m03: real,
    m10: real, m11: real, m12: real, m13: real,
    m20: real, m21: real, m22: real, m23: real,
    m30: real, m31: real, m32: real, m33: real)

  /** The top three rows of a Matrix; the bottom row m30..m33 has no field here. */
  datatype OptimizedMatrix = OptimizedMatrix(
    m00: real, m01: real, m02: real, m03: real,
    m10: real, m11: real, m12: real, m13: real,
    m20: real, m21: real, m22: real, m23: real)

  /** The translation column (m03, m13, m23): where the matcher places a matrix. */
  function Position(m: Matrix): (p: Vector3)
    ensures p.x == m.m03 && p.y == m.m13 && p.z == m.m23
  {
    Vector3(m.m03, m.m13, m.m23)
  }

  /**
   * The same projection on the compact form, which keeps the translation
   * column: FromMatrixKeepsPosition shows that OptimizedPosition of a
   * converted matrix is Position of the original.
   */
  function OptimizedPosition(m: OptimizedMatrix): (p: Vector3)
    ensures p.x == m.m03 && p.y == m.m13 && p.z == m.m23
  {
    Vector3(m.m03, m.m13, m.m23)
  }

  /** `new OptimizedMatrix(matrix)`: copies the twelve entries of the top three rows. */
  function FromMatrix(matrix: Matrix): (r: OptimizedMatrix)
    ensures r.m00 == matrix.m00 && r.m01 == matrix.m01 && r.m02 == matrix.m02 && r.m03 == matrix.m03
    ensures r.m10 == matrix.m10 && r.m11 == matrix.m11 && r.m12 == matrix.m12 && r.m13 == matrix.m13
    ensures r.m20 == matrix.m20 && r.m21 == matrix.m21 && r.m22 == matrix.m22 && r.m23 == matrix.m23
  {
    OptimizedMatrix(
      matrix.m00, matrix.m01, matrix.m02, matrix.m03,
      matrix.m10, matrix.m11, matrix.m12, matrix.m13,
      matrix.m20, matrix.m21, matrix.m22, matrix.m23)
  }

  /** The two matrices agree on their top three rows. */
  predicate SameTopRows(a: Matrix, b: Matrix) {
    && a.m00 == b.m00 && a.m01 == b.m01 && a.m02 == b.m02 && a.m03 == b.m03
    && a.m10 == b.m10 && a.m11 == b.m11 && a.m12 == b.m12 && a.m13 == b.m13
    && a.m20 == b.m20 && a.m21 == b.m21 && a.m22 == b.m22 && a.m23 == b.m23
  }

  /** The copy keeps the translation column, so a matrix sits at the same place in both forms. */
  lemma FromMatrixKeepsPosition(matrix: Matrix)
    ensures OptimizedPosition(FromMatrix(matrix)) == Position(matrix)
  {
  }

  /**
   * Two matrices have the same compact form exactly when they agree on the
   * top three rows: the bottom row is dropped and nothing else is.
   */
  lemma FromMatrixDropsBottomRowOnly(a: Matrix, b: Matrix)
    ensures FromMatrix(a) == FromMatrix(b) <==> SameTopRows(a, b)
  {
  }

  /** The bottom row does not matter: changing it changes neither the copy nor the position. */
  lemma BottomRowIgnored(matrix: Matrix, m30: real, m31: real, m32: real, m33: real)
    ensures var other := matrix.(m30 := m30, m31 := m31, m32 := m32, m33 := m33);
      FromMatrix(other) == FromMatrix(matrix) && Position(other) == Position(matrix)
  {
  }
}
