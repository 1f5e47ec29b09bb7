/**
 * MatrixLoader.ConvertToOptimizedMatrices: the loop that turns the loaded
 * matrices into their compact form, one by one and in order.
 */
module Loading {
  import opened Vectors
  import opened Matrices

  /**
   * Builds a new list and appends the compact form of each input matrix in
   * turn. The input is a value and is left as it was.
   */
  method ConvertToOptimizedMatrices(matrices: seq<Matrix>) returns (optimizedMatrices: seq<OptimizedMatrix>)
    ensures |optimizedMatrices| == |matrices|
    ensures forall i :: 0 <= i < |matrices| ==> optimizedMatrices[i] == FromMatrix(matrices[i])
    ensures forall i :: 0 <= i < |matrices| ==> OptimizedPosition(optimizedMatrices[i]) == Position(matrices[i])
  {
    optimizedMatrices := [];
    for i := 0 to |matrices|
      invariant |optimizedMatrices| == i
      invariant forall j :: 0 <= j < i ==> optimizedMatrices[j] == FromMatrix(matrices[j])
    {
      optimizedMatrices := optimizedMatrices + [FromMatrix(matrices[i])];
    }
  }
}
