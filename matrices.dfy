/** Dense matrices as sequences of rows, and the snapshot of a two-dimensional
    array as such a matrix. */
module Matrices {

  type Matrix = seq<seq<real>>

  /** A has `rows` rows of `cols` entries each. */
  predicate IsMatrix(A: Matrix, rows: nat, cols: nat)
  {
    |A| == rows && forall i :: 0 <= i < rows ==> |A[i]| == cols
  }

  predicate IsSquare(A: Matrix, n: nat)
  {
    IsMatrix(A, n, n)
  }

  /** A square matrix equal to its own transpose. */
  predicate IsSymmetric(A: Matrix)
  {
    IsSquare(A, |A|) && forall i, j :: 0 <= i < |A| && 0 <= j < |A| ==> A[i][j] == A[j][i]
  }

  /** The rows x cols zero matrix. */
  function Zeros(rows: nat, cols: nat): (Z: Matrix)
    ensures IsMatrix(Z, rows, cols)
    ensures forall i, j :: 0 <= i < rows && 0 <= j < cols ==> Z[i][j] == 0.0
  {
    seq(rows, i => seq(cols, j => 0.0))
  }

  /** The current contents of a two-dimensional array, row by row. */
  function Snapshot<T>(a: array2<T>): (A: seq<seq<T>>)
    reads a
    ensures |A| == a.Length0 && forall i :: 0 <= i < a.Length0 ==> |A[i]| == a.Length1
    ensures forall i, j :: 0 <= i < a.Length0 && 0 <= j < a.Length1 ==> A[i][j] == a[i, j]
  {
    seq(a.Length0, i requires 0 <= i < a.Length0 reads a =>
      seq(a.Length1, j requires 0 <= j < a.Length1 reads a => a[i, j]))
  }

  /** Entrywise sum of two square matrices of the same size. */
  function Plus(A: Matrix, B: Matrix): (C: Matrix)
    requires IsSquare(A, |A|) && IsSquare(B, |A|)
    ensures IsSquare(C, |A|)
    ensures forall i, j :: 0 <= i < |A| && 0 <= j < |A| ==> C[i][j] == A[i][j] + B[i][j]
    ensures IsSymmetric(A) && IsSymmetric(B) ==> IsSymmetric(C)
  {
    seq(|A|, i requires 0 <= i < |A| => seq(|A|, j requires 0 <= j < |A| => A[i][j] + B[i][j]))
  }

  /** A square matrix with every entry multiplied by c. */
  function Scaled(c: real, A: Matrix): (C: Matrix)
    requires IsSquare(A, |A|)
    ensures IsSquare(C, |A|)
    ensures forall i, j :: 0 <= i < |A| && 0 <= j < |A| ==> C[i][j] == c * A[i][j]
    ensures IsSymmetric(A) ==> IsSymmetric(C)
  {
    seq(|A|, i requires 0 <= i < |A| => seq(|A|, j requires 0 <= j < |A| => c * A[i][j]))
  }

  /** The contents of an array are a given matrix once they agree entry by entry. */
  lemma SnapshotIs<T>(a: array2<T>, A: seq<seq<T>>)
    requires |A| == a.Length0 && forall i :: 0 <= i < a.Length0 ==> |A[i]| == a.Length1
    requires forall i, j :: 0 <= i < a.Length0 && 0 <= j < a.Length1 ==> A[i][j] == a[i, j]
    ensures Snapshot(a) == A
  {
    var S := Snapshot(a);
    forall i | 0 <= i < a.Length0
      ensures S[i] == A[i]
    {
    }
  }

  /** Entrywise sum of two vectors of the same length. */
  function VectorPlus(u: seq<real>, v: seq<real>): (w: seq<real>)
    requires |u| == |v|
    ensures |w| == |u| && forall i :: 0 <= i < |u| ==> w[i] == u[i] + v[i]
  {
    seq(|u|, i requires 0 <= i < |u| => u[i] + v[i])
  }

  /** The zero vector of length n. */
  function ZeroVector(n: nat): (z: seq<real>)
    ensures |z| == n && forall i :: 0 <= i < n ==> z[i] == 0.0
  {
    seq(n, i => 0.0)
  }

  /** The quotient n / d is the number whose product with d is n. */
  lemma Cancel(x: real, n: real, d: real)
    requires d != 0.0
    ensures x == n / d <==> x * d == n
  {
  }
}
