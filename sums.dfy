/** Finite sums of real terms f(0) + ... + f(n - 1), the sums behind every
    matrix product and every scatter-add of the assembly. */
module Sums {

  function Sum(n: nat, f: nat -> real): real
  {
    if n == 0 then 0.0 else Sum(n - 1, f) + f(n - 1)
  }

  /** Sums depend only on the terms actually summed. */
  lemma {:induction false} SumExtensional(n: nat, f: nat -> real, g: nat -> real)
    requires forall i: nat :: i < n ==> f(i) == g(i)
    ensures Sum(n, f) == Sum(n, g)
  {
    if n > 0 {
      SumExtensional(n - 1, f, g);
    }
  }

  /** A sum of zeros is zero. */
  lemma {:induction false} SumOfZeros(n: nat, f: nat -> real)
    requires forall i: nat :: i < n ==> f(i) == 0.0
    ensures Sum(n, f) == 0.0
  {
    if n > 0 {
      SumOfZeros(n - 1, f);
    }
  }

  /** A sum whose terms vanish except at k is its k-th term. */
  lemma {:induction false} SumOfSingle(n: nat, f: nat -> real, k: nat)
    requires k < n
    requires forall i: nat :: i < n && i != k ==> f(i) == 0.0
    ensures Sum(n, f) == f(k)
  {
    if k == n - 1 {
      SumOfZeros(n - 1, f);
    } else {
      SumOfSingle(n - 1, f, k);
    }
  }

  /** Sums of termwise sums split. */
  lemma {:induction false} SumOfAdded(n: nat, f: nat -> real, g: nat -> real, h: nat -> real)
    requires forall i: nat :: i < n ==> h(i) == f(i) + g(i)
    ensures Sum(n, h) == Sum(n, f) + Sum(n, g)
  {
    if n > 0 {
      SumOfAdded(n - 1, f, g, h);
    }
  }

  /** A common factor comes out of a sum. */
  lemma {:induction false} SumOfScaled(n: nat, f: nat -> real, g: nat -> real, c: real)
    requires forall i: nat :: i < n ==> g(i) == c * f(i)
    ensures Sum(n, g) == c * Sum(n, f)
  {
    if n > 0 {
      SumOfScaled(n - 1, f, g, c);
      assert c * Sum(n, f) == c * Sum(n - 1, f) + c * f(n - 1);
    }
  }

  /** Row j of a table T, as a sequence of terms. */
  function RowTerms(T: (nat, nat) -> real, j: nat): nat -> real
  {
    (k: nat) => T(j, k)
  }

  /** Column k of a table T, as a sequence of terms. */
  function ColumnTerms(T: (nat, nat) -> real, k: nat): nat -> real
  {
    (j: nat) => T(j, k)
  }

  /** The sums of the first b entries of each row of T. */
  function RowSums(b: nat, T: (nat, nat) -> real): nat -> real
  {
    (j: nat) => Sum(b, RowTerms(T, j))
  }

  /** The sums of the first a entries of each column of T. */
  function ColumnSums(a: nat, T: (nat, nat) -> real): nat -> real
  {
    (k: nat) => Sum(a, ColumnTerms(T, k))
  }

  /** A finite double sum may be taken in either order. */
  lemma {:induction false} SumsCommute(a: nat, b: nat, T: (nat, nat) -> real)
    ensures Sum(a, RowSums(b, T)) == Sum(b, ColumnSums(a, T))
  {
    if a == 0 {
      SumOfZeros(b, ColumnSums(a, T));
    } else {
      SumsCommute(a - 1, b, T);
      SumOfAdded(b, ColumnSums(a - 1, T), RowTerms(T, a - 1), ColumnSums(a, T));
    }
  }
}
