/**
  Integer matrices and the quadratic form of a symmetric matrix, restricted to
  the rows and columns from `k` on.
 */
module QuadraticForms {

  type Matrix = seq<seq<int>>

  predicate Square(M: Matrix) {
    forall i :: 0 <= i < |M| ==> |M[i]| == |M|
  }

  ghost predicate Symmetric(M: Matrix) {
    Square(M) && forall i, j :: 0 <= i < |M| && 0 <= j < |M| ==> M[i][j] == M[j][i]
  }

  /** sum of M[i][c] x[c] over c >= j */
  ghost function RowDot(M: Matrix, x: seq<int>, i: nat, j: nat): int
    requires Square(M) && |x| == |M| && i < |M|
    decreases |M| - j
  {
    if j >= |M| then 0 else M[i][j] * x[j] + RowDot(M, x, i, j + 1)
  }

  /** sum of x[r] M[r][c] x[c] over r >= i and c >= j */
  ghost function Rows(M: Matrix, x: seq<int>, i: nat, j: nat): int
    requires Square(M) && |x| == |M|
    decreases |M| - i
  {
    if i >= |M| then 0 else x[i] * RowDot(M, x, i, j) + Rows(M, x, i + 1, j)
  }

  ghost function Form(M: Matrix, x: seq<int>, k: nat): int
    requires Square(M) && |x| == |M|
  {
    Rows(M, x, k, k)
  }

  ghost predicate NonzeroFrom(x: seq<int>, k: nat) {
    exists i :: k <= i < |x| && x[i] != 0
  }

  /** The form on rows and columns >= k is positive on every nonzero integer vector. */
  ghost predicate PositiveFrom(M: Matrix, k: nat)
    requires Square(M)
  {
    forall x: seq<int> :: |x| == |M| && NonzeroFrom(x, k) ==> Form(M, x, k) > 0
  }

  ghost predicate PositiveDefinite(M: Matrix)
    requires Square(M)
  {
    PositiveFrom(M, 0)
  }

  /** Splitting column k off the rows below it. */
  lemma {:induction false} SplitColumn(M: Matrix, x: seq<int>, i: nat, k: nat)
    requires Symmetric(M) && |x| == |M| && k < i
    requires k < |M|
    ensures Rows(M, x, i, k) == Rows(M, x, i, k + 1) + x[k] * RowDot(M, x, k, i)
    decreases |M| - i
  {
    if i < |M| {
      SplitColumn(M, x, i + 1, k);
      var a, b, m, r := x[i], x[k], M[i][k], RowDot(M, x, i, k + 1);
      assert x[i] * RowDot(M, x, i, k) == a * (m * b + r) == a * r + b * (m * a);
      assert x[k] * RowDot(M, x, k, i) == b * (m * a + RowDot(M, x, k, i + 1))
                                       == b * (m * a) + b * RowDot(M, x, k, i + 1);
    }
  }

  /** Completing row k: the form from k on, in terms of x[k] and the rest. */
  lemma FormStep(M: Matrix, x: seq<int>, k: nat)
    requires Symmetric(M) && |x| == |M| && k < |M|
    ensures Form(M, x, k) ==
            M[k][k] * x[k] * x[k] + 2 * x[k] * RowDot(M, x, k, k + 1) + Form(M, x, k + 1)
  {
    SplitColumn(M, x, k + 1, k);
    var b, p, r := x[k], M[k][k], RowDot(M, x, k, k + 1);
    assert x[k] * RowDot(M, x, k, k) == b * (p * b + r) == p * b * b + b * r;
  }

  lemma {:induction false} RowDotZero(M: Matrix, x: seq<int>, i: nat, j: nat)
    requires Square(M) && |x| == |M| && i < |M|
    requires !NonzeroFrom(x, j)
    ensures RowDot(M, x, i, j) == 0
    decreases |M| - j
  {
    if j < |M| {
      RowDotZero(M, x, i, j + 1);
    }
  }

  lemma {:induction false} RowsZero(M: Matrix, x: seq<int>, i: nat, j: nat)
    requires Square(M) && |x| == |M| && j <= i
    requires !NonzeroFrom(x, i)
    ensures Rows(M, x, i, j) == 0
    decreases |M| - i
  {
    if i < |M| {
      RowsZero(M, x, i + 1, j);
    }
  }

  lemma {:induction false} RowDotScale(M: Matrix, x: seq<int>, y: seq<int>, p: int, i: nat, j: nat)
    requires Square(M) && |x| == |y| == |M| && i < |M|
    requires forall c :: j <= c < |M| ==> x[c] == p * y[c]
    ensures RowDot(M, x, i, j) == p * RowDot(M, y, i, j)
    decreases |M| - j
  {
    if j < |M| {
      RowDotScale(M, x, y, p, i, j + 1);
      var a, b, c := M[i][j], y[j], RowDot(M, y, i, j + 1);
      assert a * (p * b) + p * c == p * (a * b + c);
    }
  }

  lemma ScaledTerm(p: int, x: int, y: int, dot: int, base: int, rest: int, total: int)
    requires x == p * y && dot == p * base && rest == p * p * total
    ensures x * dot + rest == p * p * (y * base + total)
  {
    assert (p * y) * (p * base) == p * p * (y * base);
  }

  lemma {:induction false} RowsScale(M: Matrix, x: seq<int>, y: seq<int>, p: int, i: nat, j: nat)
    requires Square(M) && |x| == |y| == |M| && j <= i
    requires forall c :: j <= c < |M| ==> x[c] == p * y[c]
    ensures Rows(M, x, i, j) == p * p * Rows(M, y, i, j)
    decreases |M| - i
  {
    hide RowDot, Square;
    if i < |M| {
      RowDotScale(M, x, y, p, i, j);
      RowsScale(M, x, y, p, i + 1, j);
      ScaledTerm(p, x[i], y[i], RowDot(M, x, i, j), RowDot(M, y, i, j), Rows(M, x, i + 1, j), Rows(M, y, i + 1, j));
    }
  }
}
